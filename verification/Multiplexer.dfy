/**
  Sending and reassembling messages (src/ndsl/net/Multiplexer.cc, include/ndsl/net/Multiplexer.h):
  the receive buffer of a connection, the partial header and body kept between receptions, and
  the loop of `dispatch` over one received chunk.

  A body buffer is taken to be followed by a zero byte, where strlen stops.
*/
module Multiplexer {
  import opened Basics
  import opened Framing

  const MAXLINE := 16384

  /** A message left unfinished by earlier chunks. */
  class IncompleteBuf {
    const head: array<byte>
    var headSize: nat
    var buf: array?<byte>
    var bufSize: nat

    constructor ()
      ensures fresh(head) && Holds([], 0)
    {
      head := new byte[HEADER](_ => 0);
      headSize, buf, bufSize := 0, null, 0;
    }

    /** The first k bytes of the frame of p are kept, and nothing else. */
    ghost predicate Holds(p: seq<byte>, k: nat)
      requires |p| < 0x8000_0000
      reads this, head, buf
    {
      && head.Length == HEADER && headSize == (if k < HEADER then k else HEADER)
      && head[..headSize] == Frame(0, p)[..headSize]
      && if k < HEADER then buf == null && bufSize == 0
         else
           && buf != null && buf.Length == |p| && bufSize == k - HEADER <= |p|
           && forall i :: 0 <= i < |p| ==> buf[i] == if i < bufSize then p[i] else 0
    }
  }

  /** A chunk of the given size and any payload fit the receive buffer together. */
  ghost predicate FitsBuffer(ps: seq<seq<byte>>, size: nat) {
    size <= MAXLINE && forall j :: 0 <= j < |ps| ==> size + HEADER + |ps[j]| <= MAXLINE
  }

  ghost predicate Fits(ps: seq<seq<byte>>, chunks: seq<seq<byte>>, i: nat)
    requires i < |chunks|
  {
    FitsBuffer(ps, |chunks[i]|)
  }

  /** Chunk i does not end in a late header. */
  ghost predicate InTime(ps: seq<seq<byte>>, chunks: seq<seq<byte>>, i: nat)
    requires i < |chunks|
  {
    !LateHeader(ps, Size(chunks, i) + |chunks[i]|, |chunks[i]|)
  }

  /** At the end of the wire no header is open. */
  lemma WireEndsInTime(ps: seq<seq<byte>>, chunks: seq<seq<byte>>, n: nat, k: nat)
    requires chunks != [] && Size(chunks, |chunks|) == Start(ps, |ps|) && At(ps, n, k, Start(ps, |ps|))
    ensures n == |ps| && k == 0 && InTime(ps, chunks, |chunks| - 1)
  {
    AtIsUnique(ps, Start(ps, |ps|), n, k, |ps|, 0);
    LateMeans(ps, Start(ps, |ps|), |chunks[|chunks| - 1]|, |ps|, 0);
  }

  /** The length of a C string in a buffer that is followed by a zero byte. */
  method StrLen(a: array<byte>) returns (n: nat)
    ensures n <= a.Length && (n < a.Length ==> a[n] == 0)
    ensures forall i :: 0 <= i < n ==> a[i] != 0
  {
    n := 0;
    while n < a.Length && a[n] != 0
      invariant n <= a.Length && forall i :: 0 <= i < n ==> a[i] != 0
    {
      n := n + 1;
    }
  }

  method MemCpy(dst: array<byte>, to: nat, src: array<byte>, from: nat, n: nat)
    requires dst != src && to + n <= dst.Length && from + n <= src.Length
    modifies dst
    ensures dst[..] == old(dst[..to]) + src[from..from + n] + old(dst[to + n..])
  {
    forall i | 0 <= i < n { dst[to + i] := src[from + i]; }
  }

  method SendMessage(id: nat, payload: seq<byte>) returns (buffer: array<byte>)
    requires id < 0x1_0000_0000 && |payload| < 0x8000_0000
    ensures fresh(buffer) && buffer[..] == Frame(id, payload)
    ensures buffer.Length == 8 + |payload| && buffer[8..] == payload
    ensures FromBigEndian(buffer[..4]) == id && FromBigEndian(buffer[4..8]) == |payload|
  {
    buffer := new byte[|payload| + HEADER](_ => 0);
    var idBytes, lenBytes := BigEndian(id), BigEndian(|payload|);
    forall i | 0 <= i < 4 { buffer[i] := idBytes[i]; }
    forall i | 0 <= i < 4 { buffer[4 + i] := lenBytes[i]; }
    forall i | 0 <= i < |payload| { buffer[HEADER + i] := payload[i]; }
    FrameParts(id, payload);
    assert buffer[..4] == buffer[..][..4] && buffer[4..8] == buffer[..][4..8] && buffer[8..] == buffer[..][8..];
  }

  /** The receive buffer of a connection. */
  class BufInfo {
    const buf: array<byte>
    var len: nat
    const icbuf: IncompleteBuf

    constructor ()
      ensures Shape() && icbuf.Holds([], 0)
      ensures fresh(buf) && fresh(icbuf) && fresh(icbuf.head)
      ensures forall i :: 0 <= i < MAXLINE ==> buf[i] == 0
    {
      buf := new byte[MAXLINE](_ => 0);
      len := 0;
      icbuf := new IncompleteBuf();
    }

    ghost predicate Shape()
      reads this, icbuf
    {
      && buf.Length == MAXLINE && icbuf.head.Length == HEADER
      && buf != icbuf.head && icbuf.buf != icbuf.head && icbuf.buf != buf
    }

    /** First half of a pass: fill the header. */
    method FillHead(offset: nat) returns (offset': nat)
      requires Shape() && icbuf.headSize <= HEADER
      requires offset + (if len < HEADER - icbuf.headSize then len else HEADER - icbuf.headSize) <= MAXLINE
      modifies icbuf`headSize, icbuf.head
      ensures var n := if len < HEADER - old(icbuf.headSize) then len else HEADER - old(icbuf.headSize);
              && offset' == offset + n && icbuf.headSize == old(icbuf.headSize) + n
              && icbuf.head[..icbuf.headSize] == old(icbuf.head[..icbuf.headSize]) + buf[offset..offset + n]
    {
      if len < HEADER - icbuf.headSize {
        MemCpy(icbuf.head, icbuf.headSize, buf, offset, len);
        icbuf.headSize := icbuf.headSize + len;
        offset' := offset + len;
      } else {
        MemCpy(icbuf.head, icbuf.headSize, buf, offset, HEADER - icbuf.headSize);
        offset' := offset + HEADER - icbuf.headSize;
        icbuf.headSize := HEADER;
      }
    }

    /** Second half, for id 0: allocate the body if need be, and fill it. */
    method FillBody(offset: nat) returns (offset': nat, length: nat)
      requires Shape() && icbuf.headSize == HEADER
      requires icbuf.buf == null ==> icbuf.bufSize == 0
      requires icbuf.buf != null ==>
                 icbuf.buf.Length == FromBigEndian(icbuf.head[4..8]) && icbuf.bufSize <= icbuf.buf.Length
      requires offset + FromBigEndian(icbuf.head[4..8]) - icbuf.bufSize <= MAXLINE
      modifies icbuf`buf, icbuf`bufSize, icbuf.buf
      ensures Shape() && length == FromBigEndian(icbuf.head[4..8])
      ensures icbuf.buf != null && icbuf.buf.Length == length
      ensures if old(icbuf.buf) == null then fresh(icbuf.buf) else icbuf.buf == old(icbuf.buf)
      ensures offset' == offset + length - old(icbuf.bufSize)
      ensures icbuf.buf[..] ==
              (if old(icbuf.buf) == null then [] else old(icbuf.buf[..icbuf.bufSize])) + buf[offset..offset']
      ensures icbuf.bufSize <= length && (icbuf.bufSize < length ==> icbuf.buf[icbuf.bufSize] == 0)
      ensures forall i :: 0 <= i < icbuf.bufSize ==> icbuf.buf[i] != 0
    {
      length := FromBigEndian(icbuf.head[4..8]);
      if icbuf.buf == null {
        icbuf.buf := new byte[length](_ => 0);
      }
      MemCpy(icbuf.buf, icbuf.bufSize, buf, offset, length - icbuf.bufSize);
      offset' := offset + length - icbuf.bufSize;
      icbuf.bufSize := StrLen(icbuf.buf);
    }

    /** A complete body is handed over as a C string, and the state is cleared. */
    method Finish() returns (payload: seq<byte>)
      requires Shape() && icbuf.buf != null && icbuf.bufSize <= icbuf.buf.Length && icbuf.headSize <= HEADER
      modifies icbuf, icbuf.head
      ensures Shape() && icbuf.Holds([], 0)
      ensures payload == old(icbuf.buf[..icbuf.bufSize])
    {
      payload := icbuf.buf[..icbuf.bufSize];
      forall i | 0 <= i < icbuf.headSize { icbuf.head[i] := 0; }
      icbuf.headSize := 0;
      icbuf.buf := null;
      icbuf.bufSize := 0;
    }

    /** The state between two passes: k bytes of the frame of p are kept, and the chunk goes on at offset. */
    ghost predicate Reading(p: seq<byte>, k: nat, offset: nat)
      reads this, buf, icbuf, icbuf.head, icbuf.buf
    {
      && Shape() && Sendable(p) && k < HEADER + |p| && icbuf.Holds(p, k)
      && (offset == 0 || k == 0)
      && offset < len && len + HEADER + |p| <= MAXLINE
      && Ahead(buf[..], offset, len, Frame(0, p), k)
    }

    /** The chunk ends within a header that does not begin the chunk. */
    ghost predicate CutLate(k: nat, offset: nat)
      reads this
    {
      offset > 0 && k + len < HEADER + offset
    }

    /** The header holds the first k bytes of the frame, or all 8. */
    ghost predicate InHead(p: seq<byte>, k: nat)
      requires |p| < 0x8000_0000
      reads this, icbuf, icbuf.head
    {
      && Shape() && icbuf.headSize == (if k < HEADER then k else HEADER)
      && icbuf.head[..icbuf.headSize] == Frame(0, p)[..icbuf.headSize]
    }

    /** The header was cut short and filled up with zeros. */
    ghost predicate HeadPadded(p: seq<byte>, r: nat)
      requires |p| < 0x8000_0000 && r <= HEADER
      reads this, icbuf, icbuf.head
    {
      && Shape() && r < icbuf.headSize == (if len < HEADER then len else HEADER)
      && (icbuf.headSize == HEADER ==>
            FromBigEndian(icbuf.head[..4]) == 0 && FromBigEndian(icbuf.head[4..8]) == PaddedLength(p, r) <= |p|)
    }

    /** The header of a frame for another client is complete, and nothing else is kept. */
    ghost predicate OtherHead()
      reads this, icbuf, icbuf.head
    {
      && Shape() && icbuf.headSize == HEADER && FromBigEndian(icbuf.head[..4]) != 0
      && icbuf.buf == null && icbuf.bufSize == 0
    }

    /** The header is complete with what the chunk goes on with, and is that of a frame for another client. */
    ghost predicate OtherAhead(offset: nat)
      reads this, buf, icbuf, icbuf.head
    {
      && Shape() && icbuf.headSize <= HEADER && icbuf.buf == null && icbuf.bufSize == 0
      && offset + HEADER - icbuf.headSize <= len <= MAXLINE
      && FromBigEndian((icbuf.head[..icbuf.headSize] + buf[offset..offset + HEADER - icbuf.headSize])[..4]) != 0
    }

    method FillHeadOf(offset: nat, ghost p: seq<byte>, ghost k: nat, ghost other: bool) returns (offset': nat)
      requires offset < len && |p| < 0x8000_0000
      requires if other then OtherAhead(offset) else
                 && len + HEADER + |p| <= MAXLINE && InHead(p, k) && k < HEADER + |p|
                 && (offset == 0 || k == 0) && Ahead(buf[..], offset, len, Frame(0, p), k)
      modifies icbuf`headSize, icbuf.head
      ensures offset' == offset + icbuf.headSize - old(icbuf.headSize)
      ensures other ==> OtherHead() && icbuf.head[..] == old(icbuf.head[..icbuf.headSize]) + buf[offset..offset']
      ensures !other && CutLate(k, offset) ==> HeadPadded(p, len - offset)
      ensures !other && !CutLate(k, offset) && k < HEADER ==>
                InHead(p, k + len - offset) && Ahead(buf[..], offset', len, Frame(0, p), icbuf.headSize)
      ensures !other && !CutLate(k, offset) && k >= HEADER ==> InHead(p, k) && offset' == offset
    {
      ghost var b, pre := buf[..], icbuf.head[..icbuf.headSize];
      offset' := FillHead(offset);
      assert buf[..] == b && icbuf.head[..icbuf.headSize] == pre + buf[..][offset..offset'];
      if other {
        OtherHeadDone(pre, offset, offset');
      } else {
        HeadOfFrame(pre, offset, offset', p, k);
      }
    }

    lemma HeadOfFrame(pre: seq<byte>, offset: nat, offset': nat, p: seq<byte>, k: nat)
      requires Shape() && |p| < 0x8000_0000 && k < HEADER + |p| && offset < len && len + HEADER + |p| <= MAXLINE
      requires |pre| == (if k < HEADER then k else HEADER) && pre == Frame(0, p)[..|pre|]
      requires (offset == 0 || k == 0) && Ahead(buf[..], offset, len, Frame(0, p), k)
      requires offset' == offset + (if len < HEADER - |pre| then len else HEADER - |pre|)
      requires icbuf.headSize == |pre| + offset' - offset && offset' <= MAXLINE
      requires icbuf.head[..icbuf.headSize] == pre + buf[..][offset..offset']
      ensures CutLate(k, offset) ==> HeadPadded(p, len - offset)
      ensures !CutLate(k, offset) && k < HEADER ==>
                InHead(p, k + len - offset) && Ahead(buf[..], offset', len, Frame(0, p), icbuf.headSize)
      ensures !CutLate(k, offset) && k >= HEADER ==> InHead(p, k) && offset' == offset
    {
      if k < HEADER {
        if CutLate(k, offset) {
          PaddedHead(offset, p);
        } else {
          AheadMoves(buf[..], offset, len, Frame(0, p), k, offset' - offset);
        }
      }
    }

    lemma OtherHeadDone(pre: seq<byte>, offset: nat, offset': nat)
      requires Shape() && offset <= offset' <= MAXLINE && icbuf.headSize == HEADER
      requires icbuf.buf == null && icbuf.bufSize == 0
      requires icbuf.head[..HEADER] == pre + buf[offset..offset']
      requires FromBigEndian((pre + buf[offset..offset'])[..4]) != 0
      ensures OtherHead() && icbuf.head[..] == pre + buf[offset..offset']
    {
      WholeHead();
    }

    lemma WholeHead()
      requires icbuf.head.Length == HEADER
      ensures icbuf.head[..HEADER] == icbuf.head[..] && icbuf.head[..HEADER][..4] == icbuf.head[..4]
    {
    }

    lemma PaddedHead(offset: nat, p: seq<byte>)
      requires Shape() && |p| < 0x8000_0000 && CutLate(0, offset)
      requires offset < len < icbuf.headSize + offset <= offset + HEADER
      requires Ahead(buf[..], offset, len, Frame(0, p), 0)
      requires offset + icbuf.headSize <= MAXLINE && icbuf.headSize == (if len < HEADER then len else HEADER)
      requires icbuf.head[..icbuf.headSize] == buf[offset..offset + icbuf.headSize]
      ensures HeadPadded(p, len - offset)
    {
      if icbuf.headSize == HEADER {
        var h, f, r := icbuf.head[..], Frame(0, p), len - offset;
        assert h == icbuf.head[..HEADER] == buf[..][offset..offset + HEADER];
        forall i | 0 <= i < r ensures h[i] == f[i] { assert h[i] == buf[..][offset + i - 0]; }
        forall i | r <= i < HEADER ensures h[i] == 0 { assert h[i] == buf[..][offset + i]; }
        CutHeader(p, h, r);
        assert icbuf.head[..4] == h[..4] && icbuf.head[4..8] == h[4..8];
      }
    }

    /** The first k - HEADER bytes of the body are kept. */
    ghost predicate BodyKept(p: seq<byte>, k: nat)
      reads this, icbuf, icbuf.buf
    {
      && Shape() && Sendable(p) && HEADER <= k < HEADER + |p| && icbuf.bufSize == k - HEADER
      && if icbuf.buf == null then k == HEADER
         else icbuf.buf.Length == |p| && icbuf.buf[..icbuf.bufSize] == p[..icbuf.bufSize]
    }

    /** Nothing is kept of a body, and only zeros follow in the buffer. */
    ghost predicate BeforeZeros(offset: nat, p: seq<byte>)
      reads this, buf, icbuf
    {
      && Shape() && icbuf.buf == null && icbuf.bufSize == 0 && offset + |p| <= MAXLINE
      && forall i :: offset <= i < MAXLINE ==> buf[i] == 0
    }

    /** What a copied body means: in time, the payload as far as the chunk goes. */
    method FillBodyOf(offset: nat, ghost p: seq<byte>, ghost k: nat, ghost late: bool)
      returns (offset': nat, length: nat)
      requires len + HEADER + |p| <= MAXLINE && icbuf.headSize == HEADER
      requires if late then BeforeZeros(offset, p) && FromBigEndian(icbuf.head[4..8]) <= |p|
               else
                 && BodyKept(p, k) && FromBigEndian(icbuf.head[4..8]) == |p|
                 && Ahead(buf[..], offset, len, Frame(0, p), k)
      modifies icbuf`buf, icbuf`bufSize, icbuf.buf
      ensures Shape() && icbuf.buf != null && icbuf.buf.Length == length && icbuf.bufSize <= length
      ensures if old(icbuf.buf) == null then fresh(icbuf.buf) else icbuf.buf == old(icbuf.buf)
      ensures offset' >= offset && length == FromBigEndian(icbuf.head[4..8]) && (late ==> icbuf.bufSize == 0)
      ensures !late ==> length == |p| && offset' == offset + HEADER + |p| - k
      ensures !late ==> icbuf.bufSize == if k + len - offset < HEADER + |p| then k + len - offset - HEADER else length
      ensures !late ==> forall i :: 0 <= i < length ==> icbuf.buf[i] == if i < icbuf.bufSize then p[i] else 0
    {
      offset', length := FillBody(offset);
      if late {
        assert icbuf.buf.Length > 0 ==> icbuf.buf[0] == icbuf.buf[..][0] == buf[offset];
      } else {
        BodyFilled(offset, p, k);
      }
    }

    lemma BodyFilled(offset: nat, p: seq<byte>, k: nat)
      requires Shape() && icbuf.buf != null && icbuf.buf.Length == |p| && HEADER <= k < HEADER + |p| && Sendable(p)
      requires offset + HEADER + |p| - k <= MAXLINE && Ahead(buf[..], offset, len, Frame(0, p), k)
      requires icbuf.buf[..] == p[..k - HEADER] + buf[offset..offset + HEADER + |p| - k]
      requires icbuf.bufSize <= |p| && (icbuf.bufSize < |p| ==> icbuf.buf[icbuf.bufSize] == 0)
      requires forall i :: 0 <= i < icbuf.bufSize ==> icbuf.buf[i] != 0
      ensures icbuf.bufSize == if k + len - offset < HEADER + |p| then k + len - offset - HEADER else |p|
      ensures forall i :: 0 <= i < |p| ==> icbuf.buf[i] == if i < icbuf.bufSize then p[i] else 0
    {
      var body := icbuf.buf[..];
      BodyBytes(p, k, buf[..], offset, len, body);
      var m := if k + len - offset < HEADER + |p| then k + len - offset - HEADER else |p|;
      StringEnd(p, body, m, icbuf.bufSize);
      forall i | 0 <= i < |p| ensures icbuf.buf[i] == if i < icbuf.bufSize then p[i] else 0 {
        assert icbuf.buf[i] == body[i];
      }
    }

    lemma HeaderNumbers(p: seq<byte>)
      requires Shape() && |p| < 0x8000_0000 && icbuf.head[..HEADER] == Frame(0, p)[..HEADER]
      ensures FromBigEndian(icbuf.head[..4]) == 0 && FromBigEndian(icbuf.head[4..8]) == |p|
    {
      FrameParts(0, p);
      var h, f := icbuf.head[..HEADER], Frame(0, p)[..HEADER];
      assert icbuf.head[..4] == h[..4] && f[..4] == Frame(0, p)[..4];
      assert icbuf.head[4..8] == h[4..8] && f[4..8] == Frame(0, p)[4..8];
    }

    /**
      One pass of the loop of `dispatch`, where `length` is the length variable of the loop.  In
      time, the pass keeps what the chunk has of the frame, or hands its payload over.  Late, the
      saved header is longer than what was received of it.  The header of a frame for another client
      is completed and kept.  With a complete header, the pass moves on if and only if its id is 0.
    */
    method Pass(offset: nat, length: nat, ghost p: seq<byte>, ghost k: nat, ghost other: bool)
      returns (offset': nat, length': nat, out: seq<seq<byte>>)
      requires length != 0 && offset < len && |p| < 0x8000_0000
      requires if other then OtherAhead(offset) else Reading(p, k, offset)
      modifies icbuf, icbuf.head, icbuf.buf
      ensures Shape() && (icbuf.buf == old(icbuf.buf) || icbuf.buf == null || fresh(icbuf.buf))
      ensures other ==>
                && offset' == offset + HEADER - old(icbuf.headSize) && length' == length && out == []
                && OtherHead() && icbuf.head[..] == old(icbuf.head[..icbuf.headSize]) + buf[offset..offset']
      ensures !other && CutLate(k, offset) ==>
                && offset' >= len && icbuf.headSize != len - offset && out == LateOutput(p, len - offset, len)
                && (out != [] ==> icbuf.Holds([], 0))
      ensures !other && !CutLate(k, offset) && k + len - offset < HEADER + |p| ==>
                length' != 0 && offset' >= len && out == [] && icbuf.Holds(p, k + len - offset)
      ensures !other && !CutLate(k, offset) && k + len - offset >= HEADER + |p| ==>
                length' != 0 && offset' == offset + HEADER + |p| - k && out == [p] && icbuf.Holds([], 0)
      ensures old(icbuf.headSize) == HEADER ==> (offset' > offset <==> FromBigEndian(old(icbuf.head[..4])) == 0)
    {
      assert !other ==> InHead(p, k) && (k >= HEADER ==> BodyKept(p, k));
      if !other && k >= HEADER { HeaderNumbers(p); }
      if other && icbuf.headSize == HEADER {
        assert (icbuf.head[..HEADER] + buf[offset..offset])[..4] == icbuf.head[..4];
      }
      ghost var late := CutLate(k, offset);
      length', out := length, [];
      offset' := FillHeadOf(offset, p, k, other);
      if icbuf.headSize == HEADER {
        if !late && !other { HeaderNumbers(p); }
        // A frame for another client is handed to it as it stands; nothing of it is consumed.
        if FromBigEndian(icbuf.head[..4]) == 0 {
          offset', length' := FillBodyOf(offset', p, if k < HEADER then HEADER else k, late);
        }
      }
      if icbuf.bufSize == length' {
        assert !late ==> icbuf.buf[..icbuf.bufSize] == p;
        var payload := Finish();
        out := [payload];
      }
    }

    /**
      From a cleared state, a chunk that begins with the whole header of a frame for another client,
      and does not end there, gets the loop as far as behind the header and no further, however many
      passes it makes.
    */
    method OtherFrameStalls(chunk: seq<byte>, junk: nat, passes: nat)
      returns (offset: nat, length: nat, delivered: seq<seq<byte>>)
      requires Shape() && Cleared() && icbuf.Holds([], 0) && junk != 0
      requires HEADER < |chunk| <= MAXLINE && FromBigEndian(chunk[..4]) != 0
      modifies `len, icbuf, icbuf.head, icbuf.buf, buf
      ensures OtherHead() && icbuf.head[..] == chunk[..HEADER] && offset == HEADER < len && delivered == []
    {
      Receive(chunk);
      assert (icbuf.head[..0] + buf[0..HEADER])[..4] == chunk[..4];
      assert buf[0..HEADER] == chunk[..HEADER];
      offset, length, delivered := Pass(0, junk, [], 0, true);
      for i := 0 to passes
        invariant OtherHead() && icbuf.head[..] == chunk[..HEADER] && offset == HEADER < len <= MAXLINE
        invariant length != 0 && delivered == []
        invariant icbuf.buf == null
      {
        assert (icbuf.head[..HEADER] + buf[HEADER..HEADER])[..4] == icbuf.head[..4];
        var out;
        offset, length, out := Pass(offset, length, [], 0, true);
        delivered := delivered + out;
        assert icbuf.head[..] == chunk[..HEADER] + buf[HEADER..HEADER];
      }
    }

    /** The same pass, for a chunk of the wire from pos on. */
    method PassOn(offset: nat, length: nat, ghost ps: seq<seq<byte>>, ghost wire: seq<byte>, ghost pos: nat,
                  ghost n: nat, ghost k: nat)
      returns (offset': nat, length': nat, out: seq<seq<byte>>, ghost n': nat, ghost k': nat)
      requires AllSendable(ps) && At(ps, n, k, pos + offset) && Chunk(ps, wire, pos, buf[..], len)
      requires Shape() && icbuf.Holds(Pending(ps, n), k) && length != 0
      requires (offset == 0 || k == 0) && offset < len
      modifies icbuf, icbuf.head, icbuf.buf
      ensures Shape() && (icbuf.buf == old(icbuf.buf) || icbuf.buf == null || fresh(icbuf.buf))
      ensures offset' > offset && n <= n' && At(ps, n', k', pos + if offset' < len then offset' else len)
      ensures if CutLate(k, offset) then
                && offset' >= len && n' == n && 1 <= k' < HEADER && k' < len
                && icbuf.headSize != k' && out == LateOutput(Pending(ps, n'), k', len)
                && (out != [] ==> icbuf.Holds([], 0))
              else
                && length' != 0 && icbuf.Holds(Pending(ps, n'), k') && out == ps[n..n']
                && if offset' < len then k' == 0 else k' == 0 || k' >= HEADER || k' >= len
    {
      n', k' := FrameNext(ps, wire, n, k, pos, buf[..], offset, len);
      offset', length', out := Pass(offset, length, ps[n], k, false);
    }

    /** The loop of `dispatch` over one chunk. */
    method DispatchLoop(junk: nat, ghost ps: seq<seq<byte>>, ghost wire: seq<byte>, ghost pos: nat,
                        ghost n: nat, ghost k: nat)
      returns (delivered: seq<seq<byte>>, ghost n': nat, ghost k': nat, ghost late: bool)
      requires AllSendable(ps) && Shape() && junk != 0 && At(ps, n, k, pos) && icbuf.Holds(Pending(ps, n), k)
      requires Chunk(ps, wire, pos, buf[..], len)
      modifies icbuf, icbuf.head, icbuf.buf
      ensures Shape() && (icbuf.buf == old(icbuf.buf) || icbuf.buf == null || fresh(icbuf.buf))
      ensures n <= n' <= |ps| && At(ps, n', k', pos + len)
      ensures if late then
                && 1 <= k' < HEADER && k' < len && icbuf.headSize != k'
                && delivered == ps[n..n'] + LateOutput(Pending(ps, n'), k', len)
                && (LateOutput(Pending(ps, n'), k', len) != [] ==> icbuf.Holds([], 0))
              else
                icbuf.Holds(Pending(ps, n'), k') && delivered == ps[n..n'] && (k' == 0 || k' >= HEADER || k' >= len)
    {
      ghost var b := buf[..];
      var offset, length := 0, junk;
      n', k', late := n, k, false;
      delivered := [];
      while offset < len
        invariant Shape() && (icbuf.buf == old(icbuf.buf) || icbuf.buf == null || fresh(icbuf.buf))
        invariant buf[..] == b && n <= n' <= |ps| && At(ps, n', k', pos + if offset < len then offset else len)
        invariant offset < len ==> !late && (offset == 0 || k' == 0)
        invariant if late then
                    && 1 <= k' < HEADER && k' < len && icbuf.headSize != k'
                    && delivered == ps[n..n'] + LateOutput(Pending(ps, n'), k', len)
                    && (LateOutput(Pending(ps, n'), k', len) != [] ==> icbuf.Holds([], 0))
                  else
                    && length != 0 && icbuf.Holds(Pending(ps, n'), k') && delivered == ps[n..n']
                    && (offset >= len ==> k' == 0 || k' >= HEADER || k' >= len)
        decreases len - offset
      {
        var out;
        ghost var n0, k0 := n', k';
        late := CutLate(k0, offset);
        offset, length, out, n', k' := PassOn(offset, length, ps, wire, pos, n0, k0);
        delivered := delivered + out;
        SlicesJoin(ps, n, n0, n');
      }
    }

    /**
      A chunk of the given size has handed over the messages from n on, and then what its late header
      amounts to; an empty message leaves nothing kept.
    */
    ghost predicate EndsLate(ps: seq<seq<byte>>, n: nat, n': nat, k': nat, size: nat, delivered: seq<seq<byte>>)
      requires AllSendable(ps) && n <= n' <= |ps|
      reads icbuf, icbuf.head, icbuf.buf
    {
      && k' < HEADER && delivered == ps[n..n'] + LateOutput(Pending(ps, n'), k', size)
      && (delivered != ps[n..n'] ==> icbuf.Holds([], 0))
    }

    ghost predicate Cleared()
      reads this, buf
    {
      buf.Length == MAXLINE && forall i :: 0 <= i < MAXLINE ==> buf[i] == 0
    }

    method Clear()
      requires Shape()
      modifies buf
      ensures Cleared()
    {
      forall i | 0 <= i < MAXLINE { buf[i] := 0; }
    }

    /**
      The callback of a reception: the loop, and the buffer cleared for the next chunk.  The state
      stays true to the wire if and only if the chunk does not end in a late header.  `junk` is the
      length variable before its first use.
    */
    method Dispatch(junk: nat, ghost ps: seq<seq<byte>>, ghost wire: seq<byte>, ghost pos: nat,
                        ghost n: nat, ghost k: nat)
      returns (delivered: seq<seq<byte>>, ghost n': nat, ghost k': nat)
      requires AllSendable(ps) && Shape() && junk != 0 && At(ps, n, k, pos) && icbuf.Holds(Pending(ps, n), k)
      requires Chunk(ps, wire, pos, buf[..], len)
      modifies icbuf, icbuf.head, icbuf.buf, buf
      ensures Shape() && (icbuf.buf == old(icbuf.buf) || icbuf.buf == null || fresh(icbuf.buf))
      ensures Cleared() && n <= n' <= |ps| && At(ps, n', k', pos + len)
      ensures icbuf.Holds(Pending(ps, n'), k') <==> !LateHeader(ps, pos + len, len)
      ensures !LateHeader(ps, pos + len, len) ==> delivered == ps[n..n']
      ensures LateHeader(ps, pos + len, len) ==> EndsLate(ps, n, n', k', len, delivered)
    {
      ghost var late;
      delivered, n', k', late := DispatchLoop(junk, ps, wire, pos, n, k);
      LateMeans(ps, pos + len, len, n', k');
      assert late ==> !icbuf.Holds(Pending(ps, n'), k');
      assert late ==> EndsLate(ps, n, n', k', len, delivered);
      Clear();
    }

    /** A chunk arrives in the cleared buffer. */
    method Receive(chunk: seq<byte>)
      requires Shape() && |chunk| <= MAXLINE && Cleared()
      modifies buf, `len
      ensures len == |chunk| && buf[..len] == chunk && forall i :: len <= i < MAXLINE ==> buf[i] == 0
    {
      forall i | 0 <= i < |chunk| { buf[i] := chunk[i]; }
      len := |chunk|;
    }

    /** One reception and its callback. */
    method ReceiveOne(chunk: seq<byte>, junk: nat, ghost ps: seq<seq<byte>>, ghost wire: seq<byte>, ghost pos: nat,
                      ghost n: nat, ghost k: nat)
      returns (delivered: seq<seq<byte>>, ghost n': nat, ghost k': nat)
      requires AllSendable(ps) && junk != 0 && At(ps, n, k, pos)
      requires Shape() && Cleared() && icbuf.Holds(Pending(ps, n), k)
      requires Carries(wire, ps) && pos + |chunk| <= |wire| && chunk == wire[pos..pos + |chunk|]
      requires FitsBuffer(ps, |chunk|)
      modifies `len, icbuf, icbuf.head, icbuf.buf, buf
      ensures Shape() && (icbuf.buf == old(icbuf.buf) || icbuf.buf == null || fresh(icbuf.buf))
      ensures Cleared() && n <= n' <= |ps| && At(ps, n', k', pos + |chunk|)
      ensures icbuf.Holds(Pending(ps, n'), k') <==> !LateHeader(ps, pos + |chunk|, |chunk|)
      ensures !LateHeader(ps, pos + |chunk|, |chunk|) ==> delivered == ps[n..n']
      ensures LateHeader(ps, pos + |chunk|, |chunk|) ==> EndsLate(ps, n, n', k', |chunk|, delivered)
    {
      Receive(chunk);
      assert icbuf.Holds(Pending(ps, n), k);
      delivered, n', k' := Dispatch(junk, ps, wire, pos, n, k);
    }

    /** From the beginning of the wire: a chunk that ends in a late header which counts as complete. */
    method ReceiveLate(chunk: seq<byte>, junk: nat, ghost ps: seq<seq<byte>>, ghost wire: seq<byte>,
                       ghost n: nat, ghost k: nat)
      returns (delivered: seq<seq<byte>>)
      requires AllSendable(ps) && junk != 0 && Carries(wire, ps) && chunk <= wire && FitsBuffer(ps, |chunk|)
      requires Shape() && Cleared() && icbuf.Holds([], 0)
      requires At(ps, n, k, |chunk|) && 1 <= k < HEADER && k < |chunk| && LateOutput(Pending(ps, n), k, |chunk|) == [[]]
      modifies `len, icbuf, icbuf.head, icbuf.buf, buf
      ensures Shape() && (icbuf.buf == old(icbuf.buf) || icbuf.buf == null || fresh(icbuf.buf))
      ensures Cleared() && icbuf.Holds([], 0) && delivered == ps[..n] + [[]]
    {
      ghost var n', k';
      LateMeans(ps, |chunk|, |chunk|, n, k);
      delivered, n', k' := ReceiveOne(chunk, junk, ps, wire, 0, 0, 0);
      AtIsUnique(ps, |chunk|, n', k', n, k);
      assert ps[0..n] == ps[..n];
    }

    /** The reception of chunk i, which does not end in a late header. */
    method ReceiveInTime(chunks: seq<seq<byte>>, junk: nat, i: nat, ghost ps: seq<seq<byte>>, ghost wire: seq<byte>,
                         ghost n: nat, ghost k: nat)
      returns (delivered: seq<seq<byte>>, ghost n': nat, ghost k': nat)
      requires AllSendable(ps) && junk != 0 && i < |chunks| && At(ps, n, k, Size(chunks, i))
      requires Shape() && Cleared() && icbuf.Holds(Pending(ps, n), k)
      requires Carries(wire, ps) && CutInto(wire, chunks) && Fits(ps, chunks, i) && InTime(ps, chunks, i)
      modifies `len, icbuf, icbuf.head, icbuf.buf, buf
      ensures Shape() && (icbuf.buf == old(icbuf.buf) || icbuf.buf == null || fresh(icbuf.buf))
      ensures Cleared() && n <= n' && At(ps, n', k', Size(chunks, i + 1)) && icbuf.Holds(Pending(ps, n'), k')
      ensures delivered == ps[n..n']
    {
      assert ChunkOn(wire, chunks, i);
      delivered, n', k' := ReceiveOne(chunks[i], junk, ps, wire, Size(chunks, i), n, k);
    }

    /** One reception after the other, none of them ending in a late header. */
    method ReceiveEach(chunks: seq<seq<byte>>, junks: seq<nat>, m: nat, ghost ps: seq<seq<byte>>, ghost wire: seq<byte>)
      returns (delivered: seq<seq<byte>>, ghost n: nat, ghost k: nat)
      requires AllSendable(ps) && |junks| == |chunks| && 0 !in junks && m <= |chunks|
      requires Shape() && Cleared() && icbuf.Holds([], 0)
      requires Carries(wire, ps) && CutInto(wire, chunks)
      requires forall i: nat :: i < m ==> Fits(ps, chunks, i) && InTime(ps, chunks, i)
      modifies `len, icbuf, icbuf.head, icbuf.buf, buf
      ensures Shape() && (icbuf.buf == old(icbuf.buf) || icbuf.buf == null || fresh(icbuf.buf))
      ensures Cleared() && At(ps, n, k, Size(chunks, m)) && icbuf.Holds(Pending(ps, n), k)
      ensures delivered == ps[0..n]
    {
      n, k := 0, 0;
      delivered := [];
      var i := 0;
      while i < m
        invariant Shape() && i <= m && (icbuf.buf == old(icbuf.buf) || icbuf.buf == null || fresh(icbuf.buf))
        invariant Cleared() && At(ps, n, k, Size(chunks, i)) && icbuf.Holds(Pending(ps, n), k)
        invariant delivered == ps[0..n]
      {
        var out;
        ghost var n0 := n;
        out, n, k := ReceiveInTime(chunks, junks[i], i, ps, wire, n, k);
        delivered := delivered + out;
        SlicesJoin(ps, 0, n0, n);
        i := i + 1;
      }
    }

    /** The last chunk as well, which may end in a late header. */
    method ReceiveRun(chunks: seq<seq<byte>>, junks: seq<nat>, ghost ps: seq<seq<byte>>, ghost wire: seq<byte>)
      returns (delivered: seq<seq<byte>>, ghost n: nat, ghost k: nat)
      requires AllSendable(ps) && |junks| == |chunks| && 0 !in junks && chunks != []
      requires Shape() && Cleared() && icbuf.Holds([], 0)
      requires Carries(wire, ps) && CutInto(wire, chunks)
      requires forall i: nat :: i < |chunks| ==> Fits(ps, chunks, i)
      requires forall i: nat :: i < |chunks| - 1 ==> InTime(ps, chunks, i)
      modifies `len, icbuf, icbuf.head, icbuf.buf, buf
      ensures Shape() && At(ps, n, k, Size(chunks, |chunks|))
      ensures icbuf.Holds(Pending(ps, n), k) <==> InTime(ps, chunks, |chunks| - 1)
      ensures InTime(ps, chunks, |chunks| - 1) ==> delivered == ps[0..n]
      ensures !InTime(ps, chunks, |chunks| - 1) ==>
                k < HEADER && delivered == ps[0..n] + LateOutput(Pending(ps, n), k, |chunks[|chunks| - 1]|)
    {
      var last := |chunks| - 1;
      delivered, n, k := ReceiveEach(chunks, junks, last, ps, wire);
      assert ChunkOn(wire, chunks, last) && Fits(ps, chunks, last);
      var out;
      ghost var n0 := n;
      out, n, k := ReceiveOne(chunks[last], junks[last], ps, wire, Size(chunks, last), n, k);
      delivered := delivered + out;
      SlicesJoin(ps, 0, n0, n);
    }

    /**
      A whole run: for every cutting of the wire, or of a first part of it, in which no chunk but
      perhaps the last ends in a late header, the messages delivered are those whose frames have been
      received, in order, and the saved state is true if and only if the last chunk is in time too.
      If all of the wire has been received, the messages delivered are the messages sent.
    */
    method ReceiveAll(chunks: seq<seq<byte>>, junks: seq<nat>, ghost ps: seq<seq<byte>>)
      returns (delivered: seq<seq<byte>>, ghost n: nat, ghost k: nat)
      requires AllSendable(ps) && |junks| == |chunks| && 0 !in junks
      requires Shape() && Cleared() && icbuf.Holds([], 0)
      requires chunks != [] && Received(chunks, |chunks|) <= Wire(ps, |ps|)
      requires forall i: nat :: i < |chunks| ==> Fits(ps, chunks, i)
      requires forall i: nat :: i < |chunks| - 1 ==> InTime(ps, chunks, i)
      modifies `len, icbuf, icbuf.head, icbuf.buf, buf
      ensures Shape() && At(ps, n, k, Size(chunks, |chunks|))
      ensures icbuf.Holds(Pending(ps, n), k) <==> InTime(ps, chunks, |chunks| - 1)
      ensures InTime(ps, chunks, |chunks| - 1) ==> delivered == ps[0..n]
      ensures !InTime(ps, chunks, |chunks| - 1) ==>
                k < HEADER && delivered == ps[0..n] + LateOutput(Pending(ps, n), k, |chunks[|chunks| - 1]|)
      ensures Received(chunks, |chunks|) == Wire(ps, |ps|) ==> delivered == ps && icbuf.Holds([], 0)
    {
      WireCarries(ps);
      ReceivedCut(chunks, Wire(ps, |ps|));
      delivered, n, k := ReceiveRun(chunks, junks, ps, Wire(ps, |ps|));
      if Received(chunks, |chunks|) == Wire(ps, |ps|) { WireEndsInTime(ps, chunks, n, k); }
    }
  }

  /** Some message whose header is what is left of the second message. */
  const LONG: seq<byte> := seq(258, _ => 1)

  const SENT: seq<seq<byte>> := [[1], [2]]
  const FIRST: seq<byte> := [0, 0, 0, 0, 0, 0, 0, 1, 1, 0]
  const SECOND: seq<byte> := [0, 0, 0, 0, 0, 0, 1, 2]

  lemma SmallHeader(p: seq<byte>)
    requires |p| < 0x1_0000
    ensures Frame(0, p) == [0, 0, 0, 0, 0, 0, (|p| / 0x100) as byte, (|p| % 0x100) as byte] + p
  {
  }

  lemma OnePosition(ps: seq<seq<byte>>, chunk: seq<byte>)
    requires ps == [LONG] && chunk == SECOND
    ensures AllSendable(ps) && Carries(Wire(ps, 1), ps) && 8 <= |Wire(ps, 1)| && chunk == Wire(ps, 1)[..8]
    ensures At(ps, 0, 0, 0) && At(ps, 0, 8, 8) && !LateHeader(ps, 8, 8)
  {
    SmallHeader(LONG);
    WireCarries(ps);
    assert Wire(ps, 0) == [];
    LateMeans(ps, 8, 8, 0, 8);
  }

  lemma TwoFrames(ps: seq<seq<byte>>)
    requires ps == SENT
    ensures AllSendable(ps) && Wire(ps, 2) == FIRST + SECOND
  {
    SmallHeader(ps[0]);
    SmallHeader(ps[1]);
    assert Wire(ps, 0) == [];
    assert Wire(ps, 1) == Wire(ps, 0) + Frame(0, ps[0]);
  }

  lemma FirstByteOnly(p: seq<byte>)
    requires |p| < 0x1_0000
    ensures LateOutput(p, 1, 10) == [[]]
  {
    SmallHeader(p);
    assert forall i :: 4 <= i < 8 ==> PaddedHeader(p, 1)[i] == 0;
  }

  lemma CutInSecond(ps: seq<seq<byte>>, chunk: seq<byte>, wire: seq<byte>)
    requires ps == SENT && chunk == FIRST && AllSendable(ps) && wire == Wire(ps, |ps|)
    ensures |chunk| == 10 && |ps| == 2 && Carries(wire, ps) && chunk <= wire && FitsBuffer(ps, 10)
    ensures At(ps, 1, 1, 10) && LateHeader(ps, 10, 10)
    ensures ps[..1] == [[1]] && LateOutput(Pending(ps, 1), 1, 10) == [[]]
  {
    TwoFrames(ps);
    WireCarries(ps);
    assert Start(ps, 0) == 0;
    assert Start(ps, 1) == 9;
    LateMeans(ps, 10, 10, 1, 1);
    FirstByteOnly(ps[1]);
  }

  /** The second chunk reads as the beginning of another message. */
  method SecondChunk(info: BufInfo, junk: nat, ghost ps: seq<seq<byte>>) returns (delivered: seq<seq<byte>>)
    requires junk != 0 && ps == [LONG]
    requires info.Shape() && info.Cleared() && info.icbuf.Holds([], 0)
    modifies info`len, info.icbuf, info.icbuf.head, info.icbuf.buf, info.buf
    ensures delivered == []
  {
    OnePosition(ps, SECOND);
    ghost var n, k;
    delivered, n, k := info.ReceiveOne(SECOND, junk, ps, Wire(ps, 1), 0, 0, 0);
    AtIsUnique(ps, 8, n, k, 0, 8);
  }

  /**
    Two messages of one byte each, cut after the first byte of the second header: an empty message
    is handed over in place of the second.
  */
  method LateHeaderLosesMessage(junk: nat) returns (chunks: seq<seq<byte>>, delivered: seq<seq<byte>>)
    requires junk != 0
    ensures AllSendable(SENT) && Received(chunks, |chunks|) == Wire(SENT, |SENT|)
    ensures delivered == [[1], []] != SENT
  {
    chunks := [FIRST, SECOND];
    TwoFrames(SENT);
    assert Received(chunks, 1) == FIRST;
    CutInSecond(SENT, FIRST, Wire(SENT, 2));
    var info := new BufInfo();
    delivered := info.ReceiveLate(FIRST, junk, SENT, Wire(SENT, 2), 1, 1);
    var rest := SecondChunk(info, junk, [LONG]);
    delivered := delivered + rest;
  }
}

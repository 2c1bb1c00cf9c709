/**
  The wire format of src/ndsl/net/Multiplexer.cc: an 8-byte header, the entity id and the payload
  length as big-endian 32-bit numbers, and then the payload.  Control messages have id 0.
*/
module Framing {
  import opened Basics

  const HEADER := 8

  /** The value of byte i of a 32-bit number, highest first. */
  function Place(i: nat): (p: nat)
    requires i < 4
    ensures p > 0
  {
    if i == 0 then 0x100_0000 else if i == 1 then 0x1_0000 else if i == 2 then 0x100 else 1
  }

  function BigEndian(x: nat): (s: seq<byte>)
    ensures |s| == 4
  {
    seq(4, i requires 0 <= i < 4 => x / Place(i) % 256)
  }

  function FromBigEndian(s: seq<byte>): nat
    requires |s| == 4
  {
    s[0] as int * 0x100_0000 + s[1] as int * 0x1_0000 + s[2] as int * 0x100 + s[3] as int
  }

  lemma Digits(x: nat)
    requires x < 0x1_0000_0000
    ensures x / 0x100_0000 % 256 * 0x100_0000 + x / 0x1_0000 % 256 * 0x1_0000 + x / 0x100 % 256 * 0x100 + x % 256 == x
  {
    var a := x / 0x100;
    var b := a / 0x100;
    assert x / 0x1_0000 == b && x / 0x100_0000 == b / 0x100;
  }

  lemma BigEndianRoundTrip(x: nat)
    requires x < 0x1_0000_0000
    ensures FromBigEndian(BigEndian(x)) == x
  {
    var s := BigEndian(x);
    assert s[0] == x / 0x100_0000 % 256 && s[1] == x / 0x1_0000 % 256 && s[2] == x / 0x100 % 256 && s[3] == x % 256;
    Digits(x);
  }

  /** The digits of a number come highest first, whatever the digits. */
  lemma BigEndianBytes(a: byte, b: byte, c: byte, d: byte)
    ensures BigEndian(0x100_0000 * a + 0x1_0000 * b + 0x100 * c + d) == [a, b, c, d]
  {
    var x: int := 0x100_0000 * a + 0x1_0000 * b + 0x100 * c + d;
    assert x / 0x100_0000 == a && x / 0x1_0000 == 256 * a + b && x / 0x100 == 0x1_0000 * a + 256 * b + c;
    var s := BigEndian(x);
    assert s[0] == a && s[1] == b && s[2] == c && s[3] == d;
  }

  /** Clearing bytes of a big-endian number does not make it larger. */
  lemma ClearedIsNoLarger(s: seq<byte>, t: seq<byte>)
    requires |s| == |t| == 4 && forall i :: 0 <= i < 4 ==> t[i] == s[i] || t[i] == 0
    ensures FromBigEndian(t) <= FromBigEndian(s)
  {
    assert forall i :: 0 <= i < 4 ==> t[i] <= s[i];
  }

  function Frame(id: nat, payload: seq<byte>): (s: seq<byte>)
    requires id < 0x1_0000_0000 && |payload| < 0x8000_0000
    ensures |s| == HEADER + |payload|
  {
    BigEndian(id) + BigEndian(|payload|) + payload
  }

  /** A payload that the receiver can take: not empty, and free of zero bytes. */
  ghost predicate Sendable(payload: seq<byte>) {
    0 < |payload| < 0x8000_0000 && forall i :: 0 <= i < |payload| ==> payload[i] != 0
  }

  ghost predicate AllSendable(ps: seq<seq<byte>>) {
    forall i :: 0 <= i < |ps| ==> Sendable(ps[i])
  }

  /** The parts of a frame, for every id. */
  lemma FrameParts(id: nat, p: seq<byte>)
    requires id < 0x1_0000_0000 && |p| < 0x8000_0000
    ensures FromBigEndian(Frame(id, p)[..4]) == id && FromBigEndian(Frame(id, p)[4..8]) == |p|
    ensures Frame(id, p)[8..] == p
  {
    BigEndianRoundTrip(id);
    BigEndianRoundTrip(|p|);
    assert Frame(id, p)[..4] == BigEndian(id) && Frame(id, p)[4..8] == BigEndian(|p|);
  }

  /** The first r header bytes of the frame of p, and zeros in place of the others. */
  ghost function PaddedHeader(p: seq<byte>, r: nat): (h: seq<byte>)
    requires |p| < 0x8000_0000 && r <= HEADER
    ensures |h| == HEADER
  {
    Frame(0, p)[..r] + seq(HEADER - r, _ => 0)
  }

  /** The payload length in such a header. */
  ghost function PaddedLength(p: seq<byte>, r: nat): nat
    requires |p| < 0x8000_0000 && r <= HEADER
  {
    FromBigEndian(PaddedHeader(p, r)[4..8])
  }

  /** A padded header still has id 0, and no larger a length. */
  lemma CutHeader(p: seq<byte>, h: seq<byte>, r: nat)
    requires |p| < 0x8000_0000 && |h| == HEADER && r <= HEADER
    requires h[..r] == Frame(0, p)[..r] && forall i :: r <= i < HEADER ==> h[i] == 0
    ensures h == PaddedHeader(p, r)
    ensures FromBigEndian(h[..4]) == 0 && FromBigEndian(h[4..8]) <= |p|
  {
    var f := Frame(0, p)[..HEADER];
    FrameParts(0, p);
    forall i | 0 <= i < HEADER ensures h[i] == f[i] || h[i] == 0 {
      if i < r { assert h[..r][i] == Frame(0, p)[..r][i]; }
    }
    assert f[..4] == Frame(0, p)[..4] && f[4..8] == Frame(0, p)[4..8];
    ClearedIsNoLarger(f[..4], h[..4]);
    ClearedIsNoLarger(f[4..8], h[4..8]);
    assert h == h[..r] + seq(HEADER - r, _ => 0);
  }

  /**
    What a chunk of the given size hands over after its complete frames, when it ends r bytes into
    a late header: an empty message, if the chunk is long enough to fill the header up and the
    length in it comes out as 0; else nothing.
  */
  ghost function LateOutput(p: seq<byte>, r: nat, size: nat): seq<seq<byte>>
    requires |p| < 0x8000_0000 && r <= HEADER
  {
    if size >= HEADER && PaddedLength(p, r) == 0 then [[]] else []
  }

  /** Where frame n begins on the wire. */
  ghost function Start(ps: seq<seq<byte>>, n: nat): nat
    requires n <= |ps|
  {
    if n == 0 then 0 else Start(ps, n - 1) + HEADER + |ps[n - 1]|
  }

  /** The first m of the control messages ps as they appear on the wire. */
  ghost function Wire(ps: seq<seq<byte>>, m: nat): (s: seq<byte>)
    requires AllSendable(ps) && m <= |ps|
    ensures |s| == Start(ps, m)
  {
    if m == 0 then [] else Wire(ps, m - 1) + Frame(0, ps[m - 1])
  }

  lemma {:induction false} StartGrows(ps: seq<seq<byte>>, m: nat, n: nat)
    requires m < n <= |ps|
    ensures Start(ps, m) + HEADER + |ps[m]| <= Start(ps, n)
    decreases n
  {
    if m < n - 1 { StartGrows(ps, m, n - 1); }
  }

  /** Frame n of ps is in its place in s. */
  ghost predicate FrameOn(s: seq<byte>, ps: seq<seq<byte>>, n: nat)
    requires AllSendable(ps) && n < |ps|
  {
    var o := Start(ps, n);
    o + HEADER + |ps[n]| <= |s| && s[o..o + HEADER + |ps[n]|] == Frame(0, ps[n])
  }

  lemma {:induction false} WireFrame(ps: seq<seq<byte>>, m: nat, n: nat)
    requires AllSendable(ps) && n < m <= |ps|
    ensures FrameOn(Wire(ps, m), ps, n)
    decreases m
  {
    var init, f, o := Wire(ps, m - 1), Frame(0, ps[m - 1]), Start(ps, n);
    if n < m - 1 {
      WireFrame(ps, m - 1, n);
      PartOfFirst(init, f, o, o + HEADER + |ps[n]|);
    } else {
      SecondPart(init, f);
    }
  }

  lemma PartOfFirst(s: seq<byte>, t: seq<byte>, i: nat, j: nat)
    requires i <= j <= |s|
    ensures (s + t)[i..j] == s[i..j]
  {
  }

  lemma SecondPart(s: seq<byte>, t: seq<byte>)
    ensures (s + t)[|s|..|s| + |t|] == t
  {
  }

  /** Position pos of the wire is k bytes into frame n, or the end. */
  ghost predicate At(ps: seq<seq<byte>>, n: nat, k: nat, pos: nat) {
    n <= |ps| && pos == Start(ps, n) + k && if n == |ps| then k == 0 else k < HEADER + |ps[n]|
  }

  lemma AtIsUnique(ps: seq<seq<byte>>, pos: nat, n: nat, k: nat, n': nat, k': nat)
    requires At(ps, n, k, pos) && At(ps, n', k', pos)
    ensures n == n' && k == k'
  {
    if n < n' { StartGrows(ps, n, n'); }
    if n' < n { StartGrows(ps, n', n); }
  }

  /** A chunk of the given size that ends at pos, within a header that does not begin the chunk. */
  ghost predicate LateHeader(ps: seq<seq<byte>>, pos: nat, size: nat) {
    exists n: nat, k: nat :: At(ps, n, k, pos) && 1 <= k < HEADER && k < size
  }

  /** Element k of frame f comes at o in a buffer that holds a chunk up to l and then zeros. */
  ghost predicate Ahead(buf: seq<int>, o: nat, l: nat, f: seq<int>, k: nat) {
    && o <= l && l + |f| <= |buf| && k <= |f|
    && (forall i :: k <= i < |f| && i - k < l - o ==> buf[o + i - k] == f[i])
    && (k + l - o < |f| ==> forall i :: l <= i < |buf| ==> buf[i] == 0)
  }

  lemma AheadMoves(buf: seq<int>, o: nat, l: nat, f: seq<int>, k: nat, n: nat)
    requires Ahead(buf, o, l, f, k) && n <= l - o && k + n <= |f|
    ensures f[..k] + buf[o..o + n] == f[..k + n]
    ensures Ahead(buf, o + n, l, f, k + n)
  {
    forall i | k <= i < k + n ensures buf[o..o + n][i - k] == f[i] {
      assert buf[o + i - k] == f[i];
    }
    forall i | k + n <= i < |f| && i - (k + n) < l - (o + n) ensures buf[o + n + i - (k + n)] == f[i] {
      assert buf[o + i - k] == f[i];
    }
  }

  /** The body after copying: the payload as far as the chunk goes, and then zeros. */
  lemma BodyBytes(p: seq<byte>, k: nat, buf: seq<byte>, o: nat, l: nat, body: seq<byte>)
    requires Sendable(p) && HEADER <= k < HEADER + |p| && Ahead(buf, o, l, Frame(0, p), k)
    requires o + HEADER + |p| - k <= |buf| && body == p[..k - HEADER] + buf[o..o + HEADER + |p| - k]
    ensures |body| == |p|
    ensures forall i :: 0 <= i < |p| ==> body[i] == if i + HEADER < k + l - o then p[i] else 0
  {
    var f := Frame(0, p);
    forall i | 0 <= i < |p| ensures body[i] == if i + HEADER < k + l - o then p[i] else 0 {
      if i + HEADER >= k {
        assert body[i] == buf[o + (i + HEADER) - k] && f[i + HEADER] == p[i];
      }
    }
  }

  /** A C string in a body that holds the first m bytes of p and then zeros has length m. */
  lemma StringEnd(p: seq<byte>, body: seq<byte>, m: nat, n: nat)
    requires Sendable(p) && |body| == |p| && m <= |p|
    requires forall i :: 0 <= i < |p| ==> body[i] == if i < m then p[i] else 0
    requires n <= |body| && (n < |body| ==> body[n] == 0) && forall i :: 0 <= i < n ==> body[i] != 0
    ensures n == m
  {
    assert n < |p| ==> body[n] == 0;
    assert m < |p| ==> body[m] == 0;
  }

  lemma LateMeans(ps: seq<seq<byte>>, pos: nat, size: nat, n: nat, k: nat)
    requires At(ps, n, k, pos)
    ensures LateHeader(ps, pos, size) <==> 1 <= k < HEADER && k < size
  {
    forall n': nat, k': nat | At(ps, n', k', pos) ensures k' == k {
      AtIsUnique(ps, pos, n, k, n', k');
    }
  }

  /** The payload of frame n, or nothing after the last frame. */
  ghost function Pending(ps: seq<seq<byte>>, n: nat): (p: seq<byte>)
    requires AllSendable(ps) && n <= |ps|
    ensures |p| < 0x8000_0000
  {
    if n == |ps| then [] else ps[n]
  }

  /** A buffer that can take any of the payloads after a chunk of l bytes, and is zero from there on. */
  ghost predicate Roomy(ps: seq<seq<byte>>, buf: seq<byte>, l: nat) {
    && l <= |buf| && (forall i :: 0 <= i < |ps| ==> l + HEADER + |ps[i]| <= |buf|)
    && forall i :: l <= i < |buf| ==> buf[i] == 0
  }

  /** The bytes s are the wire of ps, frame by frame. */
  ghost predicate Carries(s: seq<byte>, ps: seq<seq<byte>>)
    requires AllSendable(ps)
  {
    |s| == Start(ps, |ps|) && forall n: nat :: n < |ps| ==> FrameOn(s, ps, n)
  }

  lemma WireCarries(ps: seq<seq<byte>>)
    requires AllSendable(ps)
    ensures Carries(Wire(ps, |ps|), ps)
  {
    forall n: nat | n < |ps| ensures FrameOn(Wire(ps, |ps|), ps, n) {
      WireFrame(ps, |ps|, n);
    }
  }

  /** The buffer holds the l bytes of the wire from pos on. */
  ghost predicate Chunk(ps: seq<seq<byte>>, wire: seq<byte>, pos: nat, buf: seq<byte>, l: nat)
    requires AllSendable(ps)
  {
    Carries(wire, ps) && Roomy(ps, buf, l) && pos + l <= |wire| && buf[..l] == wire[pos..pos + l]
  }

  /** The frame that a chunk goes on with at o, and where the wire stands after it. */
  lemma FrameNext(ps: seq<seq<byte>>, wire: seq<byte>, n: nat, k: nat, pos: nat, buf: seq<byte>, o: nat, l: nat)
    returns (n': nat, k': nat)
    requires AllSendable(ps) && At(ps, n, k, pos + o) && Chunk(ps, wire, pos, buf, l) && o < l
    ensures n < |ps| && Ahead(buf, o, l, Frame(0, ps[n]), k)
    ensures (n', k') == if k + l - o < HEADER + |ps[n]| then (n, k + l - o) else (n + 1, 0)
    ensures At(ps, n', k', if n' == n then pos + l else pos + o + HEADER + |ps[n]| - k)
  {
    var f, a := Frame(0, ps[n]), Start(ps, n);
    assert FrameOn(wire, ps, n);
    forall i | k <= i < |f| && i - k < l - o ensures buf[o + i - k] == f[i] {
      assert f[i] == wire[a..a + HEADER + |ps[n]|][i] == wire[a + i];
      assert buf[..l][o + i - k] == wire[pos..pos + l][o + i - k];
    }
    n', k' := if k + l - o < |f| then n else n + 1, if k + l - o < |f| then k + l - o else 0;
  }

  /** The length of the first m chunks. */
  ghost function Size(chunks: seq<seq<byte>>, m: nat): nat
    requires m <= |chunks|
  {
    if m == 0 then 0 else Size(chunks, m - 1) + |chunks[m - 1]|
  }

  /** The first m chunks put together. */
  ghost function Received(chunks: seq<seq<byte>>, m: nat): (s: seq<byte>)
    requires m <= |chunks|
    ensures |s| == Size(chunks, m)
  {
    if m == 0 then [] else Received(chunks, m - 1) + chunks[m - 1]
  }

  /** Chunk i is in its place in s. */
  ghost predicate ChunkOn(s: seq<byte>, chunks: seq<seq<byte>>, i: nat)
    requires i < |chunks|
  {
    var o := Size(chunks, i);
    o + |chunks[i]| <= |s| && s[o..o + |chunks[i]|] == chunks[i]
  }

  lemma {:induction false} ReceivedChunk(chunks: seq<seq<byte>>, m: nat, i: nat)
    requires i < m <= |chunks|
    ensures ChunkOn(Received(chunks, m), chunks, i)
    decreases m
  {
    var init, c, o := Received(chunks, m - 1), chunks[m - 1], Size(chunks, i);
    if i < m - 1 {
      ReceivedChunk(chunks, m - 1, i);
      PartOfFirst(init, c, o, o + |chunks[i]|);
    } else {
      SecondPart(init, c);
    }
  }

  /** The bytes s begin with these chunks. */
  ghost predicate CutInto(s: seq<byte>, chunks: seq<seq<byte>>) {
    Size(chunks, |chunks|) <= |s| && forall i: nat :: i < |chunks| ==> ChunkOn(s, chunks, i)
  }

  lemma OnPrefix(r: seq<byte>, s: seq<byte>, chunks: seq<seq<byte>>, i: nat)
    requires i < |chunks| && r <= s && ChunkOn(r, chunks, i)
    ensures ChunkOn(s, chunks, i)
  {
    var o := Size(chunks, i);
    assert s[o..o + |chunks[i]|] == r[o..o + |chunks[i]|];
  }

  lemma ReceivedCut(chunks: seq<seq<byte>>, s: seq<byte>)
    requires Received(chunks, |chunks|) <= s
    ensures CutInto(s, chunks)
  {
    forall i: nat | i < |chunks| ensures ChunkOn(s, chunks, i) {
      ReceivedChunk(chunks, |chunks|, i);
      OnPrefix(Received(chunks, |chunks|), s, chunks, i);
    }
  }

  lemma SlicesJoin(ps: seq<seq<byte>>, a: nat, b: nat, c: nat)
    requires a <= b <= c <= |ps|
    ensures ps[a..b] + ps[b..c] == ps[a..c]
  {
  }
}

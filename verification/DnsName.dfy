/**
  The question section of a DNS query (src/ndsl/net/Dns.cc): encoding a dotted name in place as
  labels with length bytes, section 3.1 of RFC 1035, and skipping the questions of a response.
*/
module DnsName {
  import opened Basics
  import opened Sequences

  const DOT: byte := 46
  const TAIL := 4

  type Label = seq<byte>

  /** The labels of a dotted name; a name without dots is one label. */
  function Labels(name: seq<byte>): (r: seq<Label>)
    ensures |r| > 0
    decreases |name|
  {
    if name == [] then [[]]
    else
      var before, c := Labels(name[..|name| - 1]), name[|name| - 1];
      if c == DOT then before + [[]] else before[..|before| - 1] + [before[|before| - 1] + [c]]
  }

  lemma {:induction false} JoinLabels(name: seq<byte>)
    ensures Join(Labels(name), DOT) == name
    decreases |name|
  {
    if name != [] {
      var init, c := name[..|name| - 1], name[|name| - 1];
      var before, after := Labels(init), Labels(name);
      var last := |before| - 1;
      JoinLabels(init);
      if c == DOT {
        assert after[..last + 1] == before;
      } else {
        assert after[..last] == before[..last];
      }
      assert name == init + [c];
    }
  }

  ghost predicate Short(labels: seq<Label>, bound: nat) {
    forall i :: 0 <= i < |labels| ==> |labels[i]| <= bound
  }

  /** Each label behind its length; the name on the wire ends with a zero byte after them. */
  ghost function Encode(labels: seq<Label>): (r: seq<byte>)
    requires Short(labels, 255)
    decreases |labels|
  {
    if labels == [] then []
    else
      var last := labels[|labels| - 1];
      Encode(labels[..|labels| - 1]) + [|last|] + last
  }

  /** No label is longer than the encoder allows. */
  ghost predicate Encodable(name: seq<byte>) {
    Short(Labels(name), 64)
  }

  ghost function OnWire(name: seq<byte>): seq<byte>
    requires Encodable(name)
  {
    Encode(Labels(name)) + [0]
  }

  /** The state of the encoder after a prefix: what is finished, and the length of the open label. */
  ghost function Done(prefix: seq<byte>): seq<Label> {
    var labels := Labels(prefix);
    labels[..|labels| - 1]
  }

  ghost function Open(prefix: seq<byte>): nat {
    var labels := Labels(prefix);
    |labels[|labels| - 1]|
  }

  lemma {:induction false} EncodedLength(prefix: seq<byte>)
    requires Short(Done(prefix), 255)
    ensures |Encode(Done(prefix))| + Open(prefix) == |prefix|
    ensures Open(prefix) <= |prefix| && Labels(prefix)[|Labels(prefix)| - 1] == prefix[|prefix| - Open(prefix)..]
    decreases |prefix|
  {
    if prefix != [] {
      var init, c := prefix[..|prefix| - 1], prefix[|prefix| - 1];
      var before := Labels(init);
      if c == DOT {
        assert Done(prefix) == before && Done(init) == before[..|before| - 1];
        assert forall i :: 0 <= i < |Done(init)| ==> Done(init)[i] == before[i];
      } else {
        assert Done(prefix) == Done(init);
      }
      EncodedLength(init);
    }
  }

  /** What one more character does to the labels. */
  lemma LabelsStep(prefix: seq<byte>, c: byte)
    ensures if c == DOT then Done(prefix + [c]) == Labels(prefix) && Open(prefix + [c]) == 0
            else Done(prefix + [c]) == Done(prefix) && Open(prefix + [c]) == Open(prefix) + 1
  {
    assert (prefix + [c])[..|prefix|] == prefix;
    var before := Labels(prefix);
    assert (before + [[]])[..|before|] == before;
  }

  /** Finished labels stay as they are. */
  lemma {:induction false} DoneStays(name: seq<byte>, m: nat, i: nat)
    requires m <= |name| && i < |Done(name[..m])|
    ensures i < |Done(name)| && Done(name)[i] == Done(name[..m])[i]
    decreases |name|
  {
    if m < |name| {
      var init := name[..|name| - 1];
      assert init[..m] == name[..m] && init + [name[|name| - 1]] == name;
      DoneStays(init, m, i);
      LabelsStep(init, name[|name| - 1]);
    } else {
      assert name[..m] == name;
    }
  }

  lemma Snoc<A>(s: seq<A>)
    requires s != []
    ensures s == s[..|s| - 1] + [s[|s| - 1]]
  {
  }

  lemma EncodeLast(labels: seq<Label>, last: Label)
    requires Short(labels, 255) && |last| <= 255
    ensures Short(labels + [last], 255) && Encode(labels + [last]) == Encode(labels) + [|last|] + last
  {
    assert (labels + [last])[..|labels|] == labels;
  }

  /**
    The buffer b while the first p characters of the name have been read, i of them since the last
    dot: finished labels, the slot, and the rest of the name one place further on.
  */
  ghost predicate Encoding(name: seq<byte>, b: seq<byte>, p: nat, i: nat) {
    && |b| == |name| + 2 && i <= p <= |name| && i == Open(name[..p]) && Short(Done(name[..p]), 64)
    && b[..p - i] == Encode(Done(name[..p]))
    && b[p - i + 1..|name| + 1] == name[p - i..] && b[|name| + 1] == 0
  }

  lemma EncodingStarts(name: seq<byte>, b: seq<byte>)
    requires |b| == |name| + 2 && b[|name| + 1] == 0
    requires forall j :: 0 <= j < |name| ==> b[1 + j] == name[j]
    ensures Encoding(name, b, 0, 0)
  {
    assert name[..0] == [] && b[1..|name| + 1] == name;
  }

  lemma AtCharacter(name: seq<byte>, b: seq<byte>, p: nat, i: nat)
    requires Encoding(name, b, p, i) && p < |name|
    ensures b[p + 1] == name[p]
    ensures name[p] != DOT ==> Encoding(name, b, p + 1, i + 1)
  {
    assert b[p + 1] == b[p - i + 1..|name| + 1][i] == name[p - i..][i];
    LabelsStep(name[..p], name[p]);
    assert name[..p] + [name[p]] == name[..p + 1];
  }

  lemma AtDot(name: seq<byte>, b: seq<byte>, p: nat, i: nat)
    requires Encoding(name, b, p, i) && p < |name| && name[p] == DOT
    ensures i <= 64 ==> Encoding(name, b[p - i := i as byte], p + 1, 0)
    ensures i > 64 ==> !Encodable(name)
  {
    var prefix := name[..p];
    LabelsStep(prefix, DOT);
    assert prefix + [DOT] == name[..p + 1];
    if i > 64 {
      DoneStays(name, p + 1, |Done(name[..p + 1])| - 1);
    } else {
      SlotFilled(name, b, p, i);
      var b' := b[p - i := i as byte];
      assert b'[p + 2..|name| + 1] == b[p - i + 1..|name| + 1][i + 1..] == name[p - i..][i + 1..];
    }
  }

  /** Filling the slot completes the encoding of what was read. */
  lemma SlotFilled(name: seq<byte>, b: seq<byte>, p: nat, i: nat)
    requires Encoding(name, b, p, i) && i <= 64
    ensures Short(Labels(name[..p]), 64) && b[p - i := i as byte][..p + 1] == Encode(Labels(name[..p]))
  {
    var prefix := name[..p];
    EncodedLength(prefix);
    Snoc(Labels(prefix));
    EncodeLast(Done(prefix), prefix[p - i..]);
    SlotSlices(name, b, p, i);
  }

  lemma SlotSlices(name: seq<byte>, b: seq<byte>, p: nat, i: nat)
    requires |b| == |name| + 2 && i <= p <= |name| && i <= 64
    requires b[p - i + 1..|name| + 1] == name[p - i..]
    ensures b[p - i := i as byte][..p + 1] == b[..p - i] + [i as byte] + name[..p][p - i..]
  {
    forall j | p - i + 1 <= j < p + 1 ensures b[j] == name[..p][p - i..][j - (p - i + 1)] {
      assert b[j] == b[p - i + 1..|name| + 1][j - (p - i + 1)];
    }
  }

  /** One character further: the next state, and when the encoder gives up. */
  lemma OneFurther(name: seq<byte>, b: seq<byte>, p: nat, i: nat)
    requires Encoding(name, b, p, i) && p < |name|
    ensures b[p + 1] == name[p]
    ensures name[p] != DOT ==> Encoding(name, b, p + 1, i + 1)
    ensures name[p] == DOT && i <= 64 ==> Encoding(name, b[p - i := i as byte], p + 1, 0)
    ensures name[p] == DOT && i > 64 ==> !Encodable(name)
  {
    AtCharacter(name, b, p, i);
    if name[p] == DOT { AtDot(name, b, p, i); }
  }

  lemma NameFinished(name: seq<byte>, b: seq<byte>, i: nat)
    requires Encoding(name, b, |name|, i)
    ensures Encodable(name) <==> i <= 64
    ensures i <= 64 ==> b[|name| - i := i as byte] == OnWire(name)
  {
    assert name[..|name|] == name;
    if i <= 64 {
      SlotFilled(name, b, |name|, i);
      var b' := b[|name| - i := i as byte];
      assert b' == b'[..|name| + 1] + [b'[|name| + 1]];
    }
  }

  /** Encodes a name at the start of a buffer, turning the dots into length bytes. */
  method Coding(name: seq<byte>, buffer: array<byte>) returns (ok: bool)
    requires buffer.Length == |name| + 2
    modifies buffer
    ensures ok <==> Encodable(name)
    ensures ok ==> buffer[..] == OnWire(name)
  {
    forall j | 0 <= j < |name| { buffer[1 + j] := name[j]; }
    buffer[|name| + 1] := 0;
    ghost var b := buffer[..];
    assert forall j :: 0 <= j < |name| ==> b[1 + j] == name[j];
    EncodingStarts(name, b);
    var p: nat, i: nat := 1, 0;
    while p < |name| + 1
      invariant 1 <= p <= |name| + 1 && i < p && buffer[..] == b && Encoding(name, b, p - 1, i)
    {
      OneFurther(name, b, p - 1, i);
      if buffer[p] == DOT {
        if i > 64 { return false; }
        b := b[p - 1 - i := i as byte];
        buffer[p - i - 1] := i;
        i := 0;
      } else {
        i := i + 1;
      }
      p := p + 1;
    }
    NameFinished(name, b, i);
    if i > 64 { return false; }
    buffer[p - i - 1] := i;
    ok := true;
  }

  /** A reader of labels as RFC 1035 has them: a length of at most 63 each, up to a zero byte. */
  ghost function Decode(b: seq<byte>): Option<seq<Label>>
    decreases |b|
  {
    if b == [] || b[0] >= 64 || 1 + b[0] > |b| then None
    else if b[0] == 0 then Some([])
    else
      match Decode(b[1 + b[0]..])
      case None => None
      case Some(labels) => Some([b[1..1 + b[0]]] + labels)
  }

  /** Labels that the reader takes for labels. */
  ghost predicate Readable(labels: seq<Label>) {
    forall i :: 0 <= i < |labels| ==> 1 <= |labels[i]| <= 63
  }

  lemma {:induction false} EncodeFirst(l: Label, labels: seq<Label>)
    requires Short(labels, 255) && |l| <= 255
    ensures Short([l] + labels, 255) && Encode([l] + labels) == [|l|] + l + Encode(labels)
    decreases |labels|
  {
    if labels == [] {
      EncodeLast([], l);
      assert [l] + labels == [] + [l];
    } else {
      var init, x := labels[..|labels| - 1], labels[|labels| - 1];
      EncodeFirst(l, init);
      Snoc(labels);
      assert [l] + labels == ([l] + init) + [x];
      EncodeLast([l] + init, x);
    }
  }

  lemma EncodeCons(labels: seq<Label>)
    requires Short(labels, 255) && labels != []
    ensures Short(labels[1..], 255) && Encode(labels) == [|labels[0]|] + labels[0] + Encode(labels[1..])
  {
    assert labels == [labels[0]] + labels[1..];
    EncodeFirst(labels[0], labels[1..]);
  }

  lemma Split(l: Label, more: seq<byte>)
    requires |l| <= 255
    ensures var b: seq<byte> := [|l|] + l + more; b[0] == |l| && b[1..1 + |l|] == l && b[1 + |l|..] == more
  {
  }

  /** The reader inverts the encoder. */
  lemma {:induction false} DecodeEncode(labels: seq<Label>, rest: seq<byte>)
    requires Readable(labels) && Short(labels, 255)
    ensures Decode(Encode(labels) + [0] + rest) == Some(labels)
    decreases |labels|
  {
    if labels == [] {
      assert ([] + [0] + rest)[0] == 0;
    } else {
      var l, more := labels[0], Encode(labels[1..]) + [0] + rest;
      EncodeCons(labels);
      Split(l, more);
      assert Encode(labels) + [0] + rest == [|l|] + l + more;
      DecodeEncode(labels[1..], rest);
      assert labels == [l] + labels[1..];
    }
  }

  /** What is encoded is read back, for every name with labels of 1 to 63 characters. */
  lemma NameRoundTrip(name: seq<byte>, rest: seq<byte>)
    requires Readable(Labels(name))
    ensures Encodable(name) && Decode(OnWire(name) + rest) == Some(Labels(name)) && Join(Labels(name), DOT) == name
  {
    DecodeEncode(Labels(name), rest);
    JoinLabels(name);
  }

  /** The number of bytes before the first zero. */
  function FirstZero(b: seq<byte>): (n: nat)
    ensures n <= |b|
    decreases |b|
  {
    if b == [] || b[0] == 0 then 0 else 1 + FirstZero(b[1..])
  }

  lemma {:induction false} FirstZeroAfter(l: seq<byte>, more: seq<byte>)
    requires 0 !in l
    ensures FirstZero(l + more) == |l| + FirstZero(more)
    decreases |l|
  {
    if l == [] {
      assert l + more == more;
    } else {
      assert (l + more)[1..] == l[1..] + more;
      FirstZeroAfter(l[1..], more);
    }
  }

  /** The first zero ends the encoding if no label is empty, and comes earlier if one is. */
  lemma {:induction false} ZeroEnds(labels: seq<Label>, rest: seq<byte>)
    requires Short(labels, 255) && forall i :: 0 <= i < |labels| ==> 0 !in labels[i]
    ensures FirstZero(Encode(labels) + [0] + rest) == |Encode(labels)| <==> [] !in labels
    ensures FirstZero(Encode(labels) + [0] + rest) <= |Encode(labels)|
    decreases |labels|
  {
    if labels != [] {
      var l, more := labels[0], Encode(labels[1..]) + [0] + rest;
      EncodeCons(labels);
      assert Encode(labels) + [0] + rest == ([|l|] + l) + more;
      assert [] in labels <==> l == [] || [] in labels[1..];
      if l == [] {
        assert (Encode(labels) + [0] + rest)[0] == 0;
      } else {
        FirstZeroAfter([|l|] + l, more);
        ZeroEnds(labels[1..], rest);
      }
    }
  }

  /** How far the parser moves over a question: a pointer, or everything up to a zero; then the tail. */
  function SkipLength(b: seq<byte>): nat
    requires b != []
  {
    (if b[0] >= 64 then 2 else FirstZero(b) + 1) + TAIL
  }

  /**
    For every name that the encoder takes and that has no zero byte: the parser moves to the end of
    the question if and only if the first label has at most 63 characters and no label is empty.
  */
  lemma SkipExactIff(name: seq<byte>, rest: seq<byte>)
    requires Encodable(name) && 0 !in name
    ensures SkipLength(OnWire(name) + rest) == |OnWire(name)| + TAIL <==>
            |Labels(name)[0]| <= 63 && [] !in Labels(name)
  {
    var labels := Labels(name);
    forall i | 0 <= i < |labels| ensures 0 !in labels[i] { LabelsOfName(name, i); }
    ZeroEnds(labels, rest);
    EncodeCons(labels);
    assert OnWire(name) + rest == Encode(labels) + [0] + rest;
    assert (OnWire(name) + rest)[0] == |labels[0]|;
  }

  lemma {:induction false} LabelsOfName(name: seq<byte>, i: nat)
    requires 0 !in name && i < |Labels(name)|
    ensures 0 !in Labels(name)[i]
    decreases |name|
  {
    if name != [] {
      var init := name[..|name| - 1];
      if i < |Labels(init)| { LabelsOfName(init, i); }
    }
  }

  lemma FirstZeroIs(b: seq<byte>, n: nat)
    requires n < |b| && b[n] == 0 && 0 !in b[..n]
    ensures FirstZero(b) == n
  {
    FirstZeroAfter(b[..n], b[n..]);
    assert b == b[..n] + b[n..];
  }

  /** Moves over the question at p; the two marking bits of a pointer are cleared in the buffer. */
  method SkipQuestion(buf: array<byte>, p: nat) returns (p': nat)
    requires p < buf.Length && (buf[p] < 64 ==> 0 in buf[p..])
    modifies buf
    ensures p' == p + SkipLength(old(buf[p..]))
    ensures old(buf[p]) >= 64 ==> p' == p + 2 + 4
    ensures old(buf[p]) < 64 ==> p <= p' - 5 < buf.Length && old(buf[p' - 5]) == 0 && 0 !in old(buf[p..p' - 5])
    ensures buf[..] == if old(buf[p]) >= 64 then old(buf[..])[p := old(buf[p]) % 64] else old(buf[..])
  {
    ghost var b := buf[p..];
    p' := p;
    if buf[p] >= 64 {
      buf[p] := buf[p] % 64;
      p' := p' + 2;
    } else {
      assert exists j :: 0 <= j < |b| && b[j] == 0;
      while buf[p'] != 0
        invariant p <= p' < buf.Length && 0 !in b[..p' - p] && buf[..] == old(buf[..])
        invariant exists j :: p' - p <= j < |b| && b[j] == 0
        decreases buf.Length - p'
      {
        assert b[p' - p] == buf[p'] && b[..p' + 1 - p] == b[..p' - p] + [buf[p']];
        p' := p' + 1;
      }
      assert b[p' - p] == buf[p'];
      FirstZeroIs(b, p' - p);
      assert b[..p' - p] == old(buf[p..p']);
      p' := p' + 1;
    }
    p' := p' + TAIL;
  }

  /** A name that is sent and skipped as it should be. */
  ghost predicate Askable(name: seq<byte>) {
    0 !in name && Readable(Labels(name))
  }

  ghost predicate AllAskable(names: seq<seq<byte>>, tails: seq<seq<byte>>) {
    |tails| == |names| && forall i :: 0 <= i < |names| ==> Askable(names[i]) && |tails[i]| == TAIL
  }

  /** Questions one after the other, each with its tail of type and class. */
  ghost function Questions(names: seq<seq<byte>>, tails: seq<seq<byte>>): (b: seq<byte>)
    requires AllAskable(names, tails)
    decreases |names|
  {
    if names == [] then [] else OnWire(names[0]) + tails[0] + Questions(names[1..], tails[1..])
  }

  lemma SkipAskable(name: seq<byte>, rest: seq<byte>)
    requires Askable(name)
    ensures SkipLength(OnWire(name) + rest) == |OnWire(name)| + TAIL
    ensures |OnWire(name)| > 0 && OnWire(name)[0] < 64 && OnWire(name)[|OnWire(name)| - 1] == 0
  {
    SkipExactIff(name, rest);
    EncodeCons(Labels(name));
  }

  /** In bytes: a question for a name of n characters takes n + 2 for the name and 4 for type and class. */
  lemma QuestionSize(name: seq<byte>, rest: seq<byte>)
    requires Askable(name)
    ensures SkipLength(OnWire(name) + rest) == |name| + 2 + 4
  {
    SkipAskable(name, rest);
    EncodedLength(name);
    Snoc(Labels(name));
    EncodeLast(Done(name), Labels(name)[|Labels(name)| - 1]);
  }

  lemma Parts(e: seq<byte>, t: seq<byte>, more: seq<byte>, rest: seq<byte>, b: seq<byte>)
    requires b == e + t + more + rest
    ensures b == e + (t + more + rest) && b[|e| + |t|..] == more + rest
  {
  }

  lemma NextQuestion(names: seq<seq<byte>>, tails: seq<seq<byte>>, rest: seq<byte>, b: seq<byte>)
    requires AllAskable(names, tails) && names != [] && b == Questions(names, tails) + rest
    ensures b != [] && b[0] < 64 && 0 in b && AllAskable(names[1..], tails[1..])
    ensures SkipLength(b) + |Questions(names[1..], tails[1..])| == |Questions(names, tails)|
    ensures b[SkipLength(b)..] == Questions(names[1..], tails[1..]) + rest
  {
    var e, t, more := OnWire(names[0]), tails[0], Questions(names[1..], tails[1..]);
    Parts(e, t, more, rest, b);
    SkipAskable(names[0], t + more + rest);
    assert b[0] == e[0] && b[|e| - 1] == e[|e| - 1];
  }

  /** The parser's loop over the questions of a response ends where they end. */
  method SkipQuestions(buf: array<byte>, at: nat, quests: nat,
                       ghost names: seq<seq<byte>>, ghost tails: seq<seq<byte>>, ghost rest: seq<byte>) returns (p: nat)
    requires quests == |names| && AllAskable(names, tails)
    requires at <= buf.Length && buf[at..] == Questions(names, tails) + rest
    modifies buf
    ensures p == at + |Questions(names, tails)| && buf[..] == old(buf[..]) && buf[p..] == rest
  {
    p := at;
    ghost var ns, ts := names, tails;
    for i := 0 to quests
      invariant at <= p <= buf.Length && |ns| == quests - i && AllAskable(ns, ts)
      invariant buf[..] == old(buf[..]) && buf[p..] == Questions(ns, ts) + rest
      invariant p + |Questions(ns, ts)| == at + |Questions(names, tails)|
    {
      ghost var b, q := buf[p..], p;
      NextQuestion(ns, ts, rest, b);
      assert buf[p] == b[0];
      p := SkipQuestion(buf, p);
      assert buf[p..] == b[p - q..];
      ns, ts := ns[1..], ts[1..];
    }
    assert Questions(ns, ts) == [] && [] + rest == rest;
  }
}

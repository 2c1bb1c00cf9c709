/**
  What the encoder of DNS names puts on the wire, position by position, and which names it takes,
  said of the characters of the name alone.
*/
module DnsWire {
  import opened Basics
  import opened DnsName

  /** The open label is what follows the last dot. */
  lemma {:induction false} OpenIs(name: seq<byte>)
    ensures Open(name) <= |name| && forall j :: |name| - Open(name) <= j < |name| ==> name[j] != DOT
    ensures Open(name) < |name| ==> name[|name| - Open(name) - 1] == DOT
    decreases |name|
  {
    if name != [] {
      var init, c := name[..|name| - 1], name[|name| - 1];
      OpenIs(init);
      LabelsStep(init, c);
      assert name == init + [c];
    }
  }

  /** The characters from p to p + n lie between two dots or ends. */
  ghost predicate Segment(name: seq<byte>, p: nat, n: nat) {
    && p + n <= |name| && (forall j :: p <= j < p + n ==> name[j] != DOT)
    && (p == 0 || name[p - 1] == DOT) && (p + n == |name| || name[p + n] == DOT)
  }

  /** The last segment is the open label, and an earlier one ends before it. */
  lemma SegmentAndOpen(name: seq<byte>, p: nat, n: nat)
    requires Segment(name, p, n)
    ensures if p + n == |name| then n == Open(name) else p + n + 1 <= |name| - Open(name)
  {
    OpenIs(name);
  }

  /** The encoding is the finished labels, a length and the open label. */
  lemma EncodeWhole(name: seq<byte>)
    requires Short(Labels(name), 255)
    ensures var o := Open(name);
            && o <= 255 && o <= |name| && Short(Done(name), 255) && |Encode(Done(name))| == |name| - o
            && Encode(Labels(name)) == Encode(Done(name)) + [o as byte] + name[|name| - o..]
  {
    EncodedLength(name);
    Snoc(Labels(name));
    EncodeLast(Done(name), Labels(name)[|Labels(name)| - 1]);
  }

  /** A segment is in its place in an encoding. */
  ghost predicate Placed(e: seq<byte>, name: seq<byte>, p: nat, n: nat) {
    && p + n <= |name| && p + n + 1 <= |e| && e[p] == n
    && forall j :: p <= j < p + n ==> e[j + 1] == name[j]
  }

  lemma PlacedInLonger(e: seq<byte>, more: seq<byte>, init: seq<byte>, c: seq<byte>, p: nat, n: nat)
    requires Placed(e, init, p, n)
    ensures Placed(e + more, init + c, p, n)
  {}

  /** The open label, behind its length. */
  lemma OpenPlaced(name: seq<byte>)
    requires Short(Labels(name), 255)
    ensures Open(name) <= |name| && |Encode(Labels(name))| == |name| + 1
    ensures Placed(Encode(Labels(name)), name, |name| - Open(name), Open(name))
  {
    EncodeWhole(name);
  }

  /** A segment that a dot follows is in its place among the finished labels. */
  lemma {:induction false} DonePlaced(name: seq<byte>, p: nat, n: nat)
    requires Short(Done(name), 255) && Segment(name, p, n) && p + n < |name|
    ensures Placed(Encode(Done(name)), name, p, n)
    decreases |name|
  {
    var init, c := name[..|name| - 1], name[|name| - 1];
    assert name == init + [c];
    LabelsStep(init, c);
    if c == DOT {
      EncodeWhole(init);
      if p + n < |init| {
        DonePlaced(init, p, n);
        PlacedInLonger(Encode(Done(init)), [Open(init) as byte] + init[|init| - Open(init)..], init, [c], p, n);
        assert Encode(Done(name)) ==
               Encode(Done(init)) + ([Open(init) as byte] + init[|init| - Open(init)..]);
      } else {
        SegmentAndOpen(init, p, n);
        OpenPlaced(init);
        PlacedInLonger(Encode(Labels(init)), [], init, [c], p, n);
        assert Encode(Labels(init)) + [] == Encode(Done(name));
      }
    } else {
      DonePlaced(init, p, n);
      PlacedInLonger(Encode(Done(init)), [], init, [c], p, n);
      assert Encode(Done(init)) + [] == Encode(Done(name));
    }
  }

  /**
    For every name that is encoded: where a segment of the name begins, the wire has the length of
    the segment, and its characters follow; a zero byte ends it.
  */
  lemma WireAt(name: seq<byte>, p: nat, n: nat)
    requires Encodable(name) && Segment(name, p, n)
    ensures |OnWire(name)| == |name| + 2 && OnWire(name)[|name| + 1] == 0
    ensures OnWire(name)[p] == n && forall j :: p <= j < p + n ==> OnWire(name)[j + 1] == name[j]
  {
    SegmentAndOpen(name, p, n);
    EncodeWhole(name);
    OpenPlaced(name);
    if p + n < |name| { DonePlaced(name, p, n); }
  }

  /** 65 characters from i on without a dot. */
  ghost predicate LongRun(name: seq<byte>, i: nat) {
    i + 65 <= |name| && forall j :: i <= j < i + 65 ==> name[j] != DOT
  }

  lemma EncodableStep(init: seq<byte>, c: byte)
    ensures Encodable(init + [c]) <==> Encodable(init) && Open(init + [c]) <= 64
  {
    LabelsStep(init, c);
    LastIsOpen(init);
    LastIsOpen(init + [c]);
  }

  lemma LastIsOpen(name: seq<byte>)
    ensures Encodable(name) <==> Short(Done(name), 64) && Open(name) <= 64
  {
    var labels := Labels(name);
    assert forall i :: 0 <= i < |labels| - 1 ==> Done(name)[i] == labels[i];
  }

  lemma RunAtEnd(name: seq<byte>)
    requires |name| >= 65
    ensures LongRun(name, |name| - 65) <==> Open(name) > 64
  {
    OpenIs(name);
  }

  /** A name is encoded exactly if no 65 characters in a row are free of dots. */
  lemma {:induction false} EncodableIff(name: seq<byte>)
    ensures Encodable(name) <==> forall i: nat :: !LongRun(name, i)
    decreases |name|
  {
    if name != [] {
      var init, c := name[..|name| - 1], name[|name| - 1];
      assert name == init + [c];
      EncodableIff(init);
      EncodableStep(init, c);
      OpenIs(name);
      if |name| >= 65 { RunAtEnd(name); }
      forall i: nat ensures LongRun(name, i) <==> LongRun(init, i) || (i + 65 == |name| && Open(name) > 64) {}
    }
  }
}

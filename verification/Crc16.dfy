/**
  The CRC-16 of the data transfer protocol (src/ndsl/net/DTP.cc).

  The program reflects every input byte, runs an MSB-first shift register with polynomial
  0x1021, and reflects the result.  This module is the specification: polynomial division by
  x^16 + x^12 + x^5 + 1 (section 2 of ITU-T Recommendation V.41), a shift register on bits that
  computes its remainder, and the error patterns such a checksum is sure to detect.

  Bits are taken low-first in each byte, and bit strings hold the highest power of x first.
*/
module Crc16 {

  type Bits = seq<bool>

  function Zeros(n: nat): (s: Bits)
    ensures |s| == n && forall i :: 0 <= i < n ==> !s[i]
  {
    seq(n, i => false)
  }

  function Xor(a: Bits, b: Bits): (s: Bits)
    requires |a| == |b|
    ensures |s| == |a| && forall i :: 0 <= i < |a| ==> s[i] == (a[i] != b[i])
  {
    seq(|a|, i requires 0 <= i < |a| => a[i] != b[i])
  }

  // ---------------------------------------------------------------- polynomial division

  /** x^15 ... x^0 of the generator; the leading x^16 is implicit. */
  const GENERATOR: Bits :=
    [false, false, false, true, false, false, false, false,
     false, false, true, false, false, false, false, true]

  /** Adds x^(|d|-17) times the generator to d when b holds. */
  function AddGenerator(b: bool, d: Bits): (s: Bits)
    requires |d| >= 17
    ensures |s| == |d|
  {
    if b then [!d[0]] + Xor(d[1..17], GENERATOR) + d[17..] else d
  }

  /** Schoolbook long division: the remainder of d by the generator. */
  function Remainder(d: Bits): (r: Bits)
    requires |d| >= 16
    ensures |r| == 16
    decreases |d|
  {
    if |d| == 16 then d else Remainder(AddGenerator(d[0], d)[1..])
  }

  function Quotient(d: Bits): (q: Bits)
    requires |d| >= 16
    ensures |q| == |d| - 16
    decreases |d|
  {
    if |d| == 16 then [] else [d[0]] + Quotient(AddGenerator(d[0], d)[1..])
  }

  /** q times the generator, plus r. */
  function Product(q: Bits, r: Bits): (d: Bits)
    requires |r| == 16
    ensures |d| == |q| + 16
  {
    if q == [] then r else AddGenerator(q[0], [false] + Product(q[1..], r))
  }

  lemma AddGeneratorTwice(b: bool, d: Bits)
    requires |d| >= 17
    ensures AddGenerator(b, AddGenerator(b, d)) == d
    ensures b == d[0] ==> !AddGenerator(b, d)[0]
  {
    if b {
      var s := AddGenerator(b, d);
      assert s[1..17] == Xor(d[1..17], GENERATOR);
      assert s[17..] == d[17..];
      assert AddGenerator(b, s) == d;
    }
  }

  /** Division is exact: d = quotient * generator + remainder. */
  lemma {:induction false} DivisionExists(d: Bits)
    requires |d| >= 16
    ensures d == Product(Quotient(d), Remainder(d))
    decreases |d|
  {
    if |d| > 16 {
      var s := AddGenerator(d[0], d);
      AddGeneratorTwice(d[0], d);
      DivisionExists(s[1..]);
      assert Quotient(d)[1..] == Quotient(s[1..]);
      assert [false] + s[1..] == s;
    }
  }

  /** Quotient and remainder are the only ones. */
  lemma {:induction false} DivisionUnique(q: Bits, r: Bits)
    requires |r| == 16
    ensures Remainder(Product(q, r)) == r && Quotient(Product(q, r)) == q
    decreases |q|
  {
    if q != [] {
      var e := [false] + Product(q[1..], r);
      var d := AddGenerator(q[0], e);
      AddGeneratorTwice(q[0], e);
      assert d[0] == q[0];
      assert AddGenerator(d[0], d)[1..] == Product(q[1..], r);
      DivisionUnique(q[1..], r);
    }
  }

  // ---------------------------------------------------------------- the shift register

  /** One step of the register, highest power first. */
  function Step(r: Bits): (s: Bits)
    requires |r| == 16
    ensures |s| == 16
  {
    if r[0] then Xor(r[1..] + [false], GENERATOR) else r[1..] + [false]
  }

  function Steps(r: Bits, n: nat): (s: Bits)
    requires |r| == 16
    ensures |s| == 16
    decreases n
  {
    if n == 0 then r else Steps(Step(r), n - 1)
  }

  /** One message bit enters at the highest power. */
  function FeedBit(r: Bits, b: bool): (s: Bits)
    requires |r| == 16
    ensures |s| == 16
  {
    Step([r[0] != b] + r[1..])
  }

  function Feed(r: Bits, bits: Bits): (s: Bits)
    requires |r| == 16
    ensures |s| == 16
    decreases |bits|
  {
    if bits == [] then r else Feed(FeedBit(r, bits[0]), bits[1..])
  }

  lemma {:induction false} FeedConcat(r: Bits, a: Bits, b: Bits)
    requires |r| == 16
    ensures Feed(r, a + b) == Feed(Feed(r, a), b)
    decreases |a|
  {
    if a == [] {
      assert a + b == b;
    } else {
      assert (a + b)[1..] == a[1..] + b;
      FeedConcat(FeedBit(r, a[0]), a[1..], b);
    }
  }

  /** The dividend left when the register holds r and the bits are still to come. */
  function Dividend(r: Bits, bits: Bits): (d: Bits)
    requires |r| == 16
    ensures |d| == |bits| + 16
  {
    var m := bits + Zeros(16);
    Xor(r, m[..16]) + m[16..]
  }

  lemma DividendStep(r: Bits, bits: Bits)
    requires |r| == 16 && bits != []
    ensures AddGenerator(Dividend(r, bits)[0], Dividend(r, bits))[1..] == Dividend(FeedBit(r, bits[0]), bits[1..])
  {
    var d := Dividend(r, bits);
    var m := bits + Zeros(16);
    assert bits[1..] + Zeros(16) == m[1..];
    var x := AddGenerator(d[0], d)[1..];
    var y := Dividend(FeedBit(r, bits[0]), bits[1..]);
    forall i | 0 <= i < |y| ensures x[i] == y[i] {
      assert d[i + 1] == if i < 15 then r[i + 1] != m[i + 1] else m[i + 1];
    }
  }

  /** The register computes the remainder of the bits times x^16. */
  lemma {:induction false} FeedIsRemainder(r: Bits, bits: Bits)
    requires |r| == 16
    ensures Feed(r, bits) == Remainder(Dividend(r, bits))
    decreases |bits|
  {
    if bits == [] {
      assert Dividend(r, bits) == r;
    } else {
      DividendStep(r, bits);
      FeedIsRemainder(FeedBit(r, bits[0]), bits[1..]);
    }
  }

  lemma FeedFromZero(bits: Bits)
    ensures Feed(Zeros(16), bits) == Remainder(bits + Zeros(16))
  {
    FeedIsRemainder(Zeros(16), bits);
    assert Dividend(Zeros(16), bits) == bits + Zeros(16);
  }

  /** Up to 16 bits fed one by one are the same as XORing them in at once and then stepping. */
  lemma {:induction false} FeedIsXorSteps(r: Bits, bits: Bits)
    requires |r| == 16 && |bits| <= 16
    ensures Feed(r, bits) == Steps(Xor(r, bits + Zeros(16 - |bits|)), |bits|)
    decreases |bits|
  {
    if bits == [] {
      assert Xor(r, bits + Zeros(16)) == r;
    } else {
      var x := Xor(r, bits + Zeros(16 - |bits|));
      var y := Xor(FeedBit(r, bits[0]), bits[1..] + Zeros(17 - |bits|));
      assert Step(x) == y;
      FeedIsXorSteps(FeedBit(r, bits[0]), bits[1..]);
    }
  }

  // ---------------------------------------------------------------- linearity, injectivity, parity

  lemma FeedBitLinear(r: Bits, s: Bits, x: bool, y: bool)
    requires |r| == |s| == 16
    ensures FeedBit(Xor(r, s), x != y) == Xor(FeedBit(r, x), FeedBit(s, y))
  {}

  /** The register is linear over XOR for bit strings of equal length. */
  lemma {:induction false} FeedLinear(r: Bits, s: Bits, a: Bits, b: Bits)
    requires |r| == |s| == 16 && |a| == |b|
    ensures Feed(Xor(r, s), Xor(a, b)) == Xor(Feed(r, a), Feed(s, b))
    decreases |a|
  {
    if a != [] {
      assert Xor(a, b)[1..] == Xor(a[1..], b[1..]);
      FeedBitLinear(r, s, a[0], b[0]);
      FeedLinear(FeedBit(r, a[0]), FeedBit(s, b[0]), a[1..], b[1..]);
    }
  }

  ghost predicate AllZero(s: Bits) {
    forall i :: 0 <= i < |s| ==> !s[i]
  }

  lemma StepKeepsNonZero(r: Bits)
    requires |r| == 16
    ensures AllZero(Step(r)) <==> AllZero(r)
  {
    var s := Step(r);
    assert s[15] == r[0];
    forall i | 0 <= i < 15 && !r[0] ensures s[i] == r[i + 1] {}
    if AllZero(s) {
      forall i | 0 <= i < 16 ensures !r[i] {
        if i > 0 { assert !s[i - 1]; }
      }
    }
  }

  lemma {:induction false} StepsKeepNonZero(r: Bits, n: nat)
    requires |r| == 16
    ensures AllZero(Steps(r, n)) <==> AllZero(r)
    decreases n
  {
    if n > 0 {
      StepKeepsNonZero(r);
      StepsKeepNonZero(Step(r), n - 1);
    }
  }

  lemma {:induction false} FeedZeros(r: Bits, bits: Bits)
    requires |r| == 16 && AllZero(bits)
    ensures AllZero(Feed(r, bits)) <==> AllZero(r)
    decreases |bits|
  {
    if bits != [] {
      assert [r[0] != bits[0]] + r[1..] == r;
      StepKeepsNonZero(r);
      FeedZeros(Step(r), bits[1..]);
    }
  }

  /** Whether an odd number of bits is set. */
  function OddWeight(bits: Bits): bool {
    bits != [] && bits[0] != OddWeight(bits[1..])
  }

  lemma {:induction false} OddWeightXor(a: Bits, b: Bits)
    requires |a| == |b|
    ensures OddWeight(Xor(a, b)) == (OddWeight(a) != OddWeight(b))
    decreases |a|
  {
    if a != [] {
      assert Xor(a, b)[1..] == Xor(a[1..], b[1..]);
      OddWeightXor(a[1..], b[1..]);
    }
  }

  lemma {:induction false} OddWeightConcat(a: Bits, b: Bits)
    ensures OddWeight(a + b) == (OddWeight(a) != OddWeight(b))
    decreases |a|
  {
    if a == [] {
      assert a + b == b;
    } else {
      assert (a + b)[1..] == a[1..] + b;
      OddWeightConcat(a[1..], b);
    }
  }

  lemma {:induction false} OddWeightZero(a: Bits)
    requires AllZero(a)
    ensures !OddWeight(a)
    decreases |a|
  {
    if a != [] { OddWeightZero(a[1..]); }
  }

  lemma OddWeightGenerator()
    ensures OddWeight(GENERATOR)
  {
    var one := [true];
    assert GENERATOR == Zeros(3) + (one + (Zeros(6) + (one + (Zeros(4) + one))));
    OddWeightZero(Zeros(3));
    OddWeightZero(Zeros(6));
    OddWeightZero(Zeros(4));
    OddWeightConcat(Zeros(3), one + (Zeros(6) + (one + (Zeros(4) + one))));
    OddWeightConcat(one, Zeros(6) + (one + (Zeros(4) + one)));
    OddWeightConcat(Zeros(6), one + (Zeros(4) + one));
    OddWeightConcat(one, Zeros(4) + one);
    OddWeightConcat(Zeros(4), one);
  }

  /** x + 1 divides the generator, so the register keeps track of parity. */
  lemma OddWeightFeedBit(r: Bits, b: bool)
    requires |r| == 16
    ensures OddWeight(FeedBit(r, b)) == (OddWeight(r) != b)
  {
    var x := [r[0] != b] + r[1..];
    assert x[1..] == r[1..];
    OddWeightConcat(x[1..], [false]);
    OddWeightXor(x[1..] + [false], GENERATOR);
    OddWeightGenerator();
  }

  lemma {:induction false} FeedParity(r: Bits, bits: Bits)
    requires |r| == 16
    ensures OddWeight(Feed(r, bits)) == (OddWeight(r) != OddWeight(bits))
    decreases |bits|
  {
    if bits != [] {
      OddWeightFeedBit(r, bits[0]);
      FeedParity(FeedBit(r, bits[0]), bits[1..]);
    }
  }

  // ---------------------------------------------------------------- what a checksum detects

  /** All set bits of e lie in the 16 positions from i on. */
  ghost predicate BurstAt(e: Bits, i: nat) {
    forall k :: 0 <= k < |e| && e[k] ==> i <= k < i + 16
  }

  /** At most 16 bits, not all zero, leave a nonzero register. */
  lemma WindowNonZero(w: Bits)
    requires |w| <= 16 && !AllZero(w)
    ensures !AllZero(Feed(Zeros(16), w))
  {
    FeedIsXorSteps(Zeros(16), w);
    var k :| 0 <= k < |w| && w[k];
    var x := Xor(Zeros(16), w + Zeros(16 - |w|));
    assert x[k];
    StepsKeepNonZero(x, |w|);
  }

  /** Zeros before and after do not matter. */
  lemma PaddedNonZero(a: Bits, w: Bits, b: Bits)
    requires AllZero(a) && AllZero(b)
    ensures AllZero(Feed(Zeros(16), a + (w + b))) <==> AllZero(Feed(Zeros(16), w))
  {
    FeedConcat(Zeros(16), a, w + b);
    FeedZeros(Zeros(16), a);
    assert Feed(Zeros(16), a) == Zeros(16);
    FeedConcat(Zeros(16), w, b);
    FeedZeros(Feed(Zeros(16), w), b);
  }

  lemma BurstNonZero(e: Bits, i: nat)
    requires !AllZero(e) && BurstAt(e, i)
    ensures !AllZero(Feed(Zeros(16), e))
  {
    var k :| 0 <= k < |e| && e[k];
    var j := if i + 16 <= |e| then i + 16 else |e|;
    var a, w, b := e[..i], e[i..j], e[j..];
    assert w[k - i];
    assert e == a + (w + b);
    WindowNonZero(w);
    PaddedNonZero(a, w, b);
  }

  lemma DifferenceNonZero(a: Bits, b: Bits)
    requires |a| == |b|
    ensures AllZero(Xor(a, b)) <==> a == b
  {
    if AllZero(Xor(a, b)) {
      forall i | 0 <= i < |a| ensures a[i] == b[i] { assert !Xor(a, b)[i]; }
    }
  }

  lemma FeedDifference(a: Bits, b: Bits)
    requires |a| == |b|
    ensures Feed(Zeros(16), Xor(a, b)) == Xor(Feed(Zeros(16), a), Feed(Zeros(16), b))
  {
    FeedLinear(Zeros(16), Zeros(16), a, b);
    assert Xor(Zeros(16), Zeros(16)) == Zeros(16);
  }

  /** Every error confined to 16 consecutive bits changes the remainder, at any length. */
  lemma BurstDetected(a: Bits, b: Bits, i: nat)
    requires |a| == |b| && a != b && BurstAt(Xor(a, b), i)
    ensures Remainder(a + Zeros(16)) != Remainder(b + Zeros(16))
  {
    DifferenceNonZero(a, b);
    BurstNonZero(Xor(a, b), i);
    FeedDifference(a, b);
    DifferenceNonZero(Feed(Zeros(16), a), Feed(Zeros(16), b));
    FeedFromZero(a);
    FeedFromZero(b);
  }

  /** Every error that flips an odd number of bits changes the remainder. */
  lemma OddErrorDetected(a: Bits, b: Bits)
    requires |a| == |b| && OddWeight(Xor(a, b))
    ensures Remainder(a + Zeros(16)) != Remainder(b + Zeros(16))
  {
    OddWeightZero(Zeros(16));
    FeedParity(Zeros(16), a);
    FeedParity(Zeros(16), b);
    OddWeightXor(a, b);
    FeedFromZero(a);
    FeedFromZero(b);
  }

  /** An error is missed exactly when its pattern, times x^16, is a multiple of the generator. */
  lemma MissedIffMultiple(a: Bits, b: Bits)
    requires |a| == |b|
    ensures Remainder(a + Zeros(16)) == Remainder(b + Zeros(16)) <==>
            exists q: Bits :: Xor(a, b) + Zeros(16) == Product(q, Zeros(16))
  {
    var d := Xor(a, b) + Zeros(16);
    FeedDifference(a, b);
    FeedFromZero(a);
    FeedFromZero(b);
    FeedFromZero(Xor(a, b));
    DifferenceNonZero(Feed(Zeros(16), a), Feed(Zeros(16), b));
    assert AllZero(Remainder(d)) <==> Remainder(d) == Zeros(16);
    DivisionExists(d);
    forall q: Bits | d == Product(q, Zeros(16)) ensures Remainder(d) == Zeros(16) {
      DivisionUnique(q, Zeros(16));
    }
  }
}

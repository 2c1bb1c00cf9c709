/**
  Globally unique ids (src/ndsl/utils/Guid.cc): 16 bytes, printed as 32 hexadecimal digits, and
  compared bit by bit from the highest one.
*/
module Guid {
  import opened Basics

  const SIZE := 16

  /** The 128-bit number, highest byte first. */
  ghost function Number(g: seq<byte>): nat
    decreases |g|
  {
    if g == [] then 0
    else
      var low: int := g[|g| - 1];
      256 * Number(g[..|g| - 1]) + low
  }

  /** The first byte in which two ids differ decides which number is smaller. */
  lemma {:induction false} FirstDifferenceDecides(a: seq<byte>, b: seq<byte>, k: nat)
    requires |a| == |b| && k < |a| && a[..k] == b[..k] && a[k] < b[k]
    ensures Number(a) < Number(b)
    decreases |a|
  {
    var n := |a| - 1;
    if k < n {
      assert a[..n][..k] == b[..n][..k];
      FirstDifferenceDecides(a[..n], b[..n], k);
    } else {
      assert a[..n] == b[..n];
    }
  }

  lemma FirstDifference(a: seq<byte>, b: seq<byte>) returns (k: nat)
    requires |a| == |b| && a != b
    ensures k < |a| && a[..k] == b[..k] && a[k] != b[k]
  {
    k := 0;
    while a[k] == b[k]
      invariant k < |a| && a[..k] == b[..k]
      invariant exists j :: k <= j < |a| && a[j] != b[j]
      decreases |a| - k
    {
      k := k + 1;
    }
  }

  /** Different ids have different numbers, so the order of the numbers is total on ids. */
  lemma {:induction false} NumberIsInjective(a: seq<byte>, b: seq<byte>)
    requires |a| == |b|
    ensures Number(a) == Number(b) <==> a == b
  {
    if a != b {
      var k := FirstDifference(a, b);
      if a[k] < b[k] { FirstDifferenceDecides(a, b, k); } else { FirstDifferenceDecides(b, a, k); }
    }
  }

  /** A byte masked with one bit: b & n. */
  function Masked(b: byte, n: nat): nat
    requires n > 0
  {
    if b as int / n % 2 == 1 then n else 0
  }

  /** The mask for bit j of a byte, counted from the highest. */
  function Mask(j: nat): (n: nat)
    requires j < 8
    ensures n > 0
    decreases 8 - j
  {
    if j == 7 then 1 else 2 * Mask(j + 1)
  }

  /** Two bytes agree in their j highest bits. */
  ghost predicate TopEqual(x: nat, y: nat, j: nat)
    requires j <= 8
  {
    if j == 8 then x == y else x / (2 * Mask(j)) == y / (2 * Mask(j))
  }

  /** One more bit of two bytes that agree in the bits above it. */
  lemma NextBit(x: byte, y: byte, j: nat)
    requires j < 8 && TopEqual(x, y, j)
    ensures Masked(x, Mask(j)) == Masked(y, Mask(j)) ==> TopEqual(x, y, j + 1)
    ensures Masked(x, Mask(j)) < Masked(y, Mask(j)) ==> x < y
  {
    BitOf(x, y, Mask(j));
  }

  lemma BitOf(x: byte, y: byte, n: nat)
    requires n > 0 && x as int / (2 * n) == y as int / (2 * n)
    ensures Masked(x, n) == Masked(y, n) <==> x as int / n == y as int / n
    ensures Masked(x, n) < Masked(y, n) ==> x < y
  {
    DivTwice(x, n);
    DivTwice(y, n);
    var p: int, q: int := x as int / n, y as int / n;
    assert p == 2 * (p / 2) + p % 2 && q == 2 * (q / 2) + q % 2;
    if p < q { SmallerQuotient(x, y, n); }
  }

  lemma DivTwice(x: nat, n: nat)
    requires n > 0
    ensures x / n / 2 == x / (2 * n)
  {
    var q, r := x / n, x % n;
    assert x == n * q + r;
    var h, l := q / 2, q % 2;
    assert x == 2 * n * h + (n * l + r);
    assert 0 <= n * l + r < 2 * n;
    Quotient(x, 2 * n, h, n * l + r);
  }

  lemma SmallerQuotient(x: nat, y: nat, n: nat)
    requires n > 0 && x / n < y / n
    ensures x < y
  {
    assert x == n * (x / n) + x % n && y == n * (y / n) + y % n;
    assert n * (x / n + 1) <= n * (y / n);
  }

  /** The hexadecimal digit for a number below 16. */
  function Digit(d: nat): char
    requires d < 16
  {
    if d < 10 then (48 + d) as char else (55 + d) as char
  }

  /** The number of a hexadecimal digit, in either case. */
  function DigitValue(c: char): (d: Option<nat>)
    ensures d.Some? ==> d.value < 16
  {
    if '0' <= c <= '9' then Some(c as int - 48)
    else if 'A' <= c <= 'F' then Some(c as int - 55)
    else if 'a' <= c <= 'f' then Some(c as int - 87)
    else None
  }

  const UPPER := "0123456789ABCDEF"
  const LOWER := "0123456789abcdef"

  /** The digits printed are those of UPPER, each in its place. */
  lemma DigitIs(d: nat)
    requires d < 16
    ensures Digit(d) == UPPER[d]
  {
    assert d in {0, 1, 2, 3, 4, 5, 6, 7, 8, 9, 10, 11, 12, 13, 14, 15};
  }

  /** A character reads as d exactly if it is the digit for d in either case. */
  lemma ReadsAs(c: char, d: nat)
    requires d < 16
    ensures DigitValue(c) == Some(d) <==> c == UPPER[d] || c == LOWER[d]
  {
    assert d in {0, 1, 2, 3, 4, 5, 6, 7, 8, 9, 10, 11, 12, 13, 14, 15};
  }

  /** So the characters that read as digits are these 22. */
  lemma DigitChars(c: char)
    ensures DigitValue(c).Some? <==> c in "0123456789ABCDEFabcdef"
  {
    var all := "0123456789ABCDEFabcdef";
    assert all == "0123456789ABCDEF" + "abcdef" && LOWER == "0123456789" + "abcdef";
    if DigitValue(c).Some? {
      var d := DigitValue(c).value;
      ReadsAs(c, d);
      assert c == UPPER[d] ==> all[d] == c;
      assert c != UPPER[d] ==> d >= 10 && all[d + 6] == c;
    }
    if c in all {
      var i :| 0 <= i < |all| && all[i] == c;
      var d := if i < 16 then i else i - 6;
      ReadsAs(c, d);
    }
  }

  function Upper(c: char): char {
    if 'a' <= c <= 'z' then (c as int - 32) as char else c
  }

  /** The two digits of each byte in turn. */
  ghost function Text(g: seq<byte>): (s: string)
    ensures |s| == 2 * |g|
    decreases |g|
  {
    if g == [] then []
    else
      var last := g[|g| - 1];
      Text(g[..|g| - 1]) + [Digit(last / 16), Digit(last % 16)]
  }

  lemma {:induction false} TextAt(g: seq<byte>, k: nat)
    requires k < |g|
    ensures Text(g)[2 * k] == Digit(g[k] / 16) && Text(g)[2 * k + 1] == Digit(g[k] % 16)
    decreases |g|
  {
    if k < |g| - 1 { TextAt(g[..|g| - 1], k); }
  }

  lemma {:induction false} TextOfPrefix(g: seq<byte>, k: nat)
    requires k <= |g|
    ensures Text(g[..k]) == Text(g)[..2 * k]
    decreases |g|
  {
    if k < |g| {
      var init := g[..|g| - 1];
      TextOfPrefix(init, k);
      assert init[..k] == g[..k];
    } else {
      assert g[..k] == g;
    }
  }

  /** A C string ends with a character that is not a digit. */
  function CharAt(s: string, i: nat): char {
    if i < |s| then s[i] else 0 as char
  }

  /** The first 32 characters are digits. */
  ghost predicate IsText(s: string) {
    forall i :: 0 <= i < 2 * SIZE ==> DigitValue(CharAt(s, i)).Some?
  }

  /** The bytes that a text stands for. */
  ghost function Parsed(s: string): (g: seq<byte>)
    requires IsText(s)
    ensures |g| == SIZE
  {
    seq(SIZE, i requires 0 <= i < SIZE =>
      16 * DigitValue(CharAt(s, 2 * i)).value + DigitValue(CharAt(s, 2 * i + 1)).value)
  }

  /** Parsing inverts printing. */
  lemma ParsePrinted(g: seq<byte>, rest: string)
    requires |g| == SIZE
    ensures IsText(Text(g) + rest) && Parsed(Text(g) + rest) == g
  {
    var s := Text(g) + rest;
    forall i | 0 <= i < 2 * SIZE ensures DigitValue(CharAt(s, i)).Some? {
      TextAt(g, i / 2);
      assert i == 2 * (i / 2) || i == 2 * (i / 2) + 1;
    }
    forall i | 0 <= i < SIZE ensures Parsed(s)[i] == g[i] {
      TextAt(g, i);
    }
  }

  /** Printing inverts parsing, up to the case of the letters. */
  lemma PrintParsed(s: string)
    requires IsText(s)
    ensures forall i :: 0 <= i < 2 * SIZE ==> Text(Parsed(s))[i] == Upper(CharAt(s, i))
  {
    var g := Parsed(s);
    forall i | 0 <= i < 2 * SIZE ensures Text(g)[i] == Upper(CharAt(s, i)) {
      var k := i / 2;
      TextAt(g, k);
      var hi, lo := DigitValue(CharAt(s, 2 * k)).value, DigitValue(CharAt(s, 2 * k + 1)).value;
      assert g[k] == 16 * hi + lo && g[k] / 16 == hi && g[k] % 16 == lo;
      assert i == 2 * k || i == 2 * k + 1;
    }
  }

  /** A string is read exactly if its first 32 characters are digits of either case. */
  lemma TextIff(s: string)
    ensures IsText(s) <==> |s| >= 32 && forall i :: 0 <= i < 32 ==> s[i] in "0123456789ABCDEFabcdef"
  {
    forall i | 0 <= i < 32 ensures DigitValue(CharAt(s, i)).Some? <==> i < |s| && s[i] in "0123456789ABCDEFabcdef" {
      if i < |s| { DigitChars(s[i]); }
    }
    if IsText(s) { assert DigitValue(CharAt(s, 31)).Some?; }
  }

  /** Any of the digits of an id may be in lower case. */
  lemma ParseEitherCase(g: seq<byte>, s: string)
    requires |g| == SIZE && |s| >= 2 * SIZE
    requires forall i :: 0 <= i < SIZE ==> s[2 * i] in {UPPER[g[i] / 16], LOWER[g[i] / 16]}
    requires forall i :: 0 <= i < SIZE ==> s[2 * i + 1] in {UPPER[g[i] % 16], LOWER[g[i] % 16]}
    ensures IsText(s) && Parsed(s) == g
  {
    forall i | 0 <= i < SIZE
      ensures DigitValue(CharAt(s, 2 * i)) == Some(g[i] / 16) && DigitValue(CharAt(s, 2 * i + 1)) == Some(g[i] % 16)
    {
      ReadsAs(s[2 * i], g[i] / 16);
      ReadsAs(s[2 * i + 1], g[i] % 16);
    }
    forall i | 0 <= i < 2 * SIZE ensures DigitValue(CharAt(s, i)).Some? {
      var k := i / 2;
      ReadsAs(s[2 * k], g[k] / 16);
      ReadsAs(s[2 * k + 1], g[k] % 16);
      assert i == 2 * k || i == 2 * k + 1;
    }
  }

  /** What is printed, byte by byte. */
  lemma PrintedDigits(g: seq<byte>, i: nat)
    requires i < |g|
    ensures Text(g)[2 * i] == UPPER[g[i] / 16] && Text(g)[2 * i + 1] == UPPER[g[i] % 16]
  {
    TextAt(g, i);
    DigitIs(g[i] / 16);
    DigitIs(g[i] % 16);
  }

  /** Texts compare as C strings do: by the first character in which they differ. */
  ghost predicate Before(s: string, t: string) {
    exists k :: 0 <= k < |s| && k < |t| && s[..k] == t[..k] && s[k] < t[k]
  }

  /** Printing keeps the order: texts of ids compare as their numbers do. */
  lemma PrintingKeepsOrder(a: seq<byte>, b: seq<byte>)
    requires |a| == |b| == SIZE
    ensures Before(Text(a), Text(b)) <==> Number(a) < Number(b)
  {
    NumberIsInjective(a, b);
    if a != b {
      var k := FirstDifference(a, b);
      if a[k] < b[k] {
        FirstDifferenceDecides(a, b, k);
        SmallerText(a, b, k);
      } else {
        FirstDifferenceDecides(b, a, k);
        SmallerText(b, a, k);
        BeforeIsAsymmetric(Text(a), Text(b));
      }
    }
  }

  lemma BeforeIsAsymmetric(s: string, t: string)
    requires Before(t, s)
    ensures !Before(s, t)
  {
    var j :| 0 <= j < |s| && j < |t| && t[..j] == s[..j] && t[j] < s[j];
    forall k | 0 <= k < |s| && k < |t| && s[..k] == t[..k] ensures !(s[k] < t[k]) {
      if j < k { SamePrefix(s, t, k, j); }
      if k < j { SamePrefix(s, t, j, k); }
    }
  }

  lemma SamePrefix(s: string, t: string, k: nat, j: nat)
    requires j < k <= |s| && k <= |t| && s[..k] == t[..k]
    ensures s[j] == t[j]
  {
    assert s[..k][j] == t[..k][j];
  }

  lemma DecidedAt(s: string, t: string, k: nat)
    requires k < |s| && k < |t| && s[..k] == t[..k] && s[k] < t[k]
    ensures Before(s, t)
  {
  }

  lemma LongerPrefix(s: string, t: string, k: nat)
    requires k < |s| && k < |t| && s[..k] == t[..k] && s[k] == t[k]
    ensures s[..k + 1] == t[..k + 1]
  {
    assert s[..k + 1] == s[..k] + [s[k]] && t[..k + 1] == t[..k] + [t[k]];
  }

  lemma SmallerText(a: seq<byte>, b: seq<byte>, k: nat)
    requires |a| == |b| && k < |a| && a[..k] == b[..k] && a[k] < b[k]
    ensures Before(Text(a), Text(b))
  {
    TextAt(a, k);
    TextAt(b, k);
    TextOfPrefix(a, k);
    TextOfPrefix(b, k);
    SmallerDigits(Text(a), Text(b), 2 * k, a[k], b[k]);
  }

  lemma SmallerDigits(s: string, t: string, k: nat, x: byte, y: byte)
    requires k + 1 < |s| == |t| && s[..k] == t[..k] && x < y
    requires s[k] == Digit(x / 16) && s[k + 1] == Digit(x % 16) && t[k] == Digit(y / 16) && t[k + 1] == Digit(y % 16)
    ensures Before(s, t)
  {
    if x / 16 == y / 16 {
      LongerPrefix(s, t, k);
      DecidedAt(s, t, k + 1);
    } else {
      DecidedAt(s, t, k);
    }
  }

  /** Reads 32 digits, or stops at the first character that is not one. */
  method ReadDigits(str: string) returns (ok: bool, tmp: seq<nat>)
    ensures ok <==> IsText(str)
    ensures ok <==> |str| >= 32 && forall i :: 0 <= i < 32 ==> str[i] in "0123456789ABCDEFabcdef"
    ensures ok ==> |tmp| == 2 * SIZE && forall j :: 0 <= j < 2 * SIZE ==> DigitValue(CharAt(str, j)) == Some(tmp[j])
  {
    TextIff(str);
    tmp := [];
    for i := 0 to 2 * SIZE
      invariant |tmp| == i && forall j :: 0 <= j < i ==> DigitValue(CharAt(str, j)) == Some(tmp[j])
    {
      match DigitValue(CharAt(str, i)) {
        case None => return false, [];
        case Some(d) => tmp := tmp + [d];
      }
    }
    ok := true;
  }

  class Guid {
    const gu: array<byte>

    constructor ()
      ensures fresh(gu) && gu.Length == SIZE
    {
      gu := new byte[SIZE](_ => 0);
    }

    /** Two digits at a time, each time with the zero character that ends a C string. */
    method ToString(str: array<char>) returns (ret: int)
      requires gu.Length == SIZE && str.Length >= 2 * SIZE + 1
      modifies str
      ensures ret == 0 && str[..2 * SIZE] == Text(gu[..]) && str[2 * SIZE] == 0 as char
      ensures str[2 * SIZE + 1..] == old(str[2 * SIZE + 1..])
    {
      var at := 0;
      for i := 0 to SIZE
        invariant at == 2 * i && str[..at] == Text(gu[..i])
        invariant i > 0 ==> str[at] == 0 as char
        invariant str[2 * SIZE + 1..] == old(str[2 * SIZE + 1..])
      {
        assert gu[..i + 1][..i] == gu[..i];
        str[at], str[at + 1], str[at + 2] := Digit(gu[i] / 16), Digit(gu[i] % 16), 0 as char;
        at := at + 2;
      }
      assert gu[..SIZE] == gu[..];
      ret := 0;
    }

    /** Any character that is not a digit ends the call before the id is touched. */
    method ToGuid(str: string) returns (ret: int)
      requires gu.Length == SIZE
      modifies gu
      ensures ret == if IsText(str) then 0 else -1
      ensures ret == 0 <==> |str| >= 32 && forall i :: 0 <= i < 32 ==> str[i] in "0123456789ABCDEFabcdef"
      ensures gu[..] == if IsText(str) then Parsed(str) else old(gu[..])
    {
      var ok, tmp := ReadDigits(str);
      if !ok { return -1; }
      for i := 0 to SIZE
        invariant forall j :: 0 <= j < i ==> gu[j] == Parsed(str)[j]
      {
        assert tmp[2 * i] < 16 && tmp[2 * i + 1] < 16;
        gu[i] := 16 * tmp[2 * i] + tmp[2 * i + 1];
      }
      ret := 0;
    }

    method Equals(other: Guid) returns (r: bool)
      requires gu.Length == SIZE == other.gu.Length
      ensures r <==> Number(gu[..]) == Number(other.gu[..])
      ensures r <==> gu[..] == other.gu[..]
    {
      NumberIsInjective(gu[..], other.gu[..]);
      for i := 0 to SIZE
        invariant gu[..i] == other.gu[..i]
      {
        if gu[i] != other.gu[i] {
          assert gu[..][i] != other.gu[..][i];
          return false;
        }
      }
      assert gu[..SIZE] == gu[..] && other.gu[..SIZE] == other.gu[..];
      return true;
    }

    method Less(other: Guid) returns (r: bool)
      requires gu.Length == SIZE == other.gu.Length
      ensures r <==> Number(gu[..]) < Number(other.gu[..])
    {
      var n := 128;
      assert Mask(0) == 128;
      for i := 0 to SIZE
        invariant n == 128 && gu[..i] == other.gu[..i]
      {
        for j := 0 to 8
          invariant n == (if j < 8 then Mask(j) else 0) && TopEqual(gu[i], other.gu[i], j)
        {
          NextBit(gu[i], other.gu[i], j);
          NextBit(other.gu[i], gu[i], j);
          if Masked(gu[i], n) < Masked(other.gu[i], n) {
            FirstDifferenceDecides(gu[..], other.gu[..], i);
            return true;
          } else if Masked(gu[i], n) > Masked(other.gu[i], n) {
            FirstDifferenceDecides(other.gu[..], gu[..], i);
            return false;
          } else {
            n := n / 2;
          }
        }
        n := 128;
      }
      assert gu[..SIZE] == gu[..] && other.gu[..SIZE] == other.gu[..];
      return false;
    }

    method Greater(other: Guid) returns (r: bool)
      requires gu.Length == SIZE == other.gu.Length
      ensures r <==> Number(gu[..]) > Number(other.gu[..])
    {
      var n := 128;
      assert Mask(0) == 128;
      for i := 0 to SIZE
        invariant n == 128 && gu[..i] == other.gu[..i]
      {
        for j := 0 to 8
          invariant n == (if j < 8 then Mask(j) else 0) && TopEqual(gu[i], other.gu[i], j)
        {
          NextBit(gu[i], other.gu[i], j);
          NextBit(other.gu[i], gu[i], j);
          if Masked(gu[i], n) > Masked(other.gu[i], n) {
            FirstDifferenceDecides(other.gu[..], gu[..], i);
            return true;
          } else if Masked(gu[i], n) < Masked(other.gu[i], n) {
            FirstDifferenceDecides(gu[..], other.gu[..], i);
            return false;
          } else {
            n := n / 2;
          }
        }
        n := 128;
      }
      assert gu[..SIZE] == gu[..] && other.gu[..SIZE] == other.gu[..];
      return false;
    }
  }
}

/** What several components share: a value that may be missing, bytes, and division. */
module Basics {
  datatype Option<T> = None | Some(value: T)

  type byte = b: int | 0 <= b < 256

  lemma Quotient(x: nat, m: nat, q: nat, r: nat)
    requires x == m * q + r && r < m
    ensures x / m == q && x % m == r
  {
    var d: int := x / m - q;
    assert m * d == r - x % m;
    assert d >= 1 ==> m * d >= m;
    assert d <= -1 ==> m * d <= 0 - m;
  }
}

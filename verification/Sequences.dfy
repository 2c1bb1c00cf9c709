/** Sequences: removing the first element of a kind, and joining words. */
module Sequences {

  /** Without the first element whose key is k. */
  function DropFirst<T, K(==)>(s: seq<T>, key: T -> K, k: K): (r: seq<T>)
    decreases |s|
  {
    if s == [] then [] else if key(s[0]) == k then s[1..] else [s[0]] + DropFirst(s[1..], key, k)
  }

  lemma {:induction false} DropFirstAt<T, K>(s: seq<T>, key: T -> K, k: K, i: nat)
    requires i < |s| && key(s[i]) == k && forall j :: 0 <= j < i ==> key(s[j]) != k
    ensures DropFirst(s, key, k) == s[..i] + s[i + 1..]
    decreases i
  {
    if i > 0 {
      var rest := s[1..];
      assert forall j :: 0 <= j < i - 1 ==> rest[j] == s[j + 1];
      DropFirstAt(rest, key, k, i - 1);
      assert s[..i] == [s[0]] + rest[..i - 1] && s[i + 1..] == rest[i..];
    }
  }

  /** Words with a separator between them. */
  function Join<A>(words: seq<seq<A>>, separator: A): seq<A>
    requires words != []
    decreases |words|
  {
    var last := |words| - 1;
    if last == 0 then words[0] else Join(words[..last], separator) + [separator] + words[last]
  }
}

/**
 * The standard library's in-place shuffle. Which index is drawn at each step
 * is left open (a nondeterministic choice), so every property proved about a
 * caller holds for every possible outcome of the random source.
 */
module Randomness {
  import opened Collections

  /** Exchanging two entries keeps the multiset and distinctness. */
  lemma SwapKeeps<T>(s: seq<T>, i: nat, j: nat)
    requires i < |s| && j < |s|
    ensures multiset(s[i := s[j]][j := s[i]]) == multiset(s)
    ensures Distinct(s) ==> Distinct(s[i := s[j]][j := s[i]])
  {
    var t := s[i := s[j]][j := s[i]];
    if Distinct(s) {
      forall x, y | 0 <= x < y < |t| ensures t[x] != t[y] {
        var x' := if x == i then j else if x == j then i else x;
        var y' := if y == i then j else if y == j then i else y;
        assert t[x] == s[x'] && t[y] == s[y'] && x' != y';
      }
    }
  }

  /** Fisher-Yates from the back: position i swaps with a drawn j in 0..i. */
  method Shuffle<T(==)>(a: array<T>)
    modifies a
    ensures multiset(a[..]) == old(multiset(a[..]))
    ensures Distinct(old(a[..])) ==> Distinct(a[..])
  {
    ghost var wasDistinct := Distinct(a[..]);
    var i := a.Length;
    while i > 1
      invariant 0 <= i <= a.Length
      invariant multiset(a[..]) == old(multiset(a[..]))
      invariant wasDistinct ==> Distinct(a[..])
    {
      i := i - 1;
      var j :| 0 <= j <= i;
      ghost var before := a[..];
      a[i], a[j] := a[j], a[i];
      assert a[..] == before[i := before[j]][j := before[i]];
      SwapKeeps(before, i, j);
    }
  }
}

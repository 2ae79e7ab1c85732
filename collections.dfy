/** Facts about sequences and finite sets used by all three formulations. */
module Collections {

  /** No element occurs twice. */
  predicate Distinct<T(==)>(s: seq<T>)
  {
    forall i, j :: 0 <= i < j < |s| ==> s[i] != s[j]
  }

  /** The set of elements of a sequence. */
  function Elements<T>(s: seq<T>): set<T>
  {
    set x | x in s
  }

  /** The column (or position) range `range(n)` as a set. */
  function Below(n: nat): (r: set<nat>)
    ensures forall i: int :: i in r <==> 0 <= i < n
  {
    if n == 0 then {} else Below(n - 1) + {n - 1}
  }

  lemma {:induction false} DistinctCard<T>(s: seq<T>)
    requires Distinct(s)
    ensures |Elements(s)| == |s|
  {
    if s != [] {
      DistinctCard(s[1..]);
      assert Elements(s) == {s[0]} + Elements(s[1..]);
      assert s[0] !in Elements(s[1..]);
    }
  }

  lemma {:induction false} BelowCard(n: nat)
    ensures |Below(n)| == n
  {
    if n > 0 {
      var front := Below(n - 1);
      BelowCard(n - 1);
      assert n - 1 !in front;
      assert |front + {n - 1}| == |front| + 1;
    }
  }

  lemma SubsetSameCard<T>(a: set<T>, b: set<T>)
    requires a <= b && |a| == |b|
    ensures a == b
  {
    if a != b {
      assert !(b <= a);
      var x :| x in b && x !in a;
      assert a <= b - {x};
      SubsetCard(a, b - {x});
      assert false;
    }
  }

  lemma {:induction false} SubsetCard<T>(a: set<T>, b: set<T>)
    requires a <= b
    ensures |a| <= |b|
    decreases b
  {
    if a != {} {
      var x :| x in a;
      SubsetCard(a - {x}, b - {x});
    }
  }

  /** A duplicate-free sequence of length n over 0..n-1 contains every value below n. */
  lemma {:induction false} DistinctBelowCovers(s: seq<nat>)
    requires Distinct(s)
    requires forall k :: 0 <= k < |s| ==> s[k] < |s|
    ensures forall c: nat :: c < |s| ==> c in s
  {
    DistinctCard(s);
    BelowCard(|s|);
    assert Elements(s) <= Below(|s|);
    SubsetSameCard(Elements(s), Below(|s|));
    forall c: nat | c < |s| ensures c in s {
      assert c in Below(|s|);
    }
  }

  /** A non-empty set has a member to draw. */
  lemma Member<T>(s: set<T>) returns (x: T)
    requires s != {}
    ensures x in s
  {
    assert |s| != 0;
    x :| x in s;
  }
}

/**
 * The local-search formulation of the assignment problem: a state is a
 * complete assignment (a permutation of the columns 0..n-1) and a neighbour
 * exchanges the columns of two rows, its cost updated from the four cells
 * involved.
 */
module LocalAssignment {
  import opened Search
  import opened Collections
  import opened AssignmentCost

  /** The node context: the one-element tuple holding the cost matrix. */
  datatype LocalExtra = LocalExtra(costs: Matrix)

  type LocalNode = Node<seq<nat>, LocalExtra>

  /** Every entry of the state indexes the n x n matrix. */
  predicate Shaped(node: LocalNode)
  {
    Square(node.extra.costs, |node.state|) &&
    forall k :: 0 <= k < |node.state| ==> node.state[k] < |node.state|
  }

  /** The state is a permutation and the node cost is its cost. */
  predicate Consistent(node: LocalNode)
  {
    Shaped(node) && IsPermutation(node.state) && node.cost == Cost(node.state, node.extra.costs)
  }

  /** `node_value`: minus infinity, below every cost. */
  function NodeValue(node: LocalNode): (v: Bound)
    ensures forall x :: AtMost(v, x)
  {
    NegInf
  }

  /** `goal_test`: local search never stops at a goal. */
  function GoalTest(node: LocalNode): (goal: bool)
    ensures !goal
  {
    false
  }

  // ---------------------------------------------------------------------
  // One swap

  /** The new cost: the old one minus the two old cells plus the two new ones. */
  function IncrementalCost(node: LocalNode, p0: nat, p1: nat): real
    requires Shaped(node) && p0 < |node.state| && p1 < |node.state|
  {
    var costs, state := node.extra.costs, node.state;
    node.cost - costs[p0][state[p0]] - costs[p1][state[p1]] + costs[p0][state[p1]] + costs[p1][state[p0]]
  }

  /** The neighbour that exchanges the columns of rows p0 and p1. */
  function SwapChild(node: LocalNode, p0: nat, p1: nat): LocalNode
    requires Shaped(node) && p0 < |node.state| && p1 < |node.state|
  {
    Node(Swapped(node.state, p0, p1), Some(node), SwapPositions(p0, p1), IncrementalCost(node, p0, p1), node.extra)
  }

  /**
   * The incremental cost equals the cost of the swapped state computed from
   * scratch, and the swapped state is again a permutation.
   */
  lemma SwapChildConsistent(node: LocalNode, p0: nat, p1: nat)
    requires Consistent(node) && p0 < |node.state| && p1 < |node.state|
    ensures Consistent(SwapChild(node, p0, p1))
  {
    SwapCost(node.state, node.extra.costs, p0, p1);
    SwappedPermutation(node.state, p0, p1);
  }

  /** `list(state)`, exchange of two cells through `temp`, back to a tuple. */
  method SwapCopy(state: seq<nat>, p0: nat, p1: nat) returns (swapped: seq<nat>)
    requires p0 < |state| && p1 < |state|
    ensures swapped == Swapped(state, p0, p1)
  {
    var cells := new nat[|state|](k requires 0 <= k < |state| => state[k]);
    var temp := cells[p0];
    cells[p0] := cells[p1];
    cells[p1] := temp;
    swapped := cells[..];
  }

  /** Builds the neighbour for rows p0 and p1 the way both successor functions do. */
  method MakeSwapChild(node: LocalNode, p0: nat, p1: nat) returns (child: LocalNode)
    requires Shaped(node) && p0 < |node.state| && p1 < |node.state|
    ensures child == SwapChild(node, p0, p1)
    ensures Consistent(node) ==> Consistent(child)
  {
    var costs, state := node.extra.costs, node.state;
    var newCost := node.cost;
    newCost := newCost - costs[p0][state[p0]];
    newCost := newCost - costs[p1][state[p1]];
    newCost := newCost + costs[p0][state[p1]];
    newCost := newCost + costs[p1][state[p0]];
    var swapped := SwapCopy(state, p0, p1);
    child := Node(swapped, Some(node), SwapPositions(p0, p1), newCost, node.extra);
    if Consistent(node) {
      SwapChildConsistent(node, p0, p1);
    }
  }

  // ---------------------------------------------------------------------
  // random_successor

  /**
   * The rejection loop of `random_successor`: the second position is redrawn
   * until it differs from the first. `redraws` are the successive draws;
   * None means they ran out while every draw equalled the first (the source
   * would go on drawing).
   */
  method PickPositions(first: nat, redraws: seq<nat>) returns (pair: Option<(nat, nat)>)
    ensures pair.None? <==> forall k :: 0 <= k < |redraws| ==> redraws[k] == first
    ensures pair.Some? ==> pair.value.0 == first && pair.value.1 != first
    ensures pair.Some? ==>
      exists k :: 0 <= k < |redraws| && redraws[k] == pair.value.1 && forall j :: 0 <= j < k ==> redraws[j] == first
  {
    var p0, p1 := first, first;
    var k := 0;
    while p0 == p1 && k < |redraws|
      invariant 0 <= k <= |redraws|
      invariant p0 == first
      invariant p0 == p1 ==> forall j :: 0 <= j < k ==> redraws[j] == first
      invariant p0 != p1 ==> 0 < k && p1 == redraws[k - 1] && forall j :: 0 <= j < k - 1 ==> redraws[j] == first
    {
      p1 := redraws[k];
      k := k + 1;
    }
    pair := if p0 == p1 then None else Some((p0, p1));
  }

  /**
   * `random_successor`: draws two distinct rows and exchanges their columns.
   * With a single row every redraw equals the first, so no successor is ever
   * produced.
   */
  method RandomSuccessor(node: LocalNode, first: nat, redraws: seq<nat>) returns (child: Option<LocalNode>)
    requires Shaped(node)
    requires first < |node.state| && forall k :: 0 <= k < |redraws| ==> redraws[k] < |node.state|
    ensures child.None? <==> forall k :: 0 <= k < |redraws| ==> redraws[k] == first
    ensures |node.state| == 1 ==> child.None?
    ensures child.Some? ==> exists p1: nat :: p1 < |node.state| && p1 != first && child.value == SwapChild(node, first, p1)
    ensures child.Some? ==>
      exists k :: 0 <= k < |redraws| && redraws[k] != first && (forall j :: 0 <= j < k ==> redraws[j] == first) &&
        child.value == SwapChild(node, first, redraws[k])
    ensures child.Some? && Consistent(node) ==> Consistent(child.value)
  {
    var pair := PickPositions(first, redraws);
    if pair.None? {
      return None;
    }
    var p0, p1 := pair.value.0, pair.value.1;
    var c := MakeSwapChild(node, p0, p1);
    child := Some(c);
  }

  // ---------------------------------------------------------------------
  // successors

  /** The pairs (x, t[j]) for each j, in order. */
  function PairsWith(x: nat, t: seq<nat>): (pairs: seq<(nat, nat)>)
    ensures |pairs| == |t| && forall j :: 0 <= j < |t| ==> pairs[j] == (x, t[j])
  {
    if t == [] then [] else [(x, t[0])] + PairsWith(x, t[1..])
  }

  /**
   * `combinations(state, 2)`: the pairs of entries (s[a], s[b]) with a < b, in
   * the order of (a, b). Note that these are entries of the state, used by the
   * caller as positions.
   */
  function Pairs(s: seq<nat>): (pairs: seq<(nat, nat)>)
    ensures |pairs| == Choose2(|s|)
    ensures forall k :: 0 <= k < |pairs| ==> pairs[k].0 in s && pairs[k].1 in s
    ensures |s| < 2 ==> pairs == []
  {
    if s == [] then []
    else
      PairsWith(s[0], s[1..]) + Pairs(s[1..])
  }

  /** The number of ways to choose two of n items: (n - 1) + (n - 2) + ... + 0. */
  function Choose2(n: nat): nat
  {
    if n == 0 then 0 else n - 1 + Choose2(n - 1)
  }

  lemma {:induction false} Choose2Closed(n: nat)
    ensures 2 * Choose2(n) == n * (n - 1)
  {
    if n > 0 {
      Choose2Closed(n - 1);
      assert 2 * Choose2(n) == 2 * (n - 1) + (n - 1) * (n - 2);
    }
  }

  /** `combinations(state, 2)` has n(n - 1)/2 pairs. */
  lemma {:induction false} PairsCount(s: seq<nat>)
    ensures 2 * |Pairs(s)| == |s| * (|s| - 1)
  {
    Choose2Closed(|s|);
  }

  /** The k-th combination: first the pairs with s[0], then the combinations of the rest. */
  lemma PairsAt(s: seq<nat>, k: nat)
    requires s != [] && k < |Pairs(s)|
    ensures k < |s| - 1 ==> Pairs(s)[k] == (s[0], s[k + 1])
    ensures k >= |s| - 1 ==> k - (|s| - 1) < |Pairs(s[1..])| && Pairs(s)[k] == Pairs(s[1..])[k - (|s| - 1)]
  {
    var first, rest := PairsWith(s[0], s[1..]), Pairs(s[1..]);
    assert Pairs(s) == first + rest;
    assert |Pairs(s)| == |first| + |rest| && |first| == |s| - 1;
    if k < |first| {
      assert Pairs(s)[k] == first[k];
    } else {
      var j := k - |first|;
      assert j < |rest| && Pairs(s)[k] == rest[j];
      assert k - (|s| - 1) == j;
    }
  }

  /** Every pair is made of the entries at two positions a < b. */
  lemma {:induction false} PairsFromPositions(s: seq<nat>, k: nat) returns (a: nat, b: nat)
    requires k < |Pairs(s)|
    ensures a < b < |s| && Pairs(s)[k] == (s[a], s[b])
  {
    assert s != [];
    if k < |s| - 1 {
      PairsAt(s, k);
      a, b := 0, k + 1;
    } else {
      PairsAt(s, k);
      var a', b' := PairsFromPositions(s[1..], k - (|s| - 1));
      a, b := ShiftPositions(s, k, a', b');
    }
  }

  /** A pair of the combinations of s[1..] sits in s one position further on. */
  lemma ShiftPositions(s: seq<nat>, k: nat, a': nat, b': nat) returns (a: nat, b: nat)
    requires s != [] && |s| - 1 <= k < |Pairs(s)| && a' < b' < |s| - 1
    requires Pairs(s)[k] == Pairs(s[1..])[k - (|s| - 1)] == (s[1..][a'], s[1..][b'])
    ensures a < b < |s| && Pairs(s)[k] == (s[a], s[b])
  {
    a, b := a' + 1, b' + 1;
  }

  /** Every two positions a < b contribute the pair of their entries, at index k. */
  lemma {:induction false} PairsCoverPositions(s: seq<nat>, a: nat, b: nat) returns (k: nat)
    requires a < b < |s|
    ensures k < |Pairs(s)| && Pairs(s)[k] == (s[a], s[b])
  {
    assert Pairs(s) == PairsWith(s[0], s[1..]) + Pairs(s[1..]);
    if a == 0 {
      k := b - 1;
      PairsAt(s, k);
    } else {
      var j := PairsCoverPositions(s[1..], a - 1, b - 1);
      k := |s| - 1 + j;
      PairsAt(s, k);
      assert k - (|s| - 1) == j;
      assert s[1..][a - 1] == s[a] && s[1..][b - 1] == s[b];
    }
  }

  /** The two entries of a pair, forgetting their order. */
  function Unordered(p: (nat, nat)): set<nat>
  {
    {p.0, p.1}
  }

  /** With distinct entries, no unordered pair occurs twice. */
  lemma {:induction false} PairsNoRepeat(s: seq<nat>)
    requires Distinct(s)
    ensures forall k1, k2 :: 0 <= k1 < k2 < |Pairs(s)| ==> Unordered(Pairs(s)[k1]) != Unordered(Pairs(s)[k2])
  {
    if s != [] {
      var t := s[1..];
      PairsNoRepeat(t);
      forall k1, k2 | 0 <= k1 < k2 < |Pairs(s)|
        ensures Unordered(Pairs(s)[k1]) != Unordered(Pairs(s)[k2])
      {
        PairsAt(s, k1);
        PairsAt(s, k2);
        if k2 < |t| {
          NoRepeatWithFirst(s, k1, k2);
        } else if k1 < |t| {
          NoRepeatAcross(s, k1, k2);
        }
      }
    }
  }

  /** Two pairs with s[0] differ in their second entries. */
  lemma NoRepeatWithFirst(s: seq<nat>, k1: nat, k2: nat)
    requires Distinct(s) && k1 < k2 < |s| - 1
    ensures Unordered((s[0], s[k1 + 1])) != Unordered((s[0], s[k2 + 1]))
  {
    assert s[k2 + 1] !in Unordered((s[0], s[k1 + 1]));
  }

  /** A pair with s[0] differs from every combination of the rest, which lacks s[0]. */
  lemma NoRepeatAcross(s: seq<nat>, k1: nat, k2: nat)
    requires Distinct(s) && k1 < |s| - 1 <= k2 < |Pairs(s)|
    ensures Unordered((s[0], s[k1 + 1])) != Unordered(Pairs(s[1..])[k2 - (|s| - 1)])
  {
    var t := s[1..];
    var a, b := PairsFromPositions(t, k2 - (|s| - 1));
    assert s[0] != t[a] && s[0] != t[b];
    assert s[0] !in Unordered(Pairs(t)[k2 - (|s| - 1)]);
  }

  /** On a permutation every pair of entries is a pair of distinct positions. */
  lemma PermutationPairsArePositions(s: seq<nat>)
    requires IsPermutation(s)
    ensures forall k :: 0 <= k < |Pairs(s)| ==> Pairs(s)[k].0 < |s| && Pairs(s)[k].1 < |s| && Pairs(s)[k].0 != Pairs(s)[k].1
  {
    forall k | 0 <= k < |Pairs(s)|
      ensures Pairs(s)[k].0 < |s| && Pairs(s)[k].1 < |s| && Pairs(s)[k].0 != Pairs(s)[k].1
    {
      var a, b := PairsFromPositions(s, k);
    }
  }

  /** On a permutation every pair of distinct positions occurs, in one order or the other. */
  lemma PermutationPairsCover(s: seq<nat>, x: nat, y: nat)
    requires IsPermutation(s) && x < y < |s|
    ensures (x, y) in Pairs(s) || (y, x) in Pairs(s)
  {
    PermutationOnto(s);
    assert x in s && y in s;
    var a :| 0 <= a < |s| && s[a] == x;
    var b :| 0 <= b < |s| && s[b] == y;
    if a < b {
      var k := PairsCoverPositions(s, a, b);
      assert Pairs(s)[k] in Pairs(s);
    } else {
      var k := PairsCoverPositions(s, b, a);
      assert Pairs(s)[k] in Pairs(s);
    }
  }

  /**
   * On a permutation the pairs of entries are pairs of distinct positions,
   * and every unordered pair of distinct positions occurs exactly once:
   * n(n-1)/2 neighbours.
   */
  lemma PermutationPairs(s: seq<nat>)
    requires IsPermutation(s)
    ensures 2 * |Pairs(s)| == |s| * (|s| - 1)
    ensures forall k :: 0 <= k < |Pairs(s)| ==> Pairs(s)[k].0 < |s| && Pairs(s)[k].1 < |s| && Pairs(s)[k].0 != Pairs(s)[k].1
    ensures forall x: nat, y: nat :: x < y < |s| ==> (x, y) in Pairs(s) || (y, x) in Pairs(s)
    ensures forall k1, k2 :: 0 <= k1 < k2 < |Pairs(s)| ==> Unordered(Pairs(s)[k1]) != Unordered(Pairs(s)[k2])
  {
    PairsCount(s);
    PairsNoRepeat(s);
    PermutationPairsArePositions(s);
    forall x: nat, y: nat | x < y < |s| ensures (x, y) in Pairs(s) || (y, x) in Pairs(s) {
      PermutationPairsCover(s, x, y);
    }
  }

  lemma ValueInRange(s: seq<nat>, x: nat)
    requires forall k :: 0 <= k < |s| ==> s[k] < |s|
    requires x in s
    ensures x < |s|
  {
  }

  /** `successors`: one neighbour per pair of `combinations(state, 2)`, in that order. */
  method Successors(node: LocalNode) returns (children: seq<LocalNode>)
    requires Shaped(node)
    ensures 2 * |children| == |node.state| * (|node.state| - 1)
    ensures |children| == |Pairs(node.state)|
    ensures forall k :: 0 <= k < |children| ==>
      children[k] == SwapChild(node, Pairs(node.state)[k].0, Pairs(node.state)[k].1)
    ensures Consistent(node) ==> forall k :: 0 <= k < |children| ==> Consistent(children[k])
  {
    var pairs := Pairs(node.state);
    PairsCount(node.state);
    PairsInRange(node);
    children := SwapChildren(node, pairs);
    if Consistent(node) {
      forall j | 0 <= j < |children| ensures Consistent(children[j]) {
        SwapChildConsistent(node, pairs[j].0, pairs[j].1);
      }
    }
  }

  /** The loop of `successors`: one neighbour per pair of positions, in order. */
  method SwapChildren(node: LocalNode, pairs: seq<(nat, nat)>) returns (children: seq<LocalNode>)
    requires Shaped(node)
    requires forall k :: 0 <= k < |pairs| ==> pairs[k].0 < |node.state| && pairs[k].1 < |node.state|
    ensures |children| == |pairs|
    ensures forall k :: 0 <= k < |pairs| ==> children[k] == SwapChild(node, pairs[k].0, pairs[k].1)
  {
    children := [];
    var k := 0;
    while k < |pairs|
      invariant 0 <= k <= |pairs|
      invariant |children| == k
      invariant forall j :: 0 <= j < k ==> children[j] == SwapChild(node, pairs[j].0, pairs[j].1)
    {
      var child := MakeSwapChild(node, pairs[k].0, pairs[k].1);
      children := children + [child];
      k := k + 1;
    }
  }

  /** The combinations of a shaped state are valid positions. */
  lemma PairsInRange(node: LocalNode)
    requires Shaped(node)
    ensures forall k :: 0 <= k < |Pairs(node.state)| ==>
      Pairs(node.state)[k].0 < |node.state| && Pairs(node.state)[k].1 < |node.state|
  {
    forall k | 0 <= k < |Pairs(node.state)|
      ensures Pairs(node.state)[k].0 < |node.state| && Pairs(node.state)[k].1 < |node.state|
    {
      ValueInRange(node.state, Pairs(node.state)[k].0);
      ValueInRange(node.state, Pairs(node.state)[k].1);
    }
  }

  lemma SwappedSymmetric(s: seq<nat>, i: nat, j: nat)
    requires i < |s| && j < |s|
    ensures Swapped(s, i, j) == Swapped(s, j, i)
  {
  }

  lemma SwapOfPair(s: seq<nat>, q: (nat, nat), p0: nat, p1: nat)
    requires p0 < |s| && p1 < |s| && (q == (p0, p1) || q == (p1, p0))
    ensures Unordered(q) == {p0, p1} && Swapped(s, q.0, q.1) == Swapped(s, p0, p1)
  {
    SwappedSymmetric(s, p0, p1);
  }

  /**
   * On a permutation every exchange of two distinct rows is the state of one
   * of the successors.
   */
  lemma SuccessorsCoverSwaps(node: LocalNode, p0: nat, p1: nat)
    requires Consistent(node) && p0 < |node.state| && p1 < |node.state| && p0 != p1
    ensures exists k :: 0 <= k < |Pairs(node.state)| && Unordered(Pairs(node.state)[k]) == {p0, p1} &&
                        Swapped(node.state, Pairs(node.state)[k].0, Pairs(node.state)[k].1) == Swapped(node.state, p0, p1)
  {
    var s := node.state;
    var pairs := Pairs(s);
    var x, y := if p0 < p1 then p0 else p1, if p0 < p1 then p1 else p0;
    PermutationPairsCover(s, x, y);
    var k :| 0 <= k < |pairs| && (pairs[k] == (x, y) || pairs[k] == (y, x));
    SwapOfPair(s, pairs[k], p0, p1);
  }

  // ---------------------------------------------------------------------
  // random_node

  /** `random_node`: a random permutation of the initial size, costed from scratch. */
  method RandomNode(initial: LocalNode) returns (node: LocalNode)
    requires Square(initial.extra.costs, |initial.state|)
    ensures Consistent(node)
    ensures |node.state| == |initial.state| && node.extra == initial.extra && node.parent.None?
  {
    var state := RandomAssignment(|initial.state|);
    var c := ComputeCost(state, initial.extra.costs);
    node := Node(state, None, NoAction, c, initial.extra);
  }

  /**
   * The permutation (1, 0) over [[1, 5], [5, 1]] costs 10; its only
   * neighbour is (0, 1), whose incremental cost 10 - 5 - 5 + 1 + 1 = 2 is its
   * cost.
   */
  lemma ScenarioC(node: LocalNode)
    requires node == Node([1, 0], None, NoAction, 10.0, LocalExtra([[1.0, 5.0], [5.0, 1.0]]))
    ensures Consistent(node) && Pairs(node.state) == [(1, 0)]
    ensures Consistent(SwapChild(node, 1, 0)) && SwapChild(node, 1, 0).state == [0, 1] && SwapChild(node, 1, 0).cost == 2.0
  {
    ScenarioCStart(node);
    ScenarioCPairs();
    SwapChildConsistent(node, 1, 0);
    ScenarioCNeighbour(node);
  }

  lemma ScenarioCStart(node: LocalNode)
    requires node == Node([1, 0], None, NoAction, 10.0, LocalExtra([[1.0, 5.0], [5.0, 1.0]]))
    ensures Consistent(node)
  {
    ScenarioCCosts(node.extra.costs);
    assert IsPermutation(node.state);
  }

  lemma ScenarioCNeighbour(node: LocalNode)
    requires node == Node([1, 0], None, NoAction, 10.0, LocalExtra([[1.0, 5.0], [5.0, 1.0]]))
    requires Shaped(node)
    ensures SwapChild(node, 1, 0).state == [0, 1] && SwapChild(node, 1, 0).cost == 2.0
  {
    assert Swapped(node.state, 1, 0) == [0, 1];
    assert IncrementalCost(node, 1, 0) == 10.0 - 5.0 - 5.0 + 1.0 + 1.0;
  }

  lemma ScenarioCCosts(costs: Matrix)
    requires costs == [[1.0, 5.0], [5.0, 1.0]]
    ensures Cost([1, 0], costs) == 10.0 && Cost([0, 1], costs) == 2.0
  {
    var state: seq<nat> := [1, 0];
    assert state[..1] == [1] && state[..1][..0] == [];
    assert Cost(state[..1], costs) == 5.0;
    var best: seq<nat> := [0, 1];
    assert best[..1] == [0] && best[..1][..0] == [];
    assert Cost(best[..1], costs) == 1.0;
  }

  lemma ScenarioCPairs()
    ensures Pairs([1, 0]) == [(1, 0)]
  {
    var state: seq<nat> := [1, 0];
    assert Pairs(state[1..]) == [];
    assert PairsWith(1, state[1..]) == [(1, 0)];
  }
}

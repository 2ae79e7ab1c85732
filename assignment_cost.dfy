/**
 * Cost matrices, the cost of a complete assignment, and random complete
 * assignments: the module-level helpers of the assignment problem.
 */
module AssignmentCost {
  import opened Collections
  import Randomness

  /** An n x n cost matrix: row = agent, column = task. */
  type Matrix = seq<seq<real>>

  predicate Square(costs: Matrix, n: nat)
  {
    |costs| == n && forall r :: 0 <= r < n ==> |costs[r]| == n
  }

  /** Every row of the assignment has a row in the matrix and every column a cell in it. */
  predicate Fits(assignment: seq<nat>, costs: Matrix)
  {
    |assignment| <= |costs| &&
    forall row :: 0 <= row < |assignment| ==> assignment[row] < |costs[row]|
  }

  /** Sum of costs[row][assignment[row]] over all rows, added in row order. */
  function Cost(assignment: seq<nat>, costs: Matrix): real
    requires Fits(assignment, costs)
  {
    if assignment == [] then 0.0
    else
      var last := |assignment| - 1;
      Cost(assignment[..last], costs) + costs[last][assignment[last]]
  }

  /** `cost(assignment, costs)`: accumulates the cells row by row. */
  method ComputeCost(assignment: seq<nat>, costs: Matrix) returns (total: real)
    requires Fits(assignment, costs)
    ensures total == Cost(assignment, costs)
  {
    total := 0.0;
    var row := 0;
    while row < |assignment|
      invariant 0 <= row <= |assignment|
      invariant total == Cost(assignment[..row], costs)
    {
      assert assignment[..row + 1][..row] == assignment[..row];
      total := total + costs[row][assignment[row]];
      row := row + 1;
    }
    assert assignment[..row] == assignment;
  }

  /**
   * Changing the column of one row changes the cost by exactly the
   * difference of the two cells of that row.
   */
  lemma {:induction false} CostUpdate(assignment: seq<nat>, costs: Matrix, i: nat, v: nat)
    requires Fits(assignment, costs)
    requires i < |assignment| && v < |costs[i]|
    ensures Fits(assignment[i := v], costs)
    ensures Cost(assignment[i := v], costs)
         == Cost(assignment, costs) - costs[i][assignment[i]] + costs[i][v]
  {
    var updated := assignment[i := v];
    var last := |assignment| - 1;
    if i == last {
      assert updated[..last] == assignment[..last];
    } else {
      CostUpdate(assignment[..last], costs, i, v);
      assert updated[..last] == assignment[..last][i := v];
    }
  }

  /**
   * Exchanging the columns of rows p0 and p1 changes the cost by the four
   * cells involved: the incremental update of the local search.
   */
  lemma SwapCost(assignment: seq<nat>, costs: Matrix, p0: nat, p1: nat)
    requires Fits(assignment, costs)
    requires p0 < |assignment| && p1 < |assignment|
    requires assignment[p1] < |costs[p0]| && assignment[p0] < |costs[p1]|
    ensures Fits(Swapped(assignment, p0, p1), costs)
    ensures Cost(Swapped(assignment, p0, p1), costs)
         == Cost(assignment, costs)
            - costs[p0][assignment[p0]] - costs[p1][assignment[p1]]
            + costs[p0][assignment[p1]] + costs[p1][assignment[p0]]
  {
    var middle := assignment[p0 := assignment[p1]];
    CostUpdate(assignment, costs, p0, assignment[p1]);
    CostUpdate(middle, costs, p1, assignment[p0]);
  }

  /** The sequence with the entries at positions i and j exchanged. */
  function Swapped(s: seq<nat>, i: nat, j: nat): (t: seq<nat>)
    requires i < |s| && j < |s|
    ensures |t| == |s| && t[i] == s[j] && t[j] == s[i]
    ensures forall k :: 0 <= k < |s| && k != i && k != j ==> t[k] == s[k]
    ensures multiset(t) == multiset(s)
  {
    s[i := s[j]][j := s[i]]
  }

  /** A permutation of 0..n-1 where n is the length. */
  predicate IsPermutation(s: seq<nat>)
  {
    Distinct(s) && forall k :: 0 <= k < |s| ==> s[k] < |s|
  }

  /** Exchanging two entries keeps a permutation a permutation. */
  lemma SwappedPermutation(s: seq<nat>, i: nat, j: nat)
    requires IsPermutation(s) && i < |s| && j < |s|
    ensures IsPermutation(Swapped(s, i, j))
  {
  }

  /** A permutation is onto: every column below n is used by some row. */
  lemma PermutationOnto(s: seq<nat>)
    requires IsPermutation(s)
    ensures forall c: nat :: c < |s| ==> c in s
  {
    DistinctBelowCovers(s);
  }

  /** `random_assignment(n)`: `list(range(n))` shuffled in place. */
  method RandomAssignment(n: nat) returns (assignment: seq<nat>)
    ensures |assignment| == n && IsPermutation(assignment)
  {
    var a := new nat[n](i requires 0 <= i < n => i);
    assert Distinct(a[..]);
    ghost var ordered := a[..];
    Randomness.Shuffle(a);
    assignment := a[..];
    forall k | 0 <= k < n ensures assignment[k] < n {
      assert assignment[k] in multiset(ordered);
    }
  }
}

/**
 * The tree-search formulation of the assignment problem: a state is a tuple
 * with one slot per row, either empty or holding the row's column; a child
 * fills one empty slot with one still-unassigned column.
 */
module TreeAssignment {
  import opened Search
  import opened Collections
  import opened AssignmentCost

  /** A slot of the state: None while the row has no column yet. */
  type Slot = Option<nat>

  /** The node context: the cost matrix and the unused columns, in order. */
  datatype TreeExtra = TreeExtra(costs: Matrix, unassigned: seq<nat>)

  type TreeNode = Node<seq<Slot>, TreeExtra>

  /** What expanding a node needs: an n x n matrix and unused columns that index it. */
  predicate Shaped(node: TreeNode)
  {
    Square(node.extra.costs, |node.state|) &&
    forall k :: 0 <= k < |node.extra.unassigned| ==> node.extra.unassigned[k] < |node.state|
  }

  /** Number of empty slots. */
  function OpenRows(state: seq<Slot>): nat
  {
    if state == [] then 0
    else OpenRows(state[..|state| - 1]) + (if state[|state| - 1].None? then 1 else 0)
  }

  lemma {:induction false} OpenRowsZero(state: seq<Slot>)
    ensures OpenRows(state) == 0 <==> None !in state
  {
    if state != [] {
      var last := |state| - 1;
      OpenRowsZero(state[..last]);
      assert state == state[..last] + [state[last]];
    }
  }

  // ---------------------------------------------------------------------
  // Costs of partial assignments

  /** Every filled slot names a cell of the matrix. */
  predicate SlotsFit(state: seq<Slot>, costs: Matrix)
  {
    |state| <= |costs| &&
    forall r :: 0 <= r < |state| && state[r].Some? ==> state[r].value < |costs[r]|
  }

  /** Sum of the cells of the filled slots. */
  function AssignedCost(state: seq<Slot>, costs: Matrix): real
    requires SlotsFit(state, costs)
  {
    if state == [] then 0.0
    else
      var last := |state| - 1;
      AssignedCost(state[..last], costs)
      + (if state[last].Some? then costs[last][state[last].value] else 0.0)
  }

  /**
   * `completion` is a complete assignment that keeps every filled slot and
   * gives every empty slot some column from `unassigned` (columns may
   * repeat: this is the relaxation the heuristic bounds).
   */
  predicate IsCompletion(state: seq<Slot>, unassigned: seq<nat>, costs: Matrix, completion: seq<nat>)
  {
    |completion| == |state| && Fits(completion, costs) &&
    forall r :: 0 <= r < |state| ==>
      if state[r].Some? then completion[r] == state[r].value else completion[r] in unassigned
  }

  /** Sum of the cells the completion adds in the empty slots. */
  function AddedCost(state: seq<Slot>, completion: seq<nat>, costs: Matrix): real
    requires |completion| == |state| && Fits(completion, costs)
  {
    if state == [] then 0.0
    else
      var last := |state| - 1;
      AddedCost(state[..last], completion[..last], costs)
      + (if state[last].None? then costs[last][completion[last]] else 0.0)
  }

  /** The cost of a completion splits into the filled part and the added part. */
  lemma {:induction false} CostSplit(state: seq<Slot>, unassigned: seq<nat>, costs: Matrix, completion: seq<nat>)
    requires IsCompletion(state, unassigned, costs, completion)
    ensures SlotsFit(state, costs)
    ensures Cost(completion, costs) == AssignedCost(state, costs) + AddedCost(state, completion, costs)
  {
    if state != [] {
      var last := |state| - 1;
      assert IsCompletion(state[..last], unassigned, costs, completion[..last]);
      CostSplit(state[..last], unassigned, costs, completion[..last]);
    }
  }

  // ---------------------------------------------------------------------
  // min_cost_heuristic and node_value

  /** `sub_c`: the cells of a row whose column is still unassigned, in column order. */
  function Candidates(row: seq<real>, unassigned: seq<nat>): (sub: seq<real>)
    ensures forall c :: 0 <= c < |row| && c in unassigned ==> row[c] in sub
    ensures sub != [] ==> exists c :: 0 <= c < |row| && c in unassigned
  {
    if row == [] then []
    else
      var last := |row| - 1;
      Candidates(row[..last], unassigned) + (if last in unassigned then [row[last]] else [])
  }

  /** `sub_c` holds exactly the cells of the row whose column is unassigned. */
  lemma {:induction false} CandidatesExactly(row: seq<real>, unassigned: seq<nat>)
    ensures forall x :: x in Candidates(row, unassigned) <==>
      exists c :: 0 <= c < |row| && c in unassigned && row[c] == x
  {
    if row != [] {
      var last := |row| - 1;
      CandidatesExactly(row[..last], unassigned);
      assert forall c :: 0 <= c < last ==> row[..last][c] == row[c];
    }
  }

  /** Python's `min` on a non-empty list. */
  function Min(sub: seq<real>): (m: real)
    requires sub != []
    ensures m in sub && forall x :: x in sub ==> m <= x
  {
    if |sub| == 1 then sub[0]
    else
      var rest := Min(sub[1..]);
      assert sub == [sub[0]] + sub[1..];
      if sub[0] <= rest then sub[0] else rest
  }

  /** What an empty row adds, `min(sub_c)`, is the cell of an unassigned column and no other such cell is cheaper. */
  lemma CheapestCell(row: seq<real>, unassigned: seq<nat>)
    requires Candidates(row, unassigned) != []
    ensures exists c :: 0 <= c < |row| && c in unassigned && row[c] == Min(Candidates(row, unassigned))
    ensures forall c :: 0 <= c < |row| && c in unassigned ==> Min(Candidates(row, unassigned)) <= row[c]
  {
    CandidatesExactly(row, unassigned);
  }

  /**
   * The heuristic row by row: each empty row adds its cheapest unassigned
   * cell; None when some empty row has no unassigned cell (min of an empty
   * list raises).
   */
  function Heuristic(state: seq<Slot>, costs: Matrix, unassigned: seq<nat>): Option<real>
    requires |state| <= |costs|
  {
    if state == [] then Some(0.0)
    else
      var last := |state| - 1;
      match Heuristic(state[..last], costs, unassigned)
      case None => None
      case Some(h) =>
        if state[last].Some? then Some(h)
        else
          var sub := Candidates(costs[last], unassigned);
          if sub == [] then None else Some(h + Min(sub))
  }

  lemma {:induction false} HeuristicFailureSticks(state: seq<Slot>, costs: Matrix, unassigned: seq<nat>, k: nat)
    requires k <= |state| <= |costs|
    requires Heuristic(state[..k], costs, unassigned) == None
    ensures Heuristic(state, costs, unassigned) == None
    decreases |state| - k
  {
    if k < |state| {
      assert state[..k + 1][..k] == state[..k];
      HeuristicFailureSticks(state, costs, unassigned, k + 1);
    } else {
      assert state[..k] == state;
    }
  }

  /** `min_cost_heuristic`: adds up the cheapest unassigned cell of each empty row. */
  method MinCostHeuristic(node: TreeNode) returns (h: Option<real>)
    requires |node.state| <= |node.extra.costs|
    ensures h == Heuristic(node.state, node.extra.costs, node.extra.unassigned)
  {
    var state := node.state;
    var costs, unassigned := node.extra.costs, node.extra.unassigned;
    var total := 0.0;
    var r := 0;
    while r < |state|
      invariant 0 <= r <= |state|
      invariant Heuristic(state[..r], costs, unassigned) == Some(total)
    {
      assert state[..r + 1][..r] == state[..r];
      if state[r].None? {
        var sub := Candidates(costs[r], unassigned);
        if sub == [] {
          HeuristicFailureSticks(state, costs, unassigned, r + 1);
          return None;
        }
        total := total + Min(sub);
      }
      r := r + 1;
    }
    assert state[..r] == state;
    h := Some(total);
  }

  /** The heuristic never exceeds the cost a completion adds in the empty rows. */
  lemma {:induction false} Admissible(state: seq<Slot>, unassigned: seq<nat>, costs: Matrix, completion: seq<nat>)
    requires IsCompletion(state, unassigned, costs, completion)
    ensures Heuristic(state, costs, unassigned).Some?
    ensures Heuristic(state, costs, unassigned).value <= AddedCost(state, completion, costs)
  {
    if state != [] {
      var last := |state| - 1;
      assert IsCompletion(state[..last], unassigned, costs, completion[..last]);
      Admissible(state[..last], unassigned, costs, completion[..last]);
      if state[last].None? {
        var c := completion[last];
        assert costs[last][c] in Candidates(costs[last], unassigned);
      }
    }
  }

  /** The heuristic is 0 once no slot is empty. */
  lemma {:induction false} HeuristicAtGoal(state: seq<Slot>, costs: Matrix, unassigned: seq<nat>)
    requires |state| <= |costs| && None !in state
    ensures Heuristic(state, costs, unassigned) == Some(0.0)
  {
    if state != [] {
      var last := |state| - 1;
      assert state[last] in state;
      HeuristicAtGoal(state[..last], costs, unassigned);
    }
  }

  /**
   * On an n x n matrix the heuristic fails exactly when some slot is empty
   * and no column below n is unassigned.
   */
  lemma {:induction false} HeuristicDefined(state: seq<Slot>, costs: Matrix, unassigned: seq<nat>)
    requires Square(costs, |state|)
    ensures Heuristic(state, costs, unassigned).Some?
        <==> OpenRows(state) == 0 || exists c :: c in unassigned && c < |state|
  {
    var n := |state|;
    if exists c :: c in unassigned && c < n {
      var c :| c in unassigned && c < n;
      HeuristicDefinedWith(state, costs, unassigned, c, n);
    } else {
      HeuristicDefinedWithout(state, costs, unassigned, n);
    }
  }

  lemma {:induction false} HeuristicDefinedWith(state: seq<Slot>, costs: Matrix, unassigned: seq<nat>, c: nat, n: nat)
    requires |state| <= |costs| && forall r :: 0 <= r < |costs| ==> |costs[r]| == n
    requires c in unassigned && c < n
    ensures Heuristic(state, costs, unassigned).Some?
  {
    if state != [] {
      var last := |state| - 1;
      HeuristicDefinedWith(state[..last], costs, unassigned, c, n);
      assert costs[last][c] in Candidates(costs[last], unassigned);
    }
  }

  lemma {:induction false} HeuristicDefinedWithout(state: seq<Slot>, costs: Matrix, unassigned: seq<nat>, n: nat)
    requires |state| <= |costs| && forall r :: 0 <= r < |costs| ==> |costs[r]| == n
    requires forall c :: c in unassigned ==> c >= n
    ensures Heuristic(state, costs, unassigned).Some? <==> OpenRows(state) == 0
  {
    if state != [] {
      var last := |state| - 1;
      HeuristicDefinedWithout(state[..last], costs, unassigned, n);
      if state[last].None? {
        assert Candidates(costs[last], unassigned) == [];
      }
    }
  }

  // ---------------------------------------------------------------------
  // The column invariant

  /** Values of the filled slots. */
  function Used(state: seq<Slot>): set<nat>
  {
    if state == [] then {}
    else
      var last := |state| - 1;
      Used(state[..last]) + (if state[last].Some? then {state[last].value} else {})
  }

  lemma {:induction false} UsedMeans(state: seq<Slot>)
    ensures forall c :: c in Used(state) <==> Some(c) in state
  {
    if state != [] {
      var last := |state| - 1;
      UsedMeans(state[..last]);
      assert state == state[..last] + [state[last]];
    }
  }

  /** No column is used by two filled slots. */
  predicate FilledDistinct(state: seq<Slot>)
  {
    forall r, r' :: 0 <= r < r' < |state| && state[r].Some? && state[r'].Some? ==> state[r].value != state[r'].value
  }

  /**
   * The bookkeeping every node of a search from the root keeps: the filled
   * columns are below n and distinct, `unassigned` lists each other column
   * below n exactly once, and the node cost is the sum of the filled cells.
   */
  ghost predicate ColumnInvariant(node: TreeNode)
  {
    var state, costs, unassigned := node.state, node.extra.costs, node.extra.unassigned;
    var n := |state|;
    Shaped(node) &&
    (forall r :: 0 <= r < n && state[r].Some? ==> state[r].value < n) &&
    FilledDistinct(state) &&
    Distinct(unassigned) &&
    (forall c: nat :: c in unassigned <==> c < n && Some(c) !in state) &&
    node.cost == AssignedCost(state, costs)
  }

  lemma {:induction false} UsedCard(state: seq<Slot>)
    requires FilledDistinct(state)
    ensures |Used(state)| + OpenRows(state) == |state|
  {
    if state != [] {
      var last := |state| - 1;
      var prefix := state[..last];
      UsedCard(prefix);
      if state[last].Some? {
        UsedMeans(prefix);
      }
    }
  }

  /**
   * As many columns are unassigned as rows are empty, so a node with k
   * empty slots has k * k children.
   */
  lemma OpenColumns(node: TreeNode)
    requires ColumnInvariant(node)
    ensures OpenRows(node.state) == |node.extra.unassigned|
  {
    var state, unassigned := node.state, node.extra.unassigned;
    var n := |state|;
    UsedMeans(state);
    UsedCard(state);
    BelowCard(n);
    DistinctCard(unassigned);
    assert Used(state) <= Below(n) by {
      forall c | c in Used(state) ensures c in Below(n) {
        var r :| 0 <= r < n && state[r] == Some(c);
      }
    }
    assert Elements(unassigned) == Below(n) - Used(state);
    assert Below(n) == (Below(n) - Used(state)) + Used(state);
  }

  // ---------------------------------------------------------------------
  // node_value

  /**
   * `node_value`: node cost plus the heuristic. On a node that keeps the
   * column invariant it is defined and bounds the cost of every completion
   * from below.
   */
  method NodeValue(node: TreeNode) returns (v: Option<real>)
    requires |node.state| <= |node.extra.costs|
    ensures v.Some? <==> Heuristic(node.state, node.extra.costs, node.extra.unassigned).Some?
    ensures v.Some? ==> v.value == node.cost + Heuristic(node.state, node.extra.costs, node.extra.unassigned).value
    ensures ColumnInvariant(node) ==> v.Some?
    ensures ColumnInvariant(node) ==>
      forall completion :: IsCompletion(node.state, node.extra.unassigned, node.extra.costs, completion) ==>
        v.value <= Cost(completion, node.extra.costs)
  {
    var h := MinCostHeuristic(node);
    v := if h.Some? then Some(node.cost + h.value) else None;
    if ColumnInvariant(node) {
      var state, costs, unassigned := node.state, node.extra.costs, node.extra.unassigned;
      HeuristicDefined(state, costs, unassigned);
      OpenColumns(node);
      if OpenRows(state) != 0 {
        assert unassigned[0] in unassigned;
      }
      forall completion | IsCompletion(state, unassigned, costs, completion)
        ensures v.value <= Cost(completion, costs)
      {
        CostSplit(state, unassigned, costs, completion);
        Admissible(state, unassigned, costs, completion);
      }
    }
  }

  // ---------------------------------------------------------------------
  // successors

  /** `new_unassigned`: the columns other than u, in their order. */
  function Without(unassigned: seq<nat>, u: nat): (rest: seq<nat>)
    ensures forall k :: k in rest <==> k in unassigned && k != u
    ensures Distinct(unassigned) ==> Distinct(rest)
  {
    if unassigned == [] then []
    else
      var rest := Without(unassigned[1..], u);
      assert Distinct(unassigned) ==> Distinct(unassigned[1..]) && unassigned[0] !in rest;
      (if unassigned[0] == u then [] else [unassigned[0]]) + rest
  }

  lemma {:induction false} WithoutAbsent(unassigned: seq<nat>, u: nat)
    requires u !in unassigned
    ensures Without(unassigned, u) == unassigned
  {
    if unassigned != [] {
      WithoutAbsent(unassigned[1..], u);
    }
  }

  /** Removing a column that occurs once drops exactly that entry and keeps the order of the rest. */
  lemma {:induction false} WithoutAt(unassigned: seq<nat>, j: nat)
    requires Distinct(unassigned) && j < |unassigned|
    ensures Without(unassigned, unassigned[j]) == unassigned[..j] + unassigned[j + 1..]
  {
    var u := unassigned[j];
    if j == 0 {
      WithoutAbsent(unassigned[1..], u);
    } else {
      var tail := unassigned[1..];
      assert tail[j - 1] == u;
      WithoutAt(tail, j - 1);
      assert unassigned[..j] == [unassigned[0]] + tail[..j - 1];
      assert unassigned[j + 1..] == tail[j..];
    }
  }

  /** The child that fills empty slot i with column u. */
  function Child(node: TreeNode, i: nat, u: nat): TreeNode
    requires i < |node.state| && i < |node.extra.costs| && u < |node.extra.costs[i]|
  {
    var costs := node.extra.costs;
    Node(node.state[i := Some(u)], Some(node), Assign(i, u), node.cost + costs[i][u],
         TreeExtra(costs, Without(node.extra.unassigned, u)))
  }

  /** The children that fill row i with each of the given columns, in order. */
  function ChildrenFor(node: TreeNode, i: nat, columns: seq<nat>): (children: seq<TreeNode>)
    requires i < |node.state| && i < |node.extra.costs|
    requires forall k :: 0 <= k < |columns| ==> columns[k] < |node.extra.costs[i]|
    ensures |children| == |columns|
  {
    if columns == [] then []
    else
      var last := |columns| - 1;
      ChildrenFor(node, i, columns[..last]) + [Child(node, i, columns[last])]
  }

  /** The children for row i, one per unassigned column in order; none if the row is filled. */
  function RowChildren(node: TreeNode, i: nat): seq<TreeNode>
    requires Shaped(node) && i < |node.state|
  {
    if node.state[i].Some? then [] else ChildrenFor(node, i, node.extra.unassigned)
  }

  /** The children for rows 0..rows-1, in the order the generator yields them. */
  function ChildrenUpTo(node: TreeNode, rows: nat): seq<TreeNode>
    requires Shaped(node) && rows <= |node.state|
  {
    if rows == 0 then [] else ChildrenUpTo(node, rows - 1) + RowChildren(node, rows - 1)
  }

  /** `successors`: for each empty row, for each unassigned column, one child. */
  method Successors(node: TreeNode) returns (children: seq<TreeNode>)
    requires Shaped(node)
    ensures children == ChildrenUpTo(node, |node.state|)
    ensures |children| == OpenRows(node.state) * |node.extra.unassigned|
    ensures forall c :: c in children <==> exists i: nat, u: nat :: Fills(node, c, i, u)
    ensures ColumnInvariant(node) ==> forall c :: c in children ==> ColumnInvariant(c)
  {
    var state := node.state;
    children := [];
    var i := 0;
    while i < |state|
      invariant 0 <= i <= |state|
      invariant children == ChildrenUpTo(node, i)
    {
      if state[i].None? {
        var batch := RowSuccessors(node, i);
        children := children + batch;
      }
      i := i + 1;
    }
    SuccessorFacts(node);
  }

  /** The inner loop of `successors`: row i filled with each unassigned column in turn. */
  method RowSuccessors(node: TreeNode, i: nat) returns (batch: seq<TreeNode>)
    requires Shaped(node) && i < |node.state| && node.state[i].None?
    ensures batch == ChildrenFor(node, i, node.extra.unassigned)
  {
    var state := node.state;
    var costs, unassigned := node.extra.costs, node.extra.unassigned;
    batch := [];
    var k := 0;
    while k < |unassigned|
      invariant 0 <= k <= |unassigned|
      invariant batch == ChildrenFor(node, i, unassigned[..k])
    {
      assert unassigned[..k + 1][..k] == unassigned[..k];
      var u := unassigned[k];
      var newState := state[i := Some(u)];
      var newUnassigned := Without(unassigned, u);
      var c := node.cost + costs[i][u];
      batch := batch + [Node(newState, Some(node), Assign(i, u), c, TreeExtra(costs, newUnassigned))];
      k := k + 1;
    }
    assert unassigned[..k] == unassigned;
  }

  /** Count, exact membership and the preserved invariant of the full successor sequence. */
  lemma SuccessorFacts(node: TreeNode)
    requires Shaped(node)
    ensures |ChildrenUpTo(node, |node.state|)| == OpenRows(node.state) * |node.extra.unassigned|
    ensures forall c :: c in ChildrenUpTo(node, |node.state|) <==> exists i: nat, u: nat :: Fills(node, c, i, u)
    ensures ColumnInvariant(node) ==> forall c :: c in ChildrenUpTo(node, |node.state|) ==> ColumnInvariant(c)
  {
    var state, unassigned := node.state, node.extra.unassigned;
    var children := ChildrenUpTo(node, |state|);
    SuccessorCount(node, |state|);
    assert state[..|state|] == state;
    forall c ensures c in children <==> exists i: nat, u: nat :: Fills(node, c, i, u) {
      SuccessorsExactly(node, |state|, c);
    }
    if ColumnInvariant(node) {
      forall c | c in children ensures ColumnInvariant(c) {
        var i: nat, u: nat :| Fills(node, c, i, u);
        ChildKeepsInvariant(node, i, u);
      }
    }
  }

  lemma {:induction false} SuccessorCount(node: TreeNode, rows: nat)
    requires Shaped(node) && rows <= |node.state|
    ensures |ChildrenUpTo(node, rows)| == OpenRows(node.state[..rows]) * |node.extra.unassigned|
  {
    if rows > 0 {
      SuccessorCount(node, rows - 1);
      var prefix := node.state[..rows];
      assert prefix[..rows - 1] == node.state[..rows - 1];
      var open := prefix[rows - 1].None?;
      CountStep(|ChildrenUpTo(node, rows - 1)|, OpenRows(node.state[..rows - 1]),
                |node.extra.unassigned|, open);
    } else {
      assert node.state[..rows] == [];
    }
  }

  /** One more row adds m children when it is open and none otherwise. */
  lemma CountStep(before: nat, open: nat, m: nat, isOpen: bool)
    requires before == open * m
    ensures before + (if isOpen then m else 0) == (open + if isOpen then 1 else 0) * m
  {
  }

  /** c is the child that fills empty row i with unassigned column u. */
  predicate Fills(node: TreeNode, c: TreeNode, i: nat, u: nat)
  {
    Shaped(node) && i < |node.state| && node.state[i].None? && u in node.extra.unassigned &&
    c == Child(node, i, u)
  }

  lemma ChildrenForExactly(node: TreeNode, i: nat, columns: seq<nat>, c: TreeNode)
    requires Shaped(node) && i < |node.state| && node.state[i].None?
    requires forall k :: 0 <= k < |columns| ==> columns[k] in node.extra.unassigned
    ensures c in ChildrenFor(node, i, columns) <==> exists u: nat :: u in columns && Fills(node, c, i, u)
  {
    if c in ChildrenFor(node, i, columns) {
      var u := ChildrenForAreFills(node, i, columns, c);
    }
    if exists u: nat :: u in columns && Fills(node, c, i, u) {
      var u: nat :| u in columns && Fills(node, c, i, u);
      FillsAreChildrenFor(node, i, columns, u);
    }
  }

  /** Each child for row i fills it with one of the columns. */
  lemma {:induction false} ChildrenForAreFills(node: TreeNode, i: nat, columns: seq<nat>, c: TreeNode) returns (u: nat)
    requires Shaped(node) && i < |node.state| && node.state[i].None?
    requires forall k :: 0 <= k < |columns| ==> columns[k] in node.extra.unassigned
    requires c in ChildrenFor(node, i, columns)
    ensures u in columns && Fills(node, c, i, u)
  {
    var last := |columns| - 1;
    var front := columns[..last];
    assert columns == front + [columns[last]];
    if c in ChildrenFor(node, i, front) {
      u := ChildrenForAreFills(node, i, front, c);
    } else {
      u := columns[last];
    }
  }

  /** Filling row i with one of the columns gives one of the children for row i. */
  lemma {:induction false} FillsAreChildrenFor(node: TreeNode, i: nat, columns: seq<nat>, u: nat)
    requires Shaped(node) && i < |node.state| && node.state[i].None?
    requires forall k :: 0 <= k < |columns| ==> columns[k] in node.extra.unassigned
    requires u in columns
    ensures Child(node, i, u) in ChildrenFor(node, i, columns)
  {
    var last := |columns| - 1;
    var front := columns[..last];
    assert columns == front + [columns[last]];
    if u != columns[last] {
      FillsAreChildrenFor(node, i, front, u);
    }
  }

  /** A node is a child exactly when it fills an empty row i with an unassigned column u. */
  lemma SuccessorsExactly(node: TreeNode, rows: nat, c: TreeNode)
    requires Shaped(node) && rows <= |node.state|
    ensures c in ChildrenUpTo(node, rows) <==> exists i: nat, u: nat :: i < rows && Fills(node, c, i, u)
  {
    if c in ChildrenUpTo(node, rows) {
      SuccessorsAreFills(node, rows, c);
    }
    if exists i: nat, u: nat :: i < rows && Fills(node, c, i, u) {
      var i: nat, u: nat :| i < rows && Fills(node, c, i, u);
      FillsAreSuccessors(node, rows, c, i, u);
    }
  }

  lemma {:induction false} SuccessorsAreFills(node: TreeNode, rows: nat, c: TreeNode)
    requires Shaped(node) && rows <= |node.state|
    requires c in ChildrenUpTo(node, rows)
    ensures exists i: nat, u: nat :: i < rows && Fills(node, c, i, u)
  {
    var last := rows - 1;
    if c in ChildrenUpTo(node, last) {
      SuccessorsAreFills(node, last, c);
      var i: nat, u: nat :| i < last && Fills(node, c, i, u);
      assert i < rows;
    } else {
      ChildrenForExactly(node, last, node.extra.unassigned, c);
      var u: nat :| u in node.extra.unassigned && Fills(node, c, last, u);
      assert last < rows;
    }
  }

  lemma {:induction false} FillsAreSuccessors(node: TreeNode, rows: nat, c: TreeNode, i: nat, u: nat)
    requires Shaped(node) && rows <= |node.state|
    requires i < rows && Fills(node, c, i, u)
    ensures c in ChildrenUpTo(node, rows)
  {
    var last := rows - 1;
    if i < last {
      FillsAreSuccessors(node, last, c, i, u);
      UpToKeeps(node, rows, c);
    } else {
      FillsAreChildrenFor(node, last, node.extra.unassigned, u);
      UpToAdds(node, rows, c);
    }
  }

  /** The children of the first rows - 1 rows are among those of the first rows. */
  lemma UpToKeeps(node: TreeNode, rows: nat, c: TreeNode)
    requires Shaped(node) && 0 < rows <= |node.state|
    requires c in ChildrenUpTo(node, rows - 1)
    ensures c in ChildrenUpTo(node, rows)
  {
    assert ChildrenUpTo(node, rows) == ChildrenUpTo(node, rows - 1) + RowChildren(node, rows - 1);
  }

  /** The children of row rows - 1, when it is empty, are among those of the first rows. */
  lemma UpToAdds(node: TreeNode, rows: nat, c: TreeNode)
    requires Shaped(node) && 0 < rows <= |node.state| && node.state[rows - 1].None?
    requires c in ChildrenFor(node, rows - 1, node.extra.unassigned)
    ensures c in ChildrenUpTo(node, rows)
  {
    assert c in RowChildren(node, rows - 1);
    assert ChildrenUpTo(node, rows) == ChildrenUpTo(node, rows - 1) + RowChildren(node, rows - 1);
  }

  lemma AssignedCostFill(state: seq<Slot>, costs: Matrix, i: nat, u: nat)
    requires SlotsFit(state, costs) && i < |state| && state[i].None? && u < |costs[i]|
    ensures SlotsFit(state[i := Some(u)], costs)
    ensures AssignedCost(state[i := Some(u)], costs) == AssignedCost(state, costs) + costs[i][u]
  {
    var last := |state| - 1;
    var filled := state[i := Some(u)];
    if i == last {
      assert filled[..last] == state[..last];
    } else {
      AssignedCostFill(state[..last], costs, i, u);
      assert filled[..last] == state[..last][i := Some(u)];
    }
  }

  /** Filling an empty slot with an unassigned column keeps the column invariant. */
  lemma ChildKeepsInvariant(node: TreeNode, i: nat, u: nat)
    requires ColumnInvariant(node)
    requires i < |node.state| && node.state[i].None? && u in node.extra.unassigned
    ensures ColumnInvariant(Child(node, i, u))
  {
    var state, costs := node.state, node.extra.costs;
    var filled := state[i := Some(u)];
    var rest := Without(node.extra.unassigned, u);
    assert Some(u) !in state;
    AssignedCostFill(state, costs, i, u);
    forall k | 0 <= k < |rest| ensures rest[k] < |state| {
      assert rest[k] in rest;
    }
    forall c: nat ensures Some(c) in filled <==> Some(c) in state || c == u {
      if Some(c) in filled && c != u {
        var r :| 0 <= r < |filled| && filled[r] == Some(c);
        assert state[r] == Some(c);
      }
      if Some(c) in state {
        var r :| 0 <= r < |state| && state[r] == Some(c);
        assert filled[r] == Some(c);
      }
    }
  }

  /** With the invariant, a node with k empty slots has exactly k * k children. */
  lemma BranchingFactor(node: TreeNode)
    requires ColumnInvariant(node)
    ensures |ChildrenUpTo(node, |node.state|)| == OpenRows(node.state) * OpenRows(node.state)
  {
    OpenColumns(node);
    SuccessorCount(node, |node.state|);
    assert node.state[..|node.state|] == node.state;
  }

  // ---------------------------------------------------------------------
  // goal_test

  /** `goal_test`: no slot is empty. */
  function GoalTest(node: TreeNode): (goal: bool)
    ensures goal <==> OpenRows(node.state) == 0
  {
    OpenRowsZero(node.state);
    None !in node.state
  }

  /** The columns of a state whose slots are all filled. */
  function Completed(state: seq<Slot>): (assignment: seq<nat>)
    requires None !in state
    ensures |assignment| == |state|
    ensures forall r :: 0 <= r < |state| ==> state[r] == Some(assignment[r])
  {
    if state == [] then []
    else
      var last := |state| - 1;
      assert state[last] in state;
      assert forall r :: 0 <= r < last ==> state[..last][r] == state[r];
      Completed(state[..last]) + [state[last].value]
  }

  lemma {:induction false} AssignedCostComplete(state: seq<Slot>, costs: Matrix)
    requires None !in state && SlotsFit(state, costs)
    ensures Fits(Completed(state), costs)
    ensures AssignedCost(state, costs) == Cost(Completed(state), costs)
  {
    if state != [] {
      var last := |state| - 1;
      AssignedCostComplete(state[..last], costs);
      assert Completed(state)[..last] == Completed(state[..last]);
    }
  }

  /** At a goal the node cost is the cost of the complete assignment. */
  lemma GoalCost(node: TreeNode)
    requires ColumnInvariant(node) && GoalTest(node)
    ensures Fits(Completed(node.state), node.extra.costs)
    ensures node.cost == Cost(Completed(node.state), node.extra.costs)
  {
    AssignedCostComplete(node.state, node.extra.costs);
  }

  // ---------------------------------------------------------------------
  // The root of a tree search

  /** `[0, 1, ..., n-1]`. */
  function Range(n: nat): (r: seq<nat>)
    ensures |r| == n && forall k :: 0 <= k < n ==> r[k] == k
  {
    seq(n, k requires 0 <= k < n => k)
  }

  /** The empty assignment over the matrix with every column unassigned and cost 0. */
  function Root(costs: Matrix): TreeNode
  {
    Node(seq(|costs|, r => None), None, NoAction, 0.0, TreeExtra(costs, Range(|costs|)))
  }

  lemma {:induction false} AssignedCostEmpty(state: seq<Slot>, costs: Matrix)
    requires |state| <= |costs| && forall r :: 0 <= r < |state| ==> state[r] == None
    ensures SlotsFit(state, costs) && AssignedCost(state, costs) == 0.0
  {
    if state != [] {
      AssignedCostEmpty(state[..|state| - 1], costs);
    }
  }

  /** The root of a search over a square matrix keeps the column invariant. */
  lemma RootInvariant(costs: Matrix)
    requires Square(costs, |costs|)
    ensures ColumnInvariant(Root(costs))
  {
    var root := Root(costs);
    AssignedCostEmpty(root.state, costs);
    forall c: nat ensures c in root.extra.unassigned <==> c < |costs| && Some(c) !in root.state {
      assert c < |costs| ==> root.extra.unassigned[c] == c;
    }
  }

  /**
   * Over [[1, 5], [5, 1]] the root heuristic is 1 + 1 = 2, equal to the
   * cost of the optimal assignment (0, 1).
   */
  lemma ScenarioA()
    ensures var costs := [[1.0, 5.0], [5.0, 1.0]];
      var root := Root(costs);
      Heuristic(root.state, costs, root.extra.unassigned) == Some(2.0) &&
      root.cost + 2.0 == Cost([0, 1], costs) && Cost([1, 0], costs) == 10.0
  {
    var costs := [[1.0, 5.0], [5.0, 1.0]];
    var root := Root(costs);
    assert root.extra.unassigned == [0, 1];
    assert root.state == [None, None];
    ScenarioAHeuristic(costs);
    ScenarioACost(costs);
  }

  lemma ScenarioAHeuristic(costs: Matrix)
    requires costs == [[1.0, 5.0], [5.0, 1.0]]
    ensures Heuristic([None, None], costs, [0, 1]) == Some(2.0)
  {
    var both: seq<Slot> := [None, None];
    ScenarioAFirstRow(costs);
    assert both[..1] == [None];
    ScenarioARow(costs[1], [0, 1]);
    assert Min(costs[1]) == 1.0 by {
      assert costs[1][1..] == [1.0];
    }
    HeuristicOpenStep(both, costs, [0, 1], 1.0);
  }

  lemma ScenarioAFirstRow(costs: Matrix)
    requires costs == [[1.0, 5.0], [5.0, 1.0]]
    ensures Heuristic([None], costs, [0, 1]) == Some(1.0)
  {
    var first: seq<Slot> := [None];
    assert first[..0] == [];
    ScenarioARow(costs[0], [0, 1]);
    assert Min(costs[0]) == 1.0 by {
      assert costs[0][1..] == [5.0];
    }
    HeuristicOpenStep(first, costs, [0, 1], 0.0);
  }

  /** One more empty row adds the minimum of its candidates. */
  lemma HeuristicOpenStep(state: seq<Slot>, costs: Matrix, unassigned: seq<nat>, h: real)
    requires 0 < |state| <= |costs| && state[|state| - 1].None?
    requires Heuristic(state[..|state| - 1], costs, unassigned) == Some(h)
    requires Candidates(costs[|state| - 1], unassigned) != []
    ensures Heuristic(state, costs, unassigned) == Some(h + Min(Candidates(costs[|state| - 1], unassigned)))
  {
  }

  /** A two-cell row with both columns unassigned: both cells are candidates. */
  lemma ScenarioARow(row: seq<real>, unassigned: seq<nat>)
    requires |row| == 2 && unassigned == [0, 1]
    ensures Candidates(row, unassigned) == row
  {
    assert row[..1] == [row[0]] && row[..1][..0] == [];
    assert Candidates(row[..1], unassigned) == [row[0]];
    assert row == [row[0]] + [row[1]];
  }

  lemma ScenarioACost(costs: Matrix)
    requires costs == [[1.0, 5.0], [5.0, 1.0]]
    ensures Cost([0, 1], costs) == 2.0 && Cost([1, 0], costs) == 10.0
  {
    var best: seq<nat> := [0, 1];
    assert best[..1] == [0] && best[..1][..0] == [];
    assert Cost(best[..1], costs) == 1.0;
    var worst: seq<nat> := [1, 0];
    assert worst[..1] == [1] && worst[..1][..0] == [];
    assert Cost(worst[..1], costs) == 5.0;
  }
}

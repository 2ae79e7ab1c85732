# Assignment and graph-partition search problems

This project models the two problem definitions of the `py_search` library:

- The **assignment problem**. An n x n cost matrix assigns each row (agent) one distinct column (task).
  - **Tree search** (`AssignmentProblem`): starts from an all-empty assignment and fills one open row per expansion. It is guided by the `min_cost_heuristic` lower bound.
  - **Local search** (`LocalAssignmentProblem`): starts from a random permutation. A neighbour exchanges the columns of two rows, and its cost is updated incrementally.
  - The helpers `random_assignment` and `cost` are modelled too.
- The **graph bipartition problem** (`LocalGraphPartitionProblem`). A state is a set P of vertices. A neighbour exchanges one member of P for one vertex outside it. The cost is `cutsize`, the number of edges with exactly one endpoint in P. The helper `random_partition` is modelled too.

Layout:

| file | module | contents |
|---|---|---|
| `collections.dfy` | `Collections` | distinctness, cardinality facts |
| `search.dfy` | `Search` | the search node (state, parent, action, cost, extra), `Option`, the extended-real bound |
| `randomness.dfy` | `Randomness` | the in-place Fisher-Yates shuffle, with the drawn index left open |
| `assignment_cost.dfy` | `AssignmentCost` | cost matrices, `cost`, `random_assignment`, exchanges of two rows |
| `tree_assignment.dfy` | `TreeAssignment` | `AssignmentProblem` |
| `local_assignment.dfy` | `LocalAssignment` | `LocalAssignmentProblem` |
| `graph_partition.dfy` | `GraphPartition` | `LocalGraphPartitionProblem`, `random_partition`, `cutsize` |

Modelling decisions:

- **Costs** are `real`, so the model does not track floating-point rounding.
- **Randomness.** Each random draw is either a parameter (the positions drawn by `randint` and `choice`) or a nondeterministic choice `:|` (the shuffle). So every property holds for every outcome of the random source.
- **Generators.** Python generators become sequences of nodes, in the order the generator yields them. When the loop runs over a Python `set`, that order is the set's iteration order. The model leaves that order open.
- **`min` of an empty list** raises in Python. In the model the heuristic returns `None` instead. The heuristic is well defined on every node reachable from the root, because the column invariant keeps the open rows and the unassigned columns equal in number.
- **`combinations(node.state, 2)`.** `LocalAssignmentProblem.successors` takes the combinations of the state's *values* and then uses them as *positions*. The model follows the code as written (`LocalAssignment.Pairs`). `LocalAssignment.PermutationPairs` proves that on a permutation these pairs are exactly the unordered pairs of distinct positions, each appearing once. So the behaviour is the intended neighbourhood, in a different order.

## Model

| member | source | states |
|---|---|---|
| AssignmentCost.ComputeCost | py_search/problems/assignment_problem.py:176-184 | `cost` sums `costs[row][col]` over the rows in order; the loop's total is the specification `Cost` |
| AssignmentCost.CostUpdate | py_search/problems/assignment_problem.py:176-184 | changing the column of one row changes the cost by the new cell minus the old cell |
| AssignmentCost.SwapCost | py_search/problems/assignment_problem.py:121-130 | exchanging the columns of two distinct rows changes the cost by exactly the four cells the incremental update adds and subtracts |
| AssignmentCost.Swapped | py_search/problems/assignment_problem.py:127-130 | the exchange through a temporary swaps the two entries, leaves every other entry alone, and keeps the multiset of columns |
| AssignmentCost.PermutationOnto | py_search/problems/assignment_problem.py:167-173 | a permutation of 0..n-1 holds every column below n |
| AssignmentCost.RandomAssignment | py_search/problems/assignment_problem.py:167-173 | `random_assignment(n)` is a permutation of 0..n-1, of length n, whatever the shuffle draws |
| Randomness.Shuffle | py_search/problems/assignment_problem.py:171-172 | the in-place shuffle keeps the multiset of entries and keeps distinct entries distinct |
| TreeAssignment.OpenRowsZero | py_search/problems/assignment_problem.py:82-87 | no open row remains exactly when `None` does not occur in the state |
| TreeAssignment.CostSplit | py_search/problems/assignment_problem.py:40-62 | the cost of any completion is the cost of the filled rows plus the cost of the cells it picks for the open rows |
| TreeAssignment.Candidates | py_search/problems/assignment_problem.py:52 | `sub_c` holds the cell of every unassigned column of the row, and is empty only when the row has no unassigned column |
| TreeAssignment.CandidatesExactly | py_search/problems/assignment_problem.py:52 | a value is in `sub_c` if and only if it is the cell of some unassigned column of the row |
| TreeAssignment.Min | py_search/problems/assignment_problem.py:53 | `min` returns an element of the list that is at most every element |
| TreeAssignment.CheapestCell | py_search/problems/assignment_problem.py:52-53 | what an empty row adds is the cell of an unassigned column, and no unassigned column of that row has a cheaper cell |
| TreeAssignment.MinCostHeuristic | py_search/problems/assignment_problem.py:40-55 | adds, for each empty row, its cheapest unassigned cell; `None` where the source's `min` would raise on an empty list |
| TreeAssignment.HeuristicFailureSticks | py_search/problems/assignment_problem.py:51-53 | once one empty row has no candidate, the whole heuristic fails |
| TreeAssignment.Admissible | py_search/problems/assignment_problem.py:40-55 | the heuristic is defined and never exceeds what any completion adds on the open rows (a lower bound) |
| TreeAssignment.HeuristicAtGoal | py_search/problems/assignment_problem.py:48-55 | a complete assignment has heuristic 0 |
| TreeAssignment.HeuristicDefined | py_search/problems/assignment_problem.py:48-55 | over a square matrix the heuristic is defined if and only if no row is open or some unassigned column is in range |
| TreeAssignment.UsedMeans | py_search/problems/assignment_problem.py:74-76 | the set of used columns is exactly the set of columns some filled row holds |
| TreeAssignment.UsedCard | py_search/problems/assignment_problem.py:74-76 | with distinct filled columns, used columns plus open rows is the number of rows |
| TreeAssignment.OpenColumns | py_search/problems/assignment_problem.py:71-80 | under the column invariant, the open rows equal the unassigned columns in number |
| TreeAssignment.NodeValue | py_search/problems/assignment_problem.py:57-62 | the value is the node cost plus the heuristic; under the column invariant it is defined and at most the cost of every completion |
| TreeAssignment.Without | py_search/problems/assignment_problem.py:76 | `new_unassigned` holds exactly the old unassigned columns other than u, and stays duplicate-free |
| TreeAssignment.WithoutAbsent | py_search/problems/assignment_problem.py:76 | filtering out a column that is not there changes nothing |
| TreeAssignment.WithoutAt | py_search/problems/assignment_problem.py:76 | on a duplicate-free list, filtering out the j-th column deletes position j |
| TreeAssignment.ChildrenFor | py_search/problems/assignment_problem.py:73-80 | the inner loop yields one child per unassigned column |
| TreeAssignment.RowSuccessors | py_search/problems/assignment_problem.py:73-80 | the inner loop yields, for an empty row, one child per unassigned column in list order |
| TreeAssignment.Successors | py_search/problems/assignment_problem.py:64-80 | row-major generator order; (open rows) x (unassigned columns) children; a node is a child exactly when it fills some open row i with some unassigned u; the column invariant is preserved |
| TreeAssignment.SuccessorCount | py_search/problems/assignment_problem.py:71-73 | each open row contributes one child per unassigned column |
| TreeAssignment.SuccessorsExactly | py_search/problems/assignment_problem.py:71-80 | the children of the first rows are exactly the fills of those rows, in both directions |
| TreeAssignment.AssignedCostFill | py_search/problems/assignment_problem.py:78 | filling row i with u adds `costs[i][u]` to the cost of the filled rows |
| TreeAssignment.ChildKeepsInvariant | py_search/problems/assignment_problem.py:74-80 | a child keeps the columns distinct, the unassigned list equal to the unused columns, and its cost equal to the cost of its filled rows |
| TreeAssignment.BranchingFactor | py_search/problems/assignment_problem.py:71-80 | on a reachable node with k open rows there are k * k children |
| TreeAssignment.GoalTest | py_search/problems/assignment_problem.py:82-87 | the goal holds if and only if no row is open |
| TreeAssignment.Completed | py_search/problems/assignment_problem.py:82-87 | a state with no `None` is a complete assignment with the same columns |
| TreeAssignment.AssignedCostComplete | py_search/problems/assignment_problem.py:78 | on a complete state, the cost of the filled rows is `cost` of the assignment |
| TreeAssignment.GoalCost | py_search/problems/assignment_problem.py:78-87 | at a goal node, the accumulated node cost is the `cost` of the complete assignment |
| TreeAssignment.Range | py_search/problems/assignment_problem.py:264 | `[i for i in range(n)]` lists 0..n-1 in order |
| TreeAssignment.AssignedCostEmpty | py_search/problems/assignment_problem.py:263 | the all-empty state has no filled cost |
| TreeAssignment.RootInvariant | py_search/problems/assignment_problem.py:263-270 | the root (all rows empty, all columns unassigned, cost 0) satisfies the column invariant |
| TreeAssignment.ScenarioA | py_search/problems/assignment_problem.py:40-62 | over [[1, 5], [5, 1]] the root's heuristic is 2; the two complete assignments cost 2 for (0, 1) and 10 for (1, 0), so the bound meets the optimum |
| LocalAssignment.NodeValue | py_search/problems/assignment_problem.py:97-102 | minus infinity, a lower bound on every cost |
| LocalAssignment.GoalTest | py_search/problems/assignment_problem.py:163-164 | never a goal |
| LocalAssignment.SwapChildConsistent | py_search/problems/assignment_problem.py:121-132 | the incrementally updated cost of an exchange is the cost of the new assignment, and it remains a permutation |
| LocalAssignment.SwapCopy | py_search/problems/assignment_problem.py:127-130 | copying into a list and swapping through a temporary yields the exchanged state |
| LocalAssignment.MakeSwapChild | py_search/problems/assignment_problem.py:121-132 | builds the neighbour with the four-step cost update; a consistent node gives a consistent neighbour |
| LocalAssignment.PickPositions | py_search/problems/assignment_problem.py:115-119 | the redraw loop stops at the first draw that differs from the first position; it runs forever exactly when every draw equals it |
| LocalAssignment.RandomSuccessor | py_search/problems/assignment_problem.py:104-132 | the neighbour exchanges the first position with the first redraw that differs from it; there is no neighbour exactly when every redraw equals the first position, so none ever appears for a single row; consistency is preserved |
| LocalAssignment.Pairs | py_search/problems/assignment_problem.py:141 | `combinations(state, 2)` has (n-1) + (n-2) + ... + 0 pairs, each drawn from the state |
| LocalAssignment.PairsCount | py_search/problems/assignment_problem.py:141 | `combinations(state, 2)` has n(n-1)/2 pairs |
| LocalAssignment.PairsFromPositions | py_search/problems/assignment_problem.py:141 | each combination takes its elements from two increasing positions |
| LocalAssignment.PairsCoverPositions | py_search/problems/assignment_problem.py:141 | every two increasing positions give one combination |
| LocalAssignment.PairsNoRepeat | py_search/problems/assignment_problem.py:141 | over distinct values no unordered pair occurs twice |
| LocalAssignment.PermutationPairs | py_search/problems/assignment_problem.py:141-153 | on a permutation the combinations of values are n(n-1)/2 pairs of distinct in-range positions, covering every pair once |
| LocalAssignment.SwapChildren | py_search/problems/assignment_problem.py:141-153 | the loop body builds, for each pair in order, the neighbour that exchanges those two positions |
| LocalAssignment.Successors | py_search/problems/assignment_problem.py:134-153 | one neighbour per combination in order, each the exchange of that pair with the incremental cost; consistency is preserved |
| LocalAssignment.SuccessorsCoverSwaps | py_search/problems/assignment_problem.py:134-153 | on a permutation every exchange of two distinct rows is the state of some neighbour |
| LocalAssignment.RandomNode | py_search/problems/assignment_problem.py:155-161 | a random permutation of the initial size, whose node cost is its `cost` |
| LocalAssignment.ScenarioC | py_search/problems/assignment_problem.py:121-153 | the node (1, 0) with cost 10 over [[1, 5], [5, 1]] is consistent; its only combination is (1, 0); the neighbour is (0, 1) with incremental cost 2, and it is consistent, so 2 is its true cost |
| GraphPartition.Cuts | py_search/problems/graph_partition.py:112-114 | `cuts` holds exactly the edges with one endpoint in p |
| GraphPartition.CutsMultiplicity | py_search/problems/graph_partition.py:112-114 | `cuts` keeps each crossing edge as many times as E lists it, parallel edges included, and drops every other edge |
| GraphPartition.CutSize | py_search/problems/graph_partition.py:112-115 | `cutsize` is at most the number of edges |
| GraphPartition.CutSizeZero | py_search/problems/graph_partition.py:112-115 | if p touches no edge, nothing is cut |
| GraphPartition.CutsComplement | py_search/problems/graph_partition.py:112-115 | p and V - p cut the same edges |
| GraphPartition.CutSizeComplement | py_search/problems/graph_partition.py:112-115 | the cut size of p and of its complement agree |
| GraphPartition.ScenarioB | py_search/problems/graph_partition.py:112-115 | on the path 0-1-2-3 with p = {0, 2} all three edges are cut |
| GraphPartition.ExchangeKeepsSize | py_search/problems/graph_partition.py:72-73 | removing a member and adding an outsider keeps the size of p and keeps p inside V |
| GraphPartition.RandomSuccessor | py_search/problems/graph_partition.py:56-76 | the neighbour is p with the drawn member exchanged for the drawn outsider; same size, inside V, costed by its own cut |
| GraphPartition.CorrectedChild | py_search/problems/graph_partition.py:89-94 | the as-written neighbour with only its cost changed, to the cut size of its own partition |
| GraphPartition.ExchangesOf | py_search/problems/graph_partition.py:88-94 | the inner loop yields, for a fixed member pV, one neighbour per vertex outside p, each the exchange of pV for it |
| GraphPartition.Successors | py_search/problems/graph_partition.py:78-94 | \|p\| x \|V - p\| neighbours; the k-th is the exchange of a recorded member for a recorded outsider; every such exchange is present; each cost is the parent's cut size, as written |
| GraphPartition.SuccessorsKeepSize | py_search/problems/graph_partition.py:89-91 | every neighbour keeps the size of p and stays inside V |
| GraphPartition.ParentCostCounterexample | py_search/problems/graph_partition.py:93 | a neighbour whose carried cost differs from its own cut size |
| GraphPartition.CorrectedSuccessors | py_search/problems/graph_partition.py:78-94 | the same exchanges at the same indices as `Successors`, every exchange present, each neighbour costed by its own cut |
| GraphPartition.ListOf | py_search/problems/graph_partition.py:35 | `list(V)` lists every vertex exactly once |
| GraphPartition.RandomPartition | py_search/problems/graph_partition.py:34-37 | `random_partition(V)` is a subset of V of size \|V\| // 2 |
| GraphPartition.RandomNode | py_search/problems/graph_partition.py:96-103 | a random half of V whose node cost is its cut size |
| GraphPartition.NodeValue | py_search/problems/graph_partition.py:47-54 | the value is the node cost itself (greedy search) |
| GraphPartition.GoalTest | py_search/problems/graph_partition.py:105-109 | never a goal |

## Findings

| source | as written | input that shows it | evidently intended | confidence | as-written member | corrected member |
|---|---|---|---|---|---|---|
| py_search/problems/graph_partition.py:93 | each neighbour is given `cutsize(E, p)` of the parent's p | V = {0, 1, 2}, E = [(0, 1)], p = {0}: exchanging 0 for 2 gives {2}, which cuts nothing, yet the neighbour carries cost 1 | `cutsize(E, new_p)`, as `random_successor` (line 75) does | high, not executed | GraphPartition.Successors, GraphPartition.ParentCostCounterexample | GraphPartition.CorrectedSuccessors |

## Left out

- `random_matrix` and `generate_graph` (random problem generation), `print_matrix`, and the `__main__` demonstrations (Munkres, search comparisons) are not modelled. They are input generation, output and driver code. Only the tree-search root built at assignment_problem.py:263-270 is modelled (`TreeAssignment.Root`).
- The `Problem` and `Node` base classes of `py_search.base` and the search algorithms are not part of this model. A node is reduced to its state, parent, action, cost and extra.
- `random`: the draws of `randint` and `choice` are parameters, and the shuffle's draws are nondeterministic choices. Distributions are not modelled.
- Floating point: costs are exact reals, and `float('-inf')` is the `NegInf` bound.
- LocalAssignment.PickPositions: the source redraws forever when the state has a single row. The model takes a finite sequence of redraws and returns `None` when all of them equal the first position.
- TreeAssignment.MinCostHeuristic: `min` of an empty list raises `ValueError` in the source. The model returns `None` for that case and does not model the exception itself.
- GraphPartition.RandomSuccessor: `choice` of an empty list raises in the source. The model instead requires that the drawn vertices are a member of p and a vertex outside it, which rules out an empty p and an empty complement.
- TreeAssignment.Successors: requires `Shaped`, that is an n x n matrix for n rows and unassigned columns below n. The source needs this only when a row is open: `costs[i][u]` at assignment_problem.py:78 raises `IndexError` otherwise. The model does not cover that error path.
- LocalAssignment.RandomSuccessor: requires the drawn positions to be valid rows, which excludes the empty state. For the empty state the source's `randint(0, -1)` raises `ValueError`, and the model does not cover that error path.
- LocalAssignment.Successors: requires every entry of the state to index the cost matrix, as in a permutation. The source raises `IndexError` on other states, and the model does not cover that error path.
- The order in which Python iterates over a `set` or `frozenset` is not modelled. `GraphPartition.Successors` and `GraphPartition.ListOf` hold for every order.

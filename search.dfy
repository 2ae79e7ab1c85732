/**
 * The parts of py_search's search-tree node that the problem formulations
 * use: the state, the parent link, the action that produced the node, the
 * accumulated cost and the per-problem context ("extra").
 */
module Search {

  datatype Option<T> = None | Some(value: T)

  /** The move recorded on a child: a filled cell, a swap of two positions, or none. */
  datatype Action = NoAction | Assign(row: nat, col: nat) | SwapPositions(p0: nat, p1: nat)

  datatype Node<S, X> = Node(state: S, parent: Option<Node<S, X>>, action: Action, cost: real, extra: X)

  /** A lower bound that may be minus infinity (a float('-inf') result). */
  datatype Bound = NegInf | Finite(value: real)

  /** The bound b does not exceed the cost x. */
  predicate AtMost(b: Bound, x: real)
  {
    b.NegInf? || b.value <= x
  }
}

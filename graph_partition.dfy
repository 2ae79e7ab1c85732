/**
 * The local-search formulation of graph bipartition: a state is a set P of
 * vertices, a neighbour exchanges one member of P for one vertex outside it,
 * and the cost is the number of edges cut by P.
 */
module GraphPartition {
  import opened Search
  import opened Collections
  import Randomness

  type Vertex = int
  type Edge = (Vertex, Vertex)

  /** The node context: the vertex set V and the edge list E. */
  datatype GraphExtra = GraphExtra(vertices: set<Vertex>, edges: seq<Edge>)

  type GraphNode = Node<set<Vertex>, GraphExtra>

  /** Both endpoints of every edge are vertices of the graph. */
  predicate EdgesWithin(vertices: set<Vertex>, edges: seq<Edge>)
  {
    forall k :: 0 <= k < |edges| ==> edges[k].0 in vertices && edges[k].1 in vertices
  }

  // ---------------------------------------------------------------------
  // cutsize

  /** The edge has exactly one endpoint in p. */
  predicate Crosses(e: Edge, p: set<Vertex>)
  {
    (e.0 in p && e.1 !in p) || (e.0 !in p && e.1 in p)
  }

  /** `cuts`: the edges crossing p, in edge order. */
  function Cuts(edges: seq<Edge>, p: set<Vertex>): (cuts: seq<Edge>)
    ensures |cuts| <= |edges|
    ensures forall e :: e in cuts <==> e in edges && Crosses(e, p)
  {
    if edges == [] then []
    else (if Crosses(edges[0], p) then [edges[0]] else []) + Cuts(edges[1..], p)
  }

  /** `cuts` keeps every crossing edge as often as E lists it, parallel edges included. */
  lemma {:induction false} CutsMultiplicity(edges: seq<Edge>, p: set<Vertex>)
    ensures forall e :: multiset(Cuts(edges, p))[e] == if Crosses(e, p) then multiset(edges)[e] else 0
  {
    if edges != [] {
      CutsMultiplicity(edges[1..], p);
      assert edges == [edges[0]] + edges[1..];
    }
  }

  /** `cutsize`: the number of edges with exactly one endpoint in p. */
  function CutSize(edges: seq<Edge>, p: set<Vertex>): (size: nat)
    ensures size <= |edges|
  {
    |Cuts(edges, p)|
  }

  /** No edge crosses when one side holds no endpoint. */
  lemma {:induction false} CutSizeZero(edges: seq<Edge>, p: set<Vertex>)
    requires forall k :: 0 <= k < |edges| ==> edges[k].0 !in p && edges[k].1 !in p
    ensures CutSize(edges, p) == 0
  {
    if edges != [] {
      CutSizeZero(edges[1..], p);
    }
  }

  /** Taking the other side of the bipartition cuts the same edges. */
  lemma {:induction false} CutsComplement(vertices: set<Vertex>, edges: seq<Edge>, p: set<Vertex>)
    requires EdgesWithin(vertices, edges)
    ensures Cuts(edges, p) == Cuts(edges, vertices - p)
  {
    if edges != [] {
      assert EdgesWithin(vertices, edges[1..]);
      CutsComplement(vertices, edges[1..], p);
      assert Crosses(edges[0], p) == Crosses(edges[0], vertices - p);
    }
  }

  /** The cut size of p and of V - p agree. */
  lemma CutSizeComplement(vertices: set<Vertex>, edges: seq<Edge>, p: set<Vertex>)
    requires EdgesWithin(vertices, edges)
    ensures CutSize(edges, p) == CutSize(edges, vertices - p)
  {
    CutsComplement(vertices, edges, p);
  }

  /** V = {0, 1, 2, 3}, E = [(0, 1), (1, 2), (2, 3)], P = {0, 2}: all three edges cross. */
  lemma ScenarioB()
    ensures CutSize([(0, 1), (1, 2), (2, 3)], {0, 2}) == 3
  {
    var edges: seq<Edge> := [(0, 1), (1, 2), (2, 3)];
    var p: set<Vertex> := {0, 2};
    assert Crosses(edges[0], p) && Crosses(edges[1], p) && Crosses(edges[2], p);
    assert edges[1..][1..] == [(2, 3)] && edges[1..][1..][1..] == [];
  }

  // ---------------------------------------------------------------------
  // One exchange

  /** p with a taken out and b put in. */
  function Exchange(p: set<Vertex>, a: Vertex, b: Vertex): set<Vertex>
  {
    p - {a} + {b}
  }

  /** An exchange keeps the size of p, and keeps p inside V. */
  lemma ExchangeKeepsSize(vertices: set<Vertex>, p: set<Vertex>, a: Vertex, b: Vertex)
    requires a in p && b in vertices - p
    ensures |Exchange(p, a, b)| == |p|
    ensures p <= vertices ==> Exchange(p, a, b) <= vertices
  {
    assert |p - {a}| == |p| - 1;
    assert b !in p - {a};
  }

  /** `random_successor`: exchanges the drawn member pV for the drawn outsider notPV. */
  method RandomSuccessor(node: GraphNode, pV: Vertex, notPV: Vertex) returns (child: GraphNode)
    requires pV in node.state && notPV in node.extra.vertices - node.state
    ensures child.state == Exchange(node.state, pV, notPV)
    ensures |child.state| == |node.state|
    ensures node.state <= node.extra.vertices ==> child.state <= node.extra.vertices
    ensures child.cost == CutSize(node.extra.edges, child.state) as real
    ensures child.parent == Some(node) && child.extra == node.extra
  {
    var p := node.state;
    p := p - {pV};
    p := p + {notPV};
    child := Node(p, Some(node), NoAction, CutSize(node.extra.edges, p) as real, node.extra);
    ExchangeKeepsSize(node.extra.vertices, node.state, pV, notPV);
  }

  // ---------------------------------------------------------------------
  // successors

  /** The neighbour as `successors` builds it: its cost is the cut of the parent's p. */
  function AsWrittenChild(node: GraphNode, a: Vertex, b: Vertex): GraphNode
  {
    Node(Exchange(node.state, a, b), Some(node), NoAction, CutSize(node.extra.edges, node.state) as real, node.extra)
  }

  /** The neighbour with the cost of its own partition: the as-written neighbour with only its cost changed. */
  function CorrectedChild(node: GraphNode, a: Vertex, b: Vertex): (child: GraphNode)
    ensures child.cost == CutSize(child.extra.edges, child.state) as real
    ensures child == AsWrittenChild(node, a, b).(cost := child.cost)
  {
    Node(Exchange(node.state, a, b), Some(node), NoAction, CutSize(node.extra.edges, Exchange(node.state, a, b)) as real, node.extra)
  }

  lemma CountStep(done: nat, total: nat, m: nat)
    requires done < total
    ensures (total - done - 1) * m + m == (total - done) * m
  {
  }

  /**
   * An arbitrary member of a non-empty set: the element a `for` loop over a
   * Python set visits next. The witness from `Member` is what lets the
   * verifier see that such an element exists.
   */
  method Draw(s: set<Vertex>) returns (v: Vertex)
    requires s != {}
    ensures v in s
  {
    ghost var member := Member(s);
    v :| v in s;
  }

  /**
   * The inner loop of `successors`: for the fixed member pV, one neighbour per
   * vertex outside p. `swaps[k]` records the exchange behind `batch[k]`.
   */
  method ExchangesOf(node: GraphNode, pV: Vertex) returns (batch: seq<GraphNode>, ghost swaps: seq<(Vertex, Vertex)>)
    ensures |batch| == |swaps| == |node.extra.vertices - node.state|
    ensures forall k :: 0 <= k < |swaps| ==>
      swaps[k].0 == pV && swaps[k].1 in node.extra.vertices - node.state &&
      batch[k] == AsWrittenChild(node, swaps[k].0, swaps[k].1)
    ensures forall b :: b in node.extra.vertices - node.state ==> (pV, b) in swaps
  {
    var p, edges := node.state, node.extra.edges;
    var notP := node.extra.vertices - p;
    batch, swaps := [], [];
    var inner := notP;
    while inner != {}
      invariant inner <= notP
      invariant |batch| == |swaps| == |notP| - |inner|
      invariant forall k :: 0 <= k < |swaps| ==>
        swaps[k].0 == pV && swaps[k].1 in notP - inner && batch[k] == AsWrittenChild(node, swaps[k].0, swaps[k].1)
      invariant forall b :: b in notP - inner ==> (pV, b) in swaps
      decreases |inner|
    {
      var notPV := Draw(inner);
      var newP := p;
      newP := newP - {pV};
      newP := newP + {notPV};
      batch := batch + [Node(newP, Some(node), NoAction, CutSize(edges, p) as real, node.extra)];
      swaps := swaps + [(pV, notPV)];
      inner := inner - {notPV};
    }
  }

  /**
   * `successors`: for each member pV of p and each vertex notPV outside it,
   * the exchange of the two. The iteration order of the sets is left open;
   * `swaps[k]` records the exchange behind `children[k]`.
   */
  method Successors(node: GraphNode) returns (children: seq<GraphNode>, ghost swaps: seq<(Vertex, Vertex)>)
    ensures |children| == |swaps| == |node.state| * |node.extra.vertices - node.state|
    ensures forall k :: 0 <= k < |swaps| ==>
      swaps[k].0 in node.state && swaps[k].1 in node.extra.vertices - node.state &&
      children[k] == AsWrittenChild(node, swaps[k].0, swaps[k].1)
    ensures forall a, b :: a in node.state && b in node.extra.vertices - node.state ==> AsWrittenChild(node, a, b) in children
    ensures forall a, b :: a in node.state && b in node.extra.vertices - node.state ==> (a, b) in swaps
    ensures forall k :: 0 <= k < |children| ==> children[k].cost == CutSize(node.extra.edges, node.state) as real
  {
    var p := node.state;
    var notP := node.extra.vertices - p;
    children, swaps := [], [];
    var outer := p;
    while outer != {}
      invariant outer <= p
      invariant |children| == |swaps| == (|p| - |outer|) * |notP|
      invariant forall k :: 0 <= k < |swaps| ==>
        swaps[k].0 in p && swaps[k].1 in notP && children[k] == AsWrittenChild(node, swaps[k].0, swaps[k].1)
      invariant forall a, b :: a in p - outer && b in notP ==> (a, b) in swaps
      decreases |outer|
    {
      var pV := Draw(outer);
      var batch, batchSwaps := ExchangesOf(node, pV);
      AppendExchanges(node, children, swaps, batch, batchSwaps);
      children, swaps := children + batch, swaps + batchSwaps;
      CountStep(|outer|, |p| + 1, |notP|);
      outer := outer - {pV};
    }
    AsWrittenCover(node, children, swaps);
  }

  /** Every recorded exchange has its neighbour in the list. */
  lemma AsWrittenCover(node: GraphNode, children: seq<GraphNode>, swaps: seq<(Vertex, Vertex)>)
    requires |children| == |swaps|
    requires forall k :: 0 <= k < |swaps| ==> children[k] == AsWrittenChild(node, swaps[k].0, swaps[k].1)
    requires forall a, b :: a in node.state && b in node.extra.vertices - node.state ==> (a, b) in swaps
    ensures forall a, b :: a in node.state && b in node.extra.vertices - node.state ==> AsWrittenChild(node, a, b) in children
  {
    forall a, b | a in node.state && b in node.extra.vertices - node.state
      ensures AsWrittenChild(node, a, b) in children
    {
      var j :| 0 <= j < |swaps| && swaps[j] == (a, b);
      assert children[j] == AsWrittenChild(node, a, b);
    }
  }

  /** Appending a batch keeps each neighbour at the index of its exchange. */
  lemma AppendExchanges(node: GraphNode, children: seq<GraphNode>, swaps: seq<(Vertex, Vertex)>,
                        batch: seq<GraphNode>, batchSwaps: seq<(Vertex, Vertex)>)
    requires |children| == |swaps| && |batch| == |batchSwaps|
    requires forall k :: 0 <= k < |swaps| ==> children[k] == AsWrittenChild(node, swaps[k].0, swaps[k].1)
    requires forall k :: 0 <= k < |batchSwaps| ==> batch[k] == AsWrittenChild(node, batchSwaps[k].0, batchSwaps[k].1)
    ensures forall k :: 0 <= k < |swaps + batchSwaps| ==>
      (children + batch)[k] == AsWrittenChild(node, (swaps + batchSwaps)[k].0, (swaps + batchSwaps)[k].1)
  {
    forall k | 0 <= k < |swaps + batchSwaps|
      ensures (children + batch)[k] == AsWrittenChild(node, (swaps + batchSwaps)[k].0, (swaps + batchSwaps)[k].1)
    {
      if k >= |swaps| {
        assert (children + batch)[k] == batch[k - |swaps|];
        assert (swaps + batchSwaps)[k] == batchSwaps[k - |swaps|];
      }
    }
  }

  /** Every neighbour keeps the size of p, and stays inside V when p does. */
  lemma SuccessorsKeepSize(node: GraphNode, a: Vertex, b: Vertex)
    requires a in node.state && b in node.extra.vertices - node.state
    ensures |AsWrittenChild(node, a, b).state| == |node.state|
    ensures node.state <= node.extra.vertices ==> AsWrittenChild(node, a, b).state <= node.extra.vertices
  {
    ExchangeKeepsSize(node.extra.vertices, node.state, a, b);
  }

  /**
   * As written, a neighbour's cost can differ from the cut of its own
   * partition: V = {0, 1, 2}, E = [(0, 1)], p = {0}; exchanging 0 for 2 gives
   * {2}, which cuts no edge, yet the neighbour carries cost 1.
   */
  lemma ParentCostCounterexample()
    ensures var node := Node({0}, None, NoAction, 1.0, GraphExtra({0, 1, 2}, [(0, 1)]));
      var child := AsWrittenChild(node, 0, 2);
      child.state == {2} && child.cost == 1.0 && CutSize(node.extra.edges, child.state) == 0
  {
    var edges: seq<Edge> := [(0, 1)];
    assert Exchange({0}, 0, 2) == {2};
    assert Crosses(edges[0], {0});
    assert !Crosses(edges[0], {2});
    assert edges[1..] == [];
  }

  /**
   * The successors with each neighbour costed by its own partition: the same
   * exchanges at the same indices, only the costs differ.
   */
  method CorrectedSuccessors(node: GraphNode) returns (children: seq<GraphNode>, ghost swaps: seq<(Vertex, Vertex)>)
    ensures |children| == |swaps| == |node.state| * |node.extra.vertices - node.state|
    ensures forall k :: 0 <= k < |swaps| ==>
      swaps[k].0 in node.state && swaps[k].1 in node.extra.vertices - node.state &&
      children[k] == CorrectedChild(node, swaps[k].0, swaps[k].1)
    ensures forall a, b :: a in node.state && b in node.extra.vertices - node.state ==> CorrectedChild(node, a, b) in children
    ensures forall k :: 0 <= k < |children| ==> children[k].cost == CutSize(node.extra.edges, children[k].state) as real
  {
    var asWritten;
    asWritten, swaps := Successors(node);
    children := [];
    var k := 0;
    while k < |asWritten|
      invariant 0 <= k <= |asWritten|
      invariant |children| == k
      invariant forall j :: 0 <= j < k ==> children[j] == CorrectedChild(node, swaps[j].0, swaps[j].1)
    {
      var c := asWritten[k];
      Recosted(node, c, swaps[k].0, swaps[k].1);
      children := children + [c.(cost := CutSize(node.extra.edges, c.state) as real)];
      k := k + 1;
    }
    CorrectedCover(node, children, swaps);
  }

  /** Recosting an as-written neighbour by its own cut gives the corrected neighbour. */
  lemma Recosted(node: GraphNode, c: GraphNode, a: Vertex, b: Vertex)
    requires c == AsWrittenChild(node, a, b)
    ensures c.(cost := CutSize(node.extra.edges, c.state) as real) == CorrectedChild(node, a, b)
  {
  }

  /** When every exchange is recorded, every corrected neighbour is present. */
  lemma CorrectedCover(node: GraphNode, children: seq<GraphNode>, swaps: seq<(Vertex, Vertex)>)
    requires |children| == |swaps|
    requires forall k :: 0 <= k < |swaps| ==> children[k] == CorrectedChild(node, swaps[k].0, swaps[k].1)
    requires forall a, b :: a in node.state && b in node.extra.vertices - node.state ==> (a, b) in swaps
    ensures forall a, b :: a in node.state && b in node.extra.vertices - node.state ==> CorrectedChild(node, a, b) in children
  {
    forall a, b | a in node.state && b in node.extra.vertices - node.state
      ensures CorrectedChild(node, a, b) in children
    {
      var j :| 0 <= j < |swaps| && swaps[j] == (a, b);
      assert children[j] == CorrectedChild(node, a, b);
    }
  }

  // ---------------------------------------------------------------------
  // random_partition, random_node, node_value, goal_test

  /** `list(V)`: the vertices in some order. */
  method ListOf(vertices: set<Vertex>) returns (listed: seq<Vertex>)
    ensures Distinct(listed) && |listed| == |vertices|
    ensures forall v :: v in listed <==> v in vertices
  {
    listed := [];
    var rest := vertices;
    while rest != {}
      invariant rest <= vertices
      invariant Distinct(listed) && |listed| + |rest| == |vertices|
      invariant forall v :: v in listed <==> v in vertices - rest
      decreases |rest|
    {
      var v := Draw(rest);
      assert v !in listed;
      listed := listed + [v];
      rest := rest - {v};
    }
  }

  /** `random_partition(V)`: the first half of a shuffled list of the vertices. */
  method RandomPartition(vertices: set<Vertex>) returns (p: set<Vertex>)
    ensures p <= vertices && |p| == |vertices| / 2
  {
    var listed := ListOf(vertices);
    var cells := new Vertex[|listed|](k requires 0 <= k < |listed| => listed[k]);
    assert cells[..] == listed;
    Randomness.Shuffle(cells);
    var half := cells[..cells.Length / 2];
    p := set v | v in half;
    assert Distinct(half);
    DistinctCard(half);
    assert Elements(half) == p;
    forall v | v in p ensures v in vertices {
      assert v in multiset(cells[..]);
    }
  }

  /** `random_node`: a random half of the vertices, costed by its cut. */
  method RandomNode(initial: GraphNode) returns (node: GraphNode)
    ensures node.state <= initial.extra.vertices && |node.state| == |initial.extra.vertices| / 2
    ensures node.cost == CutSize(initial.extra.edges, node.state) as real
    ensures node.parent.None? && node.extra == initial.extra
  {
    var p := RandomPartition(initial.extra.vertices);
    node := Node(p, None, NoAction, CutSize(initial.extra.edges, p) as real, initial.extra);
  }

  /** `node_value`: the node cost itself, so the search is greedy. */
  function NodeValue(node: GraphNode): (v: real)
    ensures v == node.cost
  {
    node.cost
  }

  /** `goal_test`: the search never terminates early. */
  function GoalTest(node: GraphNode): (goal: bool)
    ensures !goal
  {
    false
  }
}

/**
 The directed weighted graph the solvers read: a networkx `DiGraph` with
 an optional `weight` attribute on every edge.  `nodes` is the graph's node
 order (`G.nodes()`), `succ[u]` the successor list of `u` (`G[u]`) in edge
 insertion order.
 */
module Graphs {
  import opened Sums
  import opened Common

  /** An edge to `dst`; `weight` is `None` when the edge has no `weight` attribute. */
  datatype Edge = Edge(dst: Node, weight: Option<real>)

  datatype Graph = Graph(nodes: seq<Node>, succ: map<Node, seq<Edge>>)

  function Targets(es: seq<Edge>): (r: seq<Node>)
    ensures |r| == |es|
    ensures forall i :: 0 <= i < |es| ==> r[i] == es[i].dst
  {
    seq(|es|, i requires 0 <= i < |es| => es[i].dst)
  }

  /**
   What every `DiGraph` satisfies: no node twice, an adjacency entry for
   every node and only for nodes, at most one edge per ordered pair, and
   every edge target a node.
   */
  ghost predicate Valid(g: Graph)
  {
    && Distinct(g.nodes)
    && (forall u :: u in g.succ <==> u in g.nodes)
    && (forall u :: u in g.succ ==> Distinct(Targets(g.succ[u])))
    && (forall u, v :: HasEdge(g, u, v) ==> v in g.nodes)
  }

  predicate HasEdge(g: Graph, u: Node, v: Node)
  {
    u in g.succ && v in Targets(g.succ[u])
  }

  /** `e.get('weight', dflt)` on the edge's attribute dict. */
  function WeightOr(e: Edge, dflt: real): real
  {
    match e.weight
    case Some(w) => w
    case None => dflt
  }

  /** `sum(G[u][k].get('weight', dflt) for k in G.successors(u))` for `es == G[u]`. */
  function OutWeight(es: seq<Edge>, dflt: real): real
  {
    SumOf(es, WeightFn(dflt))
  }

  function WeightFn(dflt: real): Edge -> real
  {
    e => WeightOr(e, dflt)
  }

  /** `G.predecessors(v)`, listed in node order. */
  function Preds(g: Graph, v: Node): seq<Node>
  {
    Filter(g.nodes, u => HasEdge(g, u, v))
  }

  /** The predecessors of `v` are exactly the nodes with an edge to `v`. */
  lemma PredsMembers(g: Graph, v: Node)
    ensures forall u :: u in Preds(g, v) <==> u in g.nodes && HasEdge(g, u, v)
  {
    FilterMembers(g.nodes, u => HasEdge(g, u, v));
  }

  /** `G.out_degree(u)`: the number of successors. */
  function OutDegree(g: Graph, u: Node): nat
  {
    if u in g.succ then |g.succ[u]| else 0
  }

  lemma PredsDistinct(g: Graph, v: Node)
    requires Valid(g)
    ensures Distinct(Preds(g, v))
  {
    FilterDistinct(g.nodes, u => HasEdge(g, u, v));
  }

  /** The targets of a row are distinct nodes. */
  lemma RowTargets(g: Graph, u: Node)
    requires Valid(g)
    ensures Distinct(Targets(Row(g, u)))
    ensures forall t :: t in Targets(Row(g, u)) ==> t in g.nodes
  {
    assert forall t :: t in Targets(Row(g, u)) ==> HasEdge(g, u, t);
  }

  /** A predecessor always has at least one outgoing edge. */
  lemma PredHasOutEdge(g: Graph, u: Node, v: Node)
    requires u in Preds(g, v)
    ensures OutDegree(g, u) > 0
  {
    PredsMembers(g, v);
  }

  // ---------------------------------------------------------------------
  // Building a graph with `add_edge`

  /** Appends `x` to `order` unless it is already there. */
  function AppendNew(order: seq<Node>, x: Node): seq<Node>
  {
    if x in order then order else order + [x]
  }

  /** Sets the weight of edge `v` in an adjacency list, appending the edge if it is new. */
  function SetEdge(es: seq<Edge>, v: Node, w: real): seq<Edge>
    decreases |es|
  {
    if |es| == 0 then [Edge(v, Some(w))]
    else if es[0].dst == v then [Edge(v, Some(w))] + es[1..]
    else [es[0]] + SetEdge(es[1..], v, w)
  }

  lemma {:induction false} SetEdgeNew(es: seq<Edge>, v: Node, w: real)
    requires v !in Targets(es)
    ensures SetEdge(es, v, w) == es + [Edge(v, Some(w))]
    decreases |es|
  {
    if |es| > 0 {
      assert es[0].dst == Targets(es)[0];
      assert Targets(es[1..]) == Targets(es)[1..];
      SetEdgeNew(es[1..], v, w);
      assert es == [es[0]] + es[1..];
    }
  }

  /** `G[u]`, or no edges when `u` is not a node. */
  function Row(g: Graph, u: Node): seq<Edge>
  {
    if u in g.succ then g.succ[u] else []
  }

  /** `G.add_node(x)` for a node not yet present; a no-op otherwise. */
  function AddNode(g: Graph, x: Node): Graph
  {
    if x in g.succ then g else Graph(g.nodes + [x], g.succ[x := []])
  }

  /**
   `G.add_edge(u, v, weight=w)`: adds the endpoints that are new (first
   `u`, then `v`) and sets the edge's weight attribute.
   */
  function AddEdge(g: Graph, u: Node, v: Node, w: real): Graph
  {
    var g1 := AddNode(AddNode(g, u), v);
    Graph(g1.nodes, g1.succ[u := SetEdge(g1.succ[u], v, w)])
  }

  lemma AppendNewDistinct(order: seq<Node>, x: Node)
    requires Distinct(order)
    ensures Distinct(AppendNew(order, x))
    ensures forall y :: y in AppendNew(order, x) <==> y in order || y == x
  {
    if x !in order {
      assert (order + [x])[..|order|] == order;
    }
  }

  lemma TargetsSnoc(es: seq<Edge>, e: Edge)
    ensures Targets(es + [e]) == Targets(es) + [e.dst]
  {
  }

  /** `add_node` keeps the graph well formed and adds no edge. */
  lemma AddNodeValid(g: Graph, x: Node)
    requires Valid(g)
    ensures Valid(AddNode(g, x))
    ensures AddNode(g, x).nodes == AppendNew(g.nodes, x)
    ensures forall y :: Row(AddNode(g, x), y) == Row(g, y)
    ensures forall y, z :: HasEdge(AddNode(g, x), y, z) <==> HasEdge(g, y, z)
  {
    AppendNewDistinct(g.nodes, x);
    var r := AddNode(g, x);
    assert forall u :: u in r.succ ==> Distinct(Targets(r.succ[u])) by {
      assert Targets([]) == [];
    }
    assert forall y, z :: HasEdge(r, y, z) ==> HasEdge(g, y, z);
  }

  /** Appending a new edge between two existing nodes keeps the graph well formed. */
  lemma AppendEdgeValid(g: Graph, u: Node, v: Node, w: real)
    requires Valid(g) && u in g.nodes && v in g.nodes && !HasEdge(g, u, v)
    ensures var r := Graph(g.nodes, g.succ[u := g.succ[u] + [Edge(v, Some(w))]]);
      Valid(r) && forall x, y :: HasEdge(r, x, y) <==> HasEdge(g, x, y) || (x == u && y == v)
  {
    var es := g.succ[u];
    var e := Edge(v, Some(w));
    TargetsSnoc(es, e);
    assert Targets(es + [e])[..|es|] == Targets(es);
    var r := Graph(g.nodes, g.succ[u := es + [e]]);
    assert forall y :: y in Targets(es + [e]) <==> y in Targets(es) || y == v;
    forall x, y ensures HasEdge(r, x, y) <==> HasEdge(g, x, y) || (x == u && y == v) {
    }
  }

  /**
   Adding an edge that is not there yet keeps the graph well formed, adds
   the endpoints that are new (first `u`, then `v`) and adds just that edge.
   */
  lemma AddEdgeFresh(g: Graph, u: Node, v: Node, w: real)
    requires Valid(g) && !HasEdge(g, u, v)
    ensures Valid(AddEdge(g, u, v, w))
    ensures AddEdge(g, u, v, w).nodes == AppendNew(AppendNew(g.nodes, u), v)
    ensures forall x, y :: HasEdge(AddEdge(g, u, v, w), x, y) <==> HasEdge(g, x, y) || (x == u && y == v)
  {
    var g0 := AddNode(g, u);
    AddNodeValid(g, u);
    var g1 := AddNode(g0, v);
    AddNodeValid(g0, v);
    SetEdgeNew(g1.succ[u], v, w);
    AppendEdgeValid(g1, u, v, w);
  }

  /** Adding a new edge appends it to `u`'s list and leaves every other list as it was (a new node's empty). */
  lemma AddEdgeRows(g: Graph, u: Node, v: Node, w: real)
    requires v !in Targets(Row(g, u))
    ensures Row(AddEdge(g, u, v, w), u) == Row(g, u) + [Edge(v, Some(w))]
    ensures forall x :: x != u ==> Row(AddEdge(g, u, v, w), x) == Row(g, x)
  {
    var g1 := AddNode(AddNode(g, u), v);
    assert g1.succ[u] == Row(g, u);
    SetEdgeNew(g1.succ[u], v, w);
  }

  /** The empty `nx.DiGraph()`. */
  function EmptyGraph(): (g: Graph)
    ensures Valid(g)
  {
    Graph([], map[])
  }
}

/**
 `PageRankOri`: the classic PageRank.  The input graph is first rebuilt with
 every node's out-weights normalised to sum to 1; rank then flows from each
 predecessor in equal parts over its out-edges, and every node gets the
 uniform restart term `(1 - d) / n`.  The walk starts from the uniform
 vector over the rebuilt graph's nodes.
 */
module PageRankOri {
  import opened Sums
  import opened Common
  import opened Graphs
  import opened Ranking
  import opened Iteration

  const CONV_THRESHOLD: real := 0.000001

  // ---------------------------------------------------------------------
  // `__normalize_graph__`

  /** `total_weight` of `u`: its out-weights summed, an edge without a weight counting as 1. */
  function RowTotal(g: Graph, u: Node): real
  {
    OutWeight(Row(g, u), 1.0)
  }

  /** `normalized_weight` of an edge of a node whose out-weights total `total`. */
  function NormWeight(e: Edge, total: real): real
  {
    if total != 0.0 then WeightOr(e, 1.0) / total else 0.0
  }

  /** The edge as `G_normalized` holds it. */
  function NormEdge(e: Edge, total: real): Edge
  {
    Edge(e.dst, Some(NormWeight(e, total)))
  }

  /** A successor list with every weight normalised, in its original order. */
  function NormRow(es: seq<Edge>, total: real): seq<Edge>
    decreases |es|
  {
    if |es| == 0 then [] else NormRow(es[..|es| - 1], total) + [NormEdge(es[|es| - 1], total)]
  }

  /** `h` after the inner loop's `add_edge(u, e.dst, weight=...)` for the edges `es` of `u`, in order. */
  function AddRow(h: Graph, u: Node, es: seq<Edge>, total: real): Graph
    decreases |es|
  {
    if |es| == 0 then h
    else
      var e := es[|es| - 1];
      AddEdge(AddRow(h, u, es[..|es| - 1], total), u, e.dst, NormWeight(e, total))
  }

  /** `h` after the outer loop has visited the nodes `us`, in order. */
  function AddRows(h: Graph, g: Graph, us: seq<Node>): Graph
    decreases |us|
  {
    if |us| == 0 then h
    else
      var u := us[|us| - 1];
      AddRow(AddRows(h, g, us[..|us| - 1]), u, Row(g, u), RowTotal(g, u))
  }

  /** The graph `__normalize_graph__(G)` returns. */
  function NormalizedGraph(g: Graph): Graph
  {
    AddRows(EmptyGraph(), g, g.nodes)
  }

  lemma AddRowSnoc(h: Graph, u: Node, es: seq<Edge>, j: nat, total: real)
    requires j < |es|
    ensures AddRow(h, u, es[..j + 1], total) == AddEdge(AddRow(h, u, es[..j], total), u, es[j].dst, NormWeight(es[j], total))
  {
    assert es[..j + 1][..j] == es[..j];
  }

  lemma AddRowsSnoc(g: Graph, i: nat)
    requires i < |g.nodes|
    ensures var u := g.nodes[i];
      AddRows(EmptyGraph(), g, g.nodes[..i + 1]) == AddRow(AddRows(EmptyGraph(), g, g.nodes[..i]), u, Row(g, u), RowTotal(g, u))
  {
    assert g.nodes[..i + 1][..i] == g.nodes[..i];
  }

  method NormalizeGraph(g: Graph) returns (gn: Graph)
    ensures gn == NormalizedGraph(g)
  {
    gn := EmptyGraph();
    var i := 0;
    while i < |g.nodes|
      invariant 0 <= i <= |g.nodes|
      invariant gn == AddRows(EmptyGraph(), g, g.nodes[..i])
    {
      var u := g.nodes[i];
      var es := Row(g, u);
      var total := OutWeight(es, 1.0);
      ghost var h := gn;
      var j := 0;
      while j < |es|
        invariant 0 <= j <= |es|
        invariant gn == AddRow(h, u, es[..j], total)
      {
        var e := es[j];
        var w: real;
        if total != 0.0 {
          w := WeightOr(e, 1.0) / total;
        } else {
          w := 0.0;
        }
        AddRowSnoc(h, u, es, j, total);
        gn := AddEdge(gn, u, e.dst, w);
        j := j + 1;
      }
      assert es[..j] == es;
      AddRowsSnoc(g, i);
      i := i + 1;
    }
    assert g.nodes[..i] == g.nodes;
  }

  // What the rebuilt graph holds

  lemma {:induction false} NormRowAt(es: seq<Edge>, total: real)
    ensures |NormRow(es, total)| == |es|
    ensures forall i :: 0 <= i < |es| ==> NormRow(es, total)[i] == NormEdge(es[i], total)
    decreases |es|
  {
    if |es| > 0 {
      NormRowAt(es[..|es| - 1], total);
    }
  }

  lemma NormRowTargets(es: seq<Edge>, total: real)
    ensures Targets(NormRow(es, total)) == Targets(es)
  {
    NormRowAt(es, total);
  }

  lemma HasEdgeRow(g: Graph, u: Node, v: Node)
    ensures HasEdge(g, u, v) <==> v in Targets(Row(g, u))
  {
  }

  /** `u` has an edge in or out. */
  ghost predicate Incident(h: Graph, u: Node)
  {
    exists v :: HasEdge(h, u, v) || HasEdge(h, v, u)
  }

  /** The row `x` is to have once the nodes `us` are done. */
  function DoneRow(g: Graph, us: seq<Node>, x: Node): seq<Edge>
  {
    if x in us then NormRow(Row(g, x), RowTotal(g, x)) else []
  }

  /** `h` after the outer loop has visited the nodes `us`. */
  ghost predicate BuiltRows(g: Graph, h: Graph, us: seq<Node>)
  {
    && Valid(h)
    && (forall x :: Row(h, x) == DoneRow(g, us, x))
    && (forall x :: x in h.succ ==> Incident(h, x))
  }

  /** `h` after the nodes `us` and the first `j` edges of `u`. */
  ghost predicate BuiltRow(g: Graph, h: Graph, us: seq<Node>, u: Node, j: nat)
  {
    && Valid(h)
    && u !in us && j <= |Row(g, u)|
    && (forall x :: x != u ==> Row(h, x) == DoneRow(g, us, x))
    && Row(h, u) == NormRow(Row(g, u)[..j], RowTotal(g, u))
    && (forall x :: x in h.succ ==> Incident(h, x))
  }

  /** The inner loop's next edge is not in the rebuilt graph yet: `G[u]` has no repeated target. */
  lemma NextEdgeFresh(g: Graph, h: Graph, u: Node, j: nat)
    requires Valid(g) && j < |Row(g, u)|
    requires Row(h, u) == NormRow(Row(g, u)[..j], RowTotal(g, u))
    ensures Row(g, u)[j].dst !in Targets(Row(h, u))
  {
    var es := Row(g, u);
    NormRowTargets(es[..j], RowTotal(g, u));
    assert Targets(es[..j]) == Targets(es)[..j];
    DistinctIndices(Targets(es));
    assert Targets(es)[j] == es[j].dst;
  }

  /** Adding an edge keeps every node incident to some edge. */
  lemma AddEdgeIncident(h: Graph, u: Node, v: Node, w: real)
    requires Valid(h) && !HasEdge(h, u, v)
    requires forall x :: x in h.succ ==> Incident(h, x)
    ensures forall x :: x in AddEdge(h, u, v, w).succ ==> Incident(AddEdge(h, u, v, w), x)
  {
    var h' := AddEdge(h, u, v, w);
    AddEdgeFresh(h, u, v, w);
    assert HasEdge(h', u, v);
    forall x | x in h'.succ ensures Incident(h', x) {
      if x in h.succ {
        var y :| HasEdge(h, x, y) || HasEdge(h, y, x);
        assert HasEdge(h', x, y) || HasEdge(h', y, x);
      } else {
        assert x in h'.nodes;
        assert x == u || x == v;
      }
    }
  }

  /** One `add_edge` of the inner loop. */
  lemma BuiltRowStep(g: Graph, h: Graph, us: seq<Node>, u: Node, j: nat)
    requires Valid(g) && BuiltRow(g, h, us, u, j) && j < |Row(g, u)|
    ensures var e := Row(g, u)[j];
      BuiltRow(g, AddEdge(h, u, e.dst, NormWeight(e, RowTotal(g, u))), us, u, j + 1)
  {
    var es := Row(g, u);
    var total := RowTotal(g, u);
    var e := es[j];
    NextEdgeFresh(g, h, u, j);
    HasEdgeRow(h, u, e.dst);
    AddEdgeFresh(h, u, e.dst, NormWeight(e, total));
    AddEdgeRows(h, u, e.dst, NormWeight(e, total));
    AddEdgeIncident(h, u, e.dst, NormWeight(e, total));
    NormRowSnoc(es, j, total);
  }

  lemma NormRowSnoc(es: seq<Edge>, j: nat, total: real)
    requires j < |es|
    ensures NormRow(es[..j + 1], total) == NormRow(es[..j], total) + [NormEdge(es[j], total)]
  {
    assert es[..j + 1][..j] == es[..j];
  }

  /** The inner loop adds the first `j` edges of `u`. */
  lemma {:induction false} AddRowBuilt(g: Graph, h: Graph, us: seq<Node>, u: Node, j: nat)
    requires Valid(g) && BuiltRow(g, h, us, u, 0) && j <= |Row(g, u)|
    ensures BuiltRow(g, AddRow(h, u, Row(g, u)[..j], RowTotal(g, u)), us, u, j)
    decreases j
  {
    if j > 0 {
      var es := Row(g, u);
      AddRowBuilt(g, h, us, u, j - 1);
      assert es[..j][..j - 1] == es[..j - 1];
      BuiltRowStep(g, AddRow(h, u, es[..j - 1], RowTotal(g, u)), us, u, j - 1);
    }
  }

  /** The outer loop visits the nodes `us` without repeats. */
  lemma {:induction false} AddRowsBuilt(g: Graph, us: seq<Node>)
    requires Valid(g) && Distinct(us)
    ensures BuiltRows(g, AddRows(EmptyGraph(), g, us), us)
    decreases |us|
  {
    if |us| > 0 {
      var us' := us[..|us| - 1];
      var u := us[|us| - 1];
      AddRowsBuilt(g, us');
      var h := AddRows(EmptyGraph(), g, us');
      assert BuiltRow(g, h, us', u, 0);
      AddRowBuilt(g, h, us', u, |Row(g, u)|);
      assert Row(g, u)[..|Row(g, u)|] == Row(g, u);
      assert forall x :: x in us <==> x in us' || x == u;
    }
  }

  /**
   The rebuilt graph is well formed, has the same edges as `G` in the same
   order with normalised weights, and has exactly the nodes of `G` that
   have an edge: isolated nodes are dropped.
   */
  lemma NormalizedGraphCorrect(g: Graph)
    requires Valid(g)
    ensures Valid(NormalizedGraph(g))
    ensures forall x :: Row(NormalizedGraph(g), x) == NormRow(Row(g, x), RowTotal(g, x))
    ensures forall u, v :: HasEdge(NormalizedGraph(g), u, v) <==> HasEdge(g, u, v)
    ensures forall x :: x in NormalizedGraph(g).nodes <==> Incident(g, x)
  {
    var n := NormalizedGraph(g);
    AddRowsBuilt(g, g.nodes);
    forall x ensures Row(n, x) == NormRow(Row(g, x), RowTotal(g, x)) {
      if x !in g.nodes {
        assert Row(g, x) == [];
      }
    }
    forall u, v ensures HasEdge(n, u, v) <==> HasEdge(g, u, v) {
      HasEdgeRow(n, u, v);
      HasEdgeRow(g, u, v);
      NormRowTargets(Row(g, u), RowTotal(g, u));
    }
    forall x ensures x in n.nodes <==> Incident(g, x) {
      if x in n.nodes {
        assert Incident(n, x);
        var y :| HasEdge(n, x, y) || HasEdge(n, y, x);
        assert HasEdge(g, x, y) || HasEdge(g, y, x);
      }
      if Incident(g, x) {
        var y :| HasEdge(g, x, y) || HasEdge(g, y, x);
        assert HasEdge(n, x, y) || HasEdge(n, y, x);
      }
    }
  }

  function NormWeightFn(total: real): Edge -> real
  {
    e => NormWeight(e, total)
  }

  /** Every normalised edge carries a weight, so the default no longer matters. */
  lemma {:induction false} NormRowWeights(es: seq<Edge>, total: real, dflt: real)
    ensures OutWeight(NormRow(es, total), dflt) == SumOf(es, NormWeightFn(total))
    decreases |es|
  {
    if |es| > 0 {
      var init := es[..|es| - 1];
      NormRowWeights(init, total, dflt);
      var r := NormRow(es, total);
      assert r[..|r| - 1] == NormRow(init, total);
    }
  }

  /** Normalising a list by its own total makes its weights sum to 1, or to 0 when that total is 0. */
  lemma NormRowTotal(es: seq<Edge>, dflt: real)
    ensures OutWeight(NormRow(es, OutWeight(es, 1.0)), dflt) == if OutWeight(es, 1.0) != 0.0 then 1.0 else 0.0
  {
    var total := OutWeight(es, 1.0);
    NormRowWeights(es, total, dflt);
    if total != 0.0 {
      SumOfScale(es, 1.0 / total, WeightFn(1.0), NormWeightFn(total));
    } else {
      SumOfConst(es, 0.0, NormWeightFn(total));
    }
  }

  /**
   After normalisation the out-weights of a node sum to 1 when its total in
   `G` is non-zero, and to 0 otherwise (every weight is then 0).
   */
  lemma NormalizedOutWeight(g: Graph, u: Node, dflt: real)
    requires Valid(g)
    ensures OutWeight(Row(NormalizedGraph(g), u), dflt) == if RowTotal(g, u) != 0.0 then 1.0 else 0.0
  {
    NormalizedGraphCorrect(g);
    NormRowTotal(Row(g, u), dflt);
  }

  // ---------------------------------------------------------------------
  // `__compute_next_page_rank__`

  /** What predecessor `j` passes on: `d * p_t[j] / out_degree(j)`, nothing when `j` has no out-edge. */
  function OriShare(g: Graph, d: real, pt: Dict, j: Node): real
  {
    var od := OutDegree(g, j);
    if od > 0 then d * (pt.Get(j, 0.0) / od as real) else 0.0
  }

  function OriShareFn(g: Graph, d: real, pt: Dict): Node -> real
  {
    j => OriShare(g, d, pt, j)
  }

  /** The propagated part of `i`'s next rank: the shares of its predecessors. */
  function OriInflow(g: Graph, d: real, pt: Dict, i: Node): real
  {
    SumOf(Preds(g, i), OriShareFn(g, d, pt))
  }

  /** `i`'s next rank: the uniform restart term `(1 - d) / len(p_t)` plus the propagated part. */
  function OriNextRank(g: Graph, d: real, pt: Dict, i: Node): real
    requires |pt.keys| > 0
  {
    (1.0 - d) / (|pt.keys| as real) + OriInflow(g, d, pt, i)
  }

  /** `next_p_t` after the keys `vs` of `p_t` have been visited. */
  function OriNextVals(g: Graph, d: real, pt: Dict, vs: seq<Node>): map<Node, real>
    requires |vs| == 0 || |pt.keys| > 0
    decreases |vs|
  {
    if |vs| == 0 then map[]
    else
      var i := vs[|vs| - 1];
      OriNextVals(g, d, pt, vs[..|vs| - 1])[i := OriNextRank(g, d, pt, i)]
  }

  lemma {:induction false} OriNextValsAt(g: Graph, d: real, pt: Dict, vs: seq<Node>)
    requires |vs| == 0 || |pt.keys| > 0
    ensures forall i :: i in OriNextVals(g, d, pt, vs) <==> i in vs
    ensures forall i :: i in OriNextVals(g, d, pt, vs) ==> OriNextVals(g, d, pt, vs)[i] == OriNextRank(g, d, pt, i)
    decreases |vs|
  {
    if |vs| > 0 {
      var init := vs[..|vs| - 1];
      OriNextValsAt(g, d, pt, init);
      assert forall i :: i in vs <==> i in init || i == vs[|vs| - 1];
    }
  }

  /** The vector one step produces: an entry per key of `p_t`, in `p_t`'s order. */
  function OriStepSpec(g: Graph, d: real, pt: Dict): Dict
  {
    Dict(pt.keys, OriNextVals(g, d, pt, pt.keys))
  }

  /** The next vector has the keys of `p_t`, in the same order, and the entry of `i` is its next rank. */
  lemma OriStepSpecCorrect(g: Graph, d: real, pt: Dict)
    requires pt.Valid()
    ensures OriStepSpec(g, d, pt).Valid()
    ensures OriStepSpec(g, d, pt).keys == pt.keys
    ensures forall i :: i in pt.vals ==> OriStepSpec(g, d, pt).vals[i] == OriNextRank(g, d, pt, i)
  {
    OriNextValsAt(g, d, pt, pt.keys);
  }

  /** The `out_degree_j > 0` guard never fails: every predecessor has an out-edge, so it passes on `d * p_t[j] / out_degree(j)`. */
  lemma OriShareOfPred(g: Graph, d: real, pt: Dict, i: Node, j: Node)
    requires j in Preds(g, i)
    ensures OutDegree(g, j) > 0
    ensures OriShare(g, d, pt, j) == d * (pt.Get(j, 0.0) / OutDegree(g, j) as real)
  {
    PredHasOutEdge(g, j, i);
  }

  // ---------------------------------------------------------------------
  // What the step raises

  /** `p_t[j]` is read (the guard `out_degree_j > 0` holds) but `p_t` has no entry for `j`. */
  predicate OriMissingRank(g: Graph, pt: Dict, j: Node)
  {
    OutDegree(g, j) > 0 && j !in pt.vals
  }

  /** The first of `us` whose rank lookup fails. */
  function FirstOriMissingPred(g: Graph, pt: Dict, us: seq<Node>): Option<Node>
    decreases |us|
  {
    if |us| == 0 then None
    else if OriMissingRank(g, pt, us[0]) then Some(us[0])
    else FirstOriMissingPred(g, pt, us[1..])
  }

  /** `FirstOriMissingPred` finds a failing lookup among `us` exactly when there is one, and it is the first. */
  lemma {:induction false} FirstOriMissingPredCorrect(g: Graph, pt: Dict, us: seq<Node>)
    ensures FirstOriMissingPred(g, pt, us).None? <==> forall u :: u in us ==> !OriMissingRank(g, pt, u)
    ensures FirstOriMissingPred(g, pt, us).Some? ==>
      exists k :: 0 <= k < |us| && us[k] == FirstOriMissingPred(g, pt, us).value &&
        OriMissingRank(g, pt, us[k]) && forall m :: 0 <= m < k ==> !OriMissingRank(g, pt, us[m])
    decreases |us|
  {
    if |us| > 0 && !OriMissingRank(g, pt, us[0]) {
      FirstOriMissingPredCorrect(g, pt, us[1..]);
      assert forall u :: u in us <==> u == us[0] || u in us[1..];
      if FirstOriMissingPred(g, pt, us[1..]).Some? {
        var k :| 0 <= k < |us[1..]| && us[1..][k] == FirstOriMissingPred(g, pt, us[1..]).value &&
          OriMissingRank(g, pt, us[1..][k]) && forall m :: 0 <= m < k ==> !OriMissingRank(g, pt, us[1..][m]);
        assert us[k + 1] == us[1..][k];
        assert forall m :: 0 < m < k + 1 ==> us[m] == us[1..][m - 1];
      }
    }
  }

  /**
   The first exception in the step's visiting order: for each key `i` of
   `p_t` in turn, `G.predecessors(i)` fails when `i` is not a node of the
   graph, then the rank lookups of `i`'s predecessors in turn.
   */
  function FirstOriFault(g: Graph, pt: Dict, vs: seq<Node>): Option<Error>
    decreases |vs|
  {
    if |vs| == 0 then None
    else if vs[0] !in g.succ then Some(NotInGraph(vs[0]))
    else match FirstOriMissingPred(g, pt, Preds(g, vs[0]))
      case Some(u) => Some(KeyError(u))
      case None => FirstOriFault(g, pt, vs[1..])
  }

  /** `FirstOriFault` finds an exception exactly when one of `vs` is no node or has a predecessor without a rank. */
  lemma {:induction false} FirstOriFaultCorrect(g: Graph, pt: Dict, vs: seq<Node>)
    ensures FirstOriFault(g, pt, vs).None? <==>
      forall i :: i in vs ==> i in g.succ && forall u :: u in Preds(g, i) ==> !OriMissingRank(g, pt, u)
    ensures FirstOriFault(g, pt, vs).Some? ==> var e := FirstOriFault(g, pt, vs).value;
      || (e.NotInGraph? && e.key in vs && e.key !in g.succ)
      || (e.KeyError? && OriMissingRank(g, pt, e.key) && exists i :: i in vs && e.key in Preds(g, i))
    decreases |vs|
  {
    if |vs| > 0 && vs[0] in g.succ {
      FirstOriMissingPredCorrect(g, pt, Preds(g, vs[0]));
      if FirstOriMissingPred(g, pt, Preds(g, vs[0])).None? {
        FirstOriFaultCorrect(g, pt, vs[1..]);
        assert forall i :: i in vs <==> i == vs[0] || i in vs[1..];
      }
    }
  }

  /** What `__compute_next_page_rank__(p_t)` returns or raises. */
  function OriStepResult(g: Graph, d: real, pt: Dict): Result<Dict>
  {
    match FirstOriFault(g, pt, pt.keys)
    case Some(e) => Err(e)
    case None => Ok(OriStepSpec(g, d, pt))
  }

  /** What the step reads without raising: every key of `p_t` is a node, and every predecessor of a key is a key. */
  ghost predicate Steppable(g: Graph, pt: Dict)
  {
    && (forall i :: i in pt.vals ==> i in g.nodes)
    && (forall i, j :: i in pt.vals && HasEdge(g, j, i) ==> j in pt.vals)
  }

  /**
   The step raises exactly when `p_t` has a key that is no node (NetworkXError)
   or a key with a predecessor that has no rank (KeyError).
   */
  lemma OriStepFailsIff(g: Graph, d: real, pt: Dict)
    requires Valid(g) && pt.Valid()
    ensures OriStepResult(g, d, pt).Ok? <==> Steppable(g, pt)
    ensures OriStepResult(g, d, pt).Err? ==> var e := OriStepResult(g, d, pt).error;
      || (e.NotInGraph? && e.key in pt.vals && e.key !in g.nodes)
      || (e.KeyError? && e.key !in pt.vals && exists i :: i in pt.vals && HasEdge(g, e.key, i))
  {
    FirstOriFaultCorrect(g, pt, pt.keys);
    if FirstOriFault(g, pt, pt.keys).None? {
      forall i, j | i in pt.vals && HasEdge(g, j, i) ensures j in pt.vals {
        PredsMembers(g, i);
        PredHasOutEdge(g, j, i);
      }
    } else if OriStepResult(g, d, pt).error.KeyError? {
      var e := OriStepResult(g, d, pt).error;
      var i :| i in pt.keys && e.key in Preds(g, i);
      PredsMembers(g, i);
    }
  }

  // ---------------------------------------------------------------------
  // The step as the source computes it

  /**
   The inner loop: `rank_sum` plus the shares of `i`'s predecessors, raising
   KeyError at the first predecessor `p_t` lacks.
   */
  method AddInflow(g: Graph, d: real, pt: Dict, i: Node, rankSum0: real) returns (r: Result<real>)
    ensures FirstOriMissingPred(g, pt, Preds(g, i)).None? ==> r == Ok(rankSum0 + OriInflow(g, d, pt, i))
    ensures FirstOriMissingPred(g, pt, Preds(g, i)).Some? ==>
      r == Err(KeyError(FirstOriMissingPred(g, pt, Preds(g, i)).value))
  {
    var rankSum := rankSum0;
    var preds := Preds(g, i);
    var k := 0;
    while k < |preds|
      invariant 0 <= k <= |preds|
      invariant rankSum == rankSum0 + SumOf(preds[..k], OriShareFn(g, d, pt))
      invariant FirstOriMissingPred(g, pt, preds) == FirstOriMissingPred(g, pt, preds[k..])
    {
      var j := preds[k];
      SumOfPrefix(preds, k, OriShareFn(g, d, pt));
      assert preds[k..][1..] == preds[k + 1..];
      var outDegreeJ := OutDegree(g, j);
      if outDegreeJ > 0 {
        if j !in pt.vals {
          return Err(KeyError(j));
        }
        rankSum := rankSum + d * (pt.vals[j] / outDegreeJ as real);
      }
      k := k + 1;
    }
    assert preds[..k] == preds;
    r := Ok(rankSum);
  }

  /** One key of the step's visiting order: its lookups come before the later keys'. */
  lemma FirstOriFaultCons(g: Graph, pt: Dict, vs: seq<Node>, idx: nat)
    requires idx < |vs|
    ensures FirstOriFault(g, pt, vs[idx..]) ==
      if vs[idx] !in g.succ then Some(NotInGraph(vs[idx]))
      else if FirstOriMissingPred(g, pt, Preds(g, vs[idx])).Some? then Some(KeyError(FirstOriMissingPred(g, pt, Preds(g, vs[idx])).value))
      else FirstOriFault(g, pt, vs[idx + 1..])
  {
    assert vs[idx..][0] == vs[idx] && vs[idx..][1..] == vs[idx + 1..];
  }

  /** Visiting one more key of `p_t` enters its next rank. */
  lemma OriNextValsSnoc(g: Graph, d: real, pt: Dict, idx: nat)
    requires idx < |pt.keys|
    ensures OriNextVals(g, d, pt, pt.keys[..idx + 1]) ==
      OriNextVals(g, d, pt, pt.keys[..idx])[pt.keys[idx] := OriNextRank(g, d, pt, pt.keys[idx])]
  {
    assert pt.keys[..idx + 1][..idx] == pt.keys[..idx];
  }

  /**
   `__compute_next_page_rank__`: fills the next vector key by key in the
   order of `p_t`, each entry starting from the restart term `(1 - d) / n`.
   */
  method ComputeNextPageRank(g: Graph, d: real, pt: Dict) returns (r: Result<Dict>)
    ensures r == OriStepResult(g, d, pt)
  {
    var keys: seq<Node> := [];
    var vals: map<Node, real> := map[];
    var n := |pt.keys|;
    var idx := 0;
    while idx < n
      invariant 0 <= idx <= n
      invariant keys == pt.keys[..idx]
      invariant vals == OriNextVals(g, d, pt, keys)
      invariant FirstOriFault(g, pt, pt.keys) == FirstOriFault(g, pt, pt.keys[idx..])
    {
      var i := pt.keys[idx];
      FirstOriFaultCons(g, pt, pt.keys, idx);
      var rankSum := (1.0 - d) / (n as real);
      if i !in g.succ {
        return Err(NotInGraph(i));
      }
      var total := AddInflow(g, d, pt, i, rankSum);
      if total.Err? {
        return Err(total.error);
      }
      OriNextValsSnoc(g, d, pt, idx);
      assert total.value == OriNextRank(g, d, pt, i);
      keys := pt.keys[..idx + 1];
      vals := vals[i := total.value];
      idx := idx + 1;
    }
    assert pt.keys[..idx] == pt.keys;
    assert pt.keys[idx..] == [];
    r := Ok(Dict(keys, vals));
  }

  // Where the rank mass goes

  /** `i`'s inflow as a sum over all nodes, each guarded by its edge to `i`. */
  function EdgeShareFn(g: Graph, d: real, pt: Dict, i: Node): Node -> real
  {
    j => if HasEdge(g, j, i) then OriShare(g, d, pt, j) else 0.0
  }

  /** What `j` passes on, spread over its targets `i`. */
  function ColumnFn(g: Graph, d: real, pt: Dict, j: Node): Node -> real
  {
    i => if HasEdge(g, j, i) then OriShare(g, d, pt, j) else 0.0
  }

  function InflowFn(g: Graph, d: real, pt: Dict): Node -> real
  {
    i => OriInflow(g, d, pt, i)
  }

  /** The rank `j` holds if it has an out-edge, else nothing. */
  function LiveFn(g: Graph, pt: Dict): Node -> real
  {
    j => if OutDegree(g, j) > 0 then pt.Get(j, 0.0) else 0.0
  }

  /** What `j` passes on in total: `d` times its rank if it has an out-edge. */
  function OutflowFn(g: Graph, d: real, pt: Dict): Node -> real
  {
    j => d * LiveFn(g, pt)(j)
  }

  /** The rank held by nodes with an out-edge: the part of the mass the step propagates. */
  function LiveMass(g: Graph, pt: Dict): real
  {
    SumOf(pt.keys, LiveFn(g, pt))
  }

  /** `i`'s inflow as a guarded sum over the keys of `p_t`, when the keys are exactly the nodes. */
  lemma InflowOverKeys(g: Graph, d: real, pt: Dict, i: Node)
    requires Distinct(g.nodes) && pt.Valid()
    requires forall k :: k in pt.vals <==> k in g.nodes
    ensures OriInflow(g, d, pt, i) == SumOf(pt.keys, EdgeShareFn(g, d, pt, i))
  {
    SumOfFilter(g.nodes, u => HasEdge(g, u, i), OriShareFn(g, d, pt), EdgeShareFn(g, d, pt, i));
    SumOfSameSet(g.nodes, pt.keys, EdgeShareFn(g, d, pt, i));
  }

  /**
   `j`'s share reaches each of its `out_degree` targets once, so what it
   passes on in all is `d` times its rank, or nothing when it has no out-edge.
   */
  lemma ColumnSum(g: Graph, d: real, pt: Dict, j: Node)
    requires pt.Valid() && Distinct(Targets(Row(g, j)))
    requires forall t :: t in Targets(Row(g, j)) ==> t in pt.vals
    ensures SumOf(pt.keys, ColumnFn(g, d, pt, j)) == OutflowFn(g, d, pt)(j)
  {
    var ts := Targets(Row(g, j));
    assert forall t :: t in ts <==> HasEdge(g, j, t);
    SumOfWeightedCount(pt.keys, ts, OriShare(g, d, pt, j), ColumnFn(g, d, pt, j));
    ShareTimesDegree(g, d, pt, j);
  }

  /** A node with an out-edge passes on `d` times its rank in all, one without passes on nothing. */
  lemma ShareTimesDegree(g: Graph, d: real, pt: Dict, j: Node)
    ensures Times(|Targets(Row(g, j))|, OriShare(g, d, pt, j)) == OutflowFn(g, d, pt)(j)
  {
    var od := OutDegree(g, j);
    var p := pt.Get(j, 0.0);
    assert |Targets(Row(g, j))| == od;
    if od > 0 {
      var c := od as real;
      calc {
        Times(od, OriShare(g, d, pt, j));
        c * (d * (p / c));
        d * ((p / c) * c);
        d * p;
        d * LiveFn(g, pt)(j);
      }
    } else {
      assert OriShare(g, d, pt, j) == 0.0 && LiveFn(g, pt)(j) == 0.0;
    }
  }

  /** Every key's inflow, as its row of the share matrix. */
  lemma InflowRows(g: Graph, d: real, pt: Dict)
    requires Distinct(g.nodes) && pt.Valid()
    requires forall k :: k in pt.vals <==> k in g.nodes
    ensures forall x :: 0 <= x < |pt.keys| ==>
      InflowFn(g, d, pt)(pt.keys[x]) == SumOf(pt.keys, EdgeShareFn(g, d, pt, pt.keys[x]))
  {
    forall x | 0 <= x < |pt.keys|
      ensures InflowFn(g, d, pt)(pt.keys[x]) == SumOf(pt.keys, EdgeShareFn(g, d, pt, pt.keys[x]))
    {
      InflowOverKeys(g, d, pt, pt.keys[x]);
    }
  }

  /** Every key's outflow, as its column of the share matrix. */
  lemma OutflowColumns(g: Graph, d: real, pt: Dict)
    requires Valid(g) && pt.Valid()
    requires forall k :: k in pt.vals <==> k in g.nodes
    ensures forall y :: 0 <= y < |pt.keys| ==>
      OutflowFn(g, d, pt)(pt.keys[y]) == SumOf(pt.keys, ColumnFn(g, d, pt, pt.keys[y]))
  {
    forall y | 0 <= y < |pt.keys|
      ensures OutflowFn(g, d, pt)(pt.keys[y]) == SumOf(pt.keys, ColumnFn(g, d, pt, pt.keys[y]))
    {
      RowTargets(g, pt.keys[y]);
      ColumnSum(g, d, pt, pt.keys[y]);
    }
  }

  function ShareRows(g: Graph, d: real, pt: Dict): Node -> Node -> real
  {
    i => EdgeShareFn(g, d, pt, i)
  }

  function ShareColumns(g: Graph, d: real, pt: Dict): Node -> Node -> real
  {
    j => ColumnFn(g, d, pt, j)
  }

  /** Summing every key's inflow is summing every key's outflow. */
  lemma InflowIsOutflow(g: Graph, d: real, pt: Dict)
    requires Valid(g) && pt.Valid()
    requires forall k :: k in pt.vals <==> k in g.nodes
    ensures SumOf(pt.keys, InflowFn(g, d, pt)) == SumOf(pt.keys, OutflowFn(g, d, pt))
  {
    InflowRows(g, d, pt);
    OutflowColumns(g, d, pt);
    SumOfSwap(pt.keys, pt.keys, ShareRows(g, d, pt), ShareColumns(g, d, pt), InflowFn(g, d, pt), OutflowFn(g, d, pt));
  }

  function RankFn(g: Graph, d: real, pt: Dict): Node -> real
    requires |pt.keys| > 0
  {
    i => OriNextRank(g, d, pt, i)
  }

  lemma NextValuesAreRanks(g: Graph, d: real, pt: Dict)
    requires pt.Valid() && |pt.keys| > 0
    ensures OriStepSpec(g, d, pt).Total() == SumOf(pt.keys, RankFn(g, d, pt))
  {
    OriStepSpecCorrect(g, d, pt);
    SumOfExt(pt.keys, OriStepSpec(g, d, pt).ValueFn(), RankFn(g, d, pt));
  }

  /** The restart terms of the `n` keys add up to `1 - d`. */
  lemma OriTotalSplit(g: Graph, d: real, pt: Dict)
    requires pt.Valid() && |pt.keys| > 0
    ensures OriStepSpec(g, d, pt).Total() == (1.0 - d) + SumOf(pt.keys, InflowFn(g, d, pt))
  {
    NextValuesAreRanks(g, d, pt);
    var restart := RestartFn(d, |pt.keys|);
    SumOfAdd(pt.keys, restart, InflowFn(g, d, pt), RankFn(g, d, pt));
    RestartTotal(pt.keys, d, restart);
  }

  /** The restart term `(1 - d) / n` of every one of `n` nodes. */
  function RestartFn(d: real, n: nat): Node -> real
    requires n > 0
  {
    i => (1.0 - d) / n as real
  }

  lemma RestartTotal(keys: seq<Node>, d: real, restart: Node -> real)
    requires |keys| > 0 && restart == RestartFn(d, |keys|)
    ensures SumOf(keys, restart) == 1.0 - d
  {
    var n := |keys| as real;
    SumOfConst(keys, (1.0 - d) / n, restart);
    assert n * ((1.0 - d) / n) == 1.0 - d;
  }

  /** The total after a step that propagates mass `m`: the restart terms plus the damped mass. */
  function MassAfterStep(d: real, m: real): real
  {
    (1.0 - d) + d * m
  }

  /** A step that propagates the whole of a unit mass keeps it a unit. */
  lemma UnitMassAfterStep(d: real)
    ensures MassAfterStep(d, 1.0) == 1.0
  {
  }

  /**
   The step's new vector totals `1 - d` (the restart terms) plus `d` times
   the rank held by nodes with an out-edge: the rank of dangling nodes leaks.
   */
  lemma OriStepMass(g: Graph, d: real, pt: Dict)
    requires Valid(g) && pt.Valid() && |pt.keys| > 0
    requires forall k :: k in pt.vals <==> k in g.nodes
    ensures OriStepSpec(g, d, pt).Total() == MassAfterStep(d, LiveMass(g, pt))
  {
    OriTotalSplit(g, d, pt);
    InflowIsOutflow(g, d, pt);
    OutflowTotal(g, d, pt);
  }

  /** All the keys together pass on `d` times the live mass. */
  lemma OutflowTotal(g: Graph, d: real, pt: Dict)
    ensures SumOf(pt.keys, OutflowFn(g, d, pt)) == d * LiveMass(g, pt)
  {
    SumOfScale(pt.keys, d, LiveFn(g, pt), OutflowFn(g, d, pt));
  }

  /** Without dangling nodes a step keeps the total rank at 1 when it starts at 1. */
  lemma OriStepKeepsMass(g: Graph, d: real, pt: Dict)
    requires Valid(g) && pt.Valid() && |pt.keys| > 0
    requires forall k :: k in pt.vals <==> k in g.nodes
    requires forall u :: u in g.nodes ==> OutDegree(g, u) > 0
    ensures OriStepSpec(g, d, pt).Total() == MassAfterStep(d, pt.Total())
    ensures pt.Total() == 1.0 ==> OriStepSpec(g, d, pt).Total() == 1.0
  {
    OriStepMass(g, d, pt);
    LiveMassIsTotal(g, pt);
    UnitMassAfterStep(d);
  }

  /** When every key has an out-edge, all of the mass is live. */
  lemma LiveMassIsTotal(g: Graph, pt: Dict)
    requires pt.Valid()
    requires forall k :: k in pt.vals ==> OutDegree(g, k) > 0
    ensures LiveMass(g, pt) == pt.Total()
  {
    forall x | 0 <= x < |pt.keys| ensures LiveFn(g, pt)(pt.keys[x]) == pt.ValueFn()(pt.keys[x]) {
      assert pt.keys[x] in pt.vals;
    }
    SumOfExt(pt.keys, LiveFn(g, pt), pt.ValueFn());
  }

  // ---------------------------------------------------------------------
  // Distance, start vector and ranking

  /**
   `__norm_l1__(p_t_1, p_t)`: `sum(|p_t_1[k] - p_t[k]|)` over the keys of the
   new vector `p_t_1`, raising KeyError at the first one `p_t` lacks.
   */
  function OriNormL1(next: Dict, prev: Dict): Result<real>
  {
    match FirstMissing(next.keys, prev)
    case Some(k) => Err(KeyError(k))
    case None => Ok(AbsDiffSum(next.keys, next, prev))
  }

  /**
   The distance fails exactly when the previous vector lacks a key of the
   new one; otherwise it is non-negative, and zero exactly when the two
   vectors agree on every key of the new one.
   */
  lemma OriNormL1Correct(next: Dict, prev: Dict)
    requires next.Valid()
    ensures OriNormL1(next, prev).Ok? <==> forall k :: k in next.vals ==> k in prev.vals
    ensures OriNormL1(next, prev).Err? ==>
      var e := OriNormL1(next, prev).error; e.KeyError? && e.key in next.vals && e.key !in prev.vals
    ensures OriNormL1(next, prev).Ok? ==> OriNormL1(next, prev).value >= 0.0
    ensures OriNormL1(next, prev).Ok? ==>
      (OriNormL1(next, prev).value == 0.0 <==> forall k :: k in next.vals ==> next.vals[k] == prev.vals[k])
  {
    if FirstMissing(next.keys, prev).None? {
      AbsDiffSumZero(next.keys, next, prev);
    }
  }

  /** `{node: 1 / n for node in G.nodes()}` with `n = len(G.nodes())`. */
  function Uniform(g: Graph): Dict
  {
    Dict(g.nodes, map u | u in g.nodes :: 1.0 / |g.nodes| as real)
  }

  /** The start vector has one entry `1 / n` per node, in node order, and totals 1 unless the graph is empty. */
  lemma UniformCorrect(g: Graph)
    requires Distinct(g.nodes)
    ensures Uniform(g).Valid() && Uniform(g).keys == g.nodes
    ensures forall u :: u in Uniform(g).vals <==> u in g.nodes
    ensures forall u :: u in g.nodes ==> Uniform(g).vals[u] == 1.0 / |g.nodes| as real
    ensures |g.nodes| > 0 ==> Uniform(g).Total() == 1.0
  {
    if |g.nodes| > 0 {
      var p := Uniform(g);
      SumOfConst(g.nodes, 1.0 / |g.nodes| as real, p.ValueFn());
      UniformShare(|g.nodes|);
    }
  }

  lemma UniformShare(n: nat)
    requires n > 0
    ensures n as real * (1.0 / n as real) == 1.0
  {
  }

  /**
   `__generate_ranked_list__`: copies the vector's items into a list pair by
   pair, then sorts it by descending score.
   */
  method GenerateRankedList(p: Dict) returns (r: seq<Entry>)
    ensures r == RankedList(p)
  {
    var items := p.Items();
    var probabilities: seq<Entry> := [];
    for k := 0 to |items|
      invariant probabilities == items[..k]
    {
      probabilities := probabilities + [items[k]];
    }
    assert probabilities == items;
    r := SortByScoreDesc(probabilities);
  }

  // ---------------------------------------------------------------------
  // `run`

  /** One pass of `run`'s loop body from `pv`: the step, then the distance from `pv`. */
  function OriTurnOf(g: Graph, d: real, pv: Dict): Turn
  {
    match OriStepResult(g, d, pv)
    case Err(e) => Raise(e)
    case Ok(next) =>
      match OriNormL1(next, pv)
      case Err(e) => Raise(e)
      case Ok(diff) => Moved(next, diff)
  }

  function OriTurnFn(g: Graph, d: real): Dict -> Turn
  {
    pv => OriTurnOf(g, d, pv)
  }

  /**
   After the loop, `run` takes `min` and `max` of the out-degrees, which
   raises ValueError on a graph without nodes, and returns the ranked list.
   */
  function OriFinish(g: Graph): Dict -> Outcome
  {
    pv => if |g.nodes| == 0 then Failed(ValueError) else Ranked(RankedList(pv))
  }

  /** `run`'s loop over the rebuilt graph `g` from vector `pv` with at most `fuel` turns. */
  function OriLoop(g: Graph, d: real, pv: Dict, fuel: nat): Outcome
  {
    LoopWith(OriTurnFn(g, d), OriFinish(g), CONV_THRESHOLD, pv, fuel)
  }

  /** One turn of the loop once the step and the distance have both succeeded. */
  lemma OriLoopUnfold(g: Graph, d: real, pv: Dict, fuel: nat, next: Dict, diff: real)
    requires fuel > 0 && OriTurnOf(g, d, pv) == Moved(next, diff)
    ensures OriLoop(g, d, pv, fuel) ==
      if diff > CONV_THRESHOLD then OriLoop(g, d, next, fuel - 1) else OriFinish(g)(next)
  {
  }

  /** What is left of `run` with vector `pv`, distance `diffNorm` and `left` turns to go. */
  function OriResume(g: Graph, d: real, pv: Dict, diffNorm: real, left: nat): Outcome
  {
    if diffNorm > CONV_THRESHOLD then OriLoop(g, d, pv, left) else OriFinish(g)(pv)
  }

  /** A turn that moves to `next` at distance `diff` leaves the rest of `run` unchanged. */
  lemma OriResumeStep(g: Graph, d: real, pv: Dict, diffNorm: real, left: nat, next: Dict, diff: real)
    requires diffNorm > CONV_THRESHOLD && left > 0
    requires OriStepResult(g, d, pv) == Ok(next) && OriNormL1(next, pv) == Ok(diff)
    ensures OriResume(g, d, pv, diffNorm, left) == OriResume(g, d, next, diff, left - 1)
  {
    OriLoopUnfold(g, d, pv, left, next, diff);
  }

  /**
   `run` on the graph `g` the constructor stored (already normalised):
   starts from the uniform vector with `diff_norm = 1`, steps while the
   distance exceeds the threshold, then reads the out-degrees and ranks the
   last vector.
   */
  method Run(g: Graph, d: real, fuel: nat) returns (r: Outcome)
    ensures r == OriLoop(g, d, Uniform(g), fuel)
  {
    var pv := Uniform(g);
    ghost var goal := OriLoop(g, d, pv, fuel);
    var diffNorm: real := 1.0;
    var left := fuel;
    while diffNorm > CONV_THRESHOLD
      invariant goal == OriResume(g, d, pv, diffNorm, left)
      decreases left
    {
      if left == 0 {
        return OutOfFuel;
      }
      var next := ComputeNextPageRank(g, d, pv);
      if next.Err? {
        return Failed(next.error);
      }
      var diff := OriNormL1(next.value, pv);
      if diff.Err? {
        return Failed(diff.error);
      }
      OriResumeStep(g, d, pv, diffNorm, left, next.value, diff.value);
      diffNorm := diff.value;
      pv := next.value;
      left := left - 1;
    }
    var outDegrees := seq(|g.nodes|, k requires 0 <= k < |g.nodes| => OutDegree(g, g.nodes[k]));
    if |outDegrees| == 0 {
      return Failed(ValueError);
    }
    var ranked := GenerateRankedList(pv);
    r := Ranked(ranked);
  }

  // ---------------------------------------------------------------------
  // What the iteration computes

  /** The vector after `k` error-free steps from `pv`. */
  function OriIterate(g: Graph, d: real, pv: Dict, k: nat): Dict
    decreases k
  {
    if k == 0 then pv else OriStepSpec(g, d, OriIterate(g, d, pv, k - 1))
  }

  /** The L1 distance, over the keys of the later vector, between the vectors after `j` and `j + 1` steps. */
  function OriDist(g: Graph, d: real, pv: Dict, j: nat): real
  {
    var a := OriIterate(g, d, pv, j);
    AbsDiffSum(a.keys, OriStepSpec(g, d, a), a)
  }

  function OriIterateFn(g: Graph, d: real, pv: Dict): nat -> Dict
  {
    (j: nat) => OriIterate(g, d, pv, j)
  }

  function OriDistFn(g: Graph, d: real, pv: Dict): nat -> real
  {
    (j: nat) => OriDist(g, d, pv, j)
  }

  /** A vector the loop can step from without raising. */
  ghost predicate OriGoodStart(g: Graph, pv: Dict)
  {
    pv.Valid() && Steppable(g, pv)
  }

  /** A step from a good vector keeps its keys, so the vector it produces is good too. */
  lemma OriStepSpecGood(g: Graph, d: real, pt: Dict)
    requires OriGoodStart(g, pt)
    ensures OriGoodStart(g, OriStepSpec(g, d, pt))
    ensures OriStepSpec(g, d, pt).keys == pt.keys
  {
    OriStepSpecCorrect(g, d, pt);
  }

  /** From a good vector the turn succeeds: it moves to the step's vector at the L1 distance. */
  lemma OriTurnFromGood(g: Graph, d: real, pv: Dict)
    requires Valid(g) && OriGoodStart(g, pv)
    ensures OriTurnOf(g, d, pv) == Moved(OriStepSpec(g, d, pv), AbsDiffSum(pv.keys, OriStepSpec(g, d, pv), pv))
  {
    var next := OriStepSpec(g, d, pv);
    OriStepFailsIff(g, d, pv);
    OriStepSpecCorrect(g, d, pv);
    OriNormL1Correct(next, pv);
  }

  /** From a good vector, `OriIterate` and `OriDist` describe every turn of the loop. */
  lemma OriIterateDescribes(g: Graph, d: real, pv: Dict, n: nat)
    requires Valid(g) && OriGoodStart(g, pv)
    ensures Describes(OriTurnFn(g, d), OriIterateFn(g, d, pv), OriDistFn(g, d, pv), n)
  {
    var turn := OriTurnFn(g, d);
    var vec := OriIterateFn(g, d, pv);
    var dist := OriDistFn(g, d, pv);
    forall j: nat | j < n ensures turn(vec(j)) == Moved(vec(j + 1), dist(j)) {
      OriIterateGood(g, d, pv, j);
      OriTurnFromGood(g, d, OriIterate(g, d, pv, j));
    }
  }

  /** Every vector the iteration reaches from a good vector is good and has the same keys. */
  lemma {:induction false} OriIterateGood(g: Graph, d: real, pv: Dict, k: nat)
    requires OriGoodStart(g, pv)
    ensures OriGoodStart(g, OriIterate(g, d, pv, k))
    ensures OriIterate(g, d, pv, k).keys == pv.keys
    decreases k
  {
    if k > 0 {
      OriIterateGood(g, d, pv, k - 1);
      OriStepSpecGood(g, d, OriIterate(g, d, pv, k - 1));
    }
  }

  /**
   From a good vector, the loop finishes on the vector after `k + 1` steps
   when `k` is the first step count whose next distance is at most the threshold.
   */
  lemma OriLoopConverges(g: Graph, d: real, pv: Dict, fuel: nat, k: nat)
    requires Valid(g) && OriGoodStart(g, pv) && k < fuel
    requires forall j :: 0 <= j < k ==> OriDist(g, d, pv, j) > CONV_THRESHOLD
    requires OriDist(g, d, pv, k) <= CONV_THRESHOLD
    ensures OriLoop(g, d, pv, fuel) == OriFinish(g)(OriIterate(g, d, pv, k + 1))
  {
    OriIterateDescribes(g, d, pv, k + 1);
    LoopStopsAt(OriTurnFn(g, d), OriFinish(g), CONV_THRESHOLD, OriIterateFn(g, d, pv), OriDistFn(g, d, pv), fuel, k);
  }

  /** From a good vector, the loop runs out of fuel when every distance within the budget exceeds the threshold. */
  lemma OriLoopOutOfFuel(g: Graph, d: real, pv: Dict, fuel: nat)
    requires Valid(g) && OriGoodStart(g, pv)
    requires forall j :: 0 <= j < fuel ==> OriDist(g, d, pv, j) > CONV_THRESHOLD
    ensures OriLoop(g, d, pv, fuel) == OutOfFuel
  {
    OriIterateDescribes(g, d, pv, fuel);
    LoopRunsOut(OriTurnFn(g, d), OriFinish(g), CONV_THRESHOLD, OriIterateFn(g, d, pv), OriDistFn(g, d, pv), fuel);
  }

  /** From a good vector over a graph with nodes, the loop never raises. */
  lemma OriLoopNeverFails(g: Graph, d: real, pv: Dict, fuel: nat)
    requires Valid(g) && OriGoodStart(g, pv) && |g.nodes| > 0
    ensures !OriLoop(g, d, pv, fuel).Failed?
  {
    OriIterateDescribes(g, d, pv, fuel);
    LoopEnds(OriTurnFn(g, d), OriFinish(g), CONV_THRESHOLD, OriIterateFn(g, d, pv), OriDistFn(g, d, pv), fuel);
  }

  /** The uniform vector over a well-formed graph is a good start. */
  lemma UniformGood(g: Graph)
    requires Valid(g)
    ensures OriGoodStart(g, Uniform(g))
  {
    UniformCorrect(g);
  }

  /**
   `run` (given at least one turn) raises exactly when the input graph has
   no edge: the rebuilt graph then has no node, the loop stops after one
   turn on the empty vector, and `min` of the empty out-degree list raises
   ValueError.
   */
  lemma RunFailsIff(g0: Graph, d: real, fuel: nat)
    requires Valid(g0) && fuel > 0
    ensures OriLoop(NormalizedGraph(g0), d, Uniform(NormalizedGraph(g0)), fuel).Failed? <==>
      forall u, v :: !HasEdge(g0, u, v)
    ensures OriLoop(NormalizedGraph(g0), d, Uniform(NormalizedGraph(g0)), fuel).Failed? ==>
      OriLoop(NormalizedGraph(g0), d, Uniform(NormalizedGraph(g0)), fuel).error == ValueError
  {
    var g := NormalizedGraph(g0);
    NormalizedGraphCorrect(g0);
    UniformGood(g);
    if |g.nodes| > 0 {
      OriLoopNeverFails(g, d, Uniform(g), fuel);
      var x := g.nodes[0];
      assert Incident(g0, x);
    } else {
      assert forall x :: !Incident(g0, x);
      var p := Uniform(g);
      assert OriStepResult(g, d, p) == Ok(OriStepSpec(g, d, p));
      assert OriStepSpec(g, d, p).keys == [];
      assert OriNormL1(OriStepSpec(g, d, p), p) == Ok(0.0);
      OriLoopUnfold(g, d, p, fuel, OriStepSpec(g, d, p), 0.0);
    }
  }

  /**
   When every node of the rebuilt graph has an out-edge, the total rank
   stays 1 along the whole iteration from the uniform vector.
   */
  lemma {:induction false} OriIterateKeepsMass(g: Graph, d: real, k: nat)
    requires Valid(g) && |g.nodes| > 0
    requires forall u :: u in g.nodes ==> OutDegree(g, u) > 0
    ensures OriIterate(g, d, Uniform(g), k).Total() == 1.0
    decreases k
  {
    if k == 0 {
      UniformCorrect(g);
    } else {
      UniformIterateMass(g, d, k - 1);
      OriIterateKeepsMass(g, d, k - 1);
      UnitMassAfterStep(d);
    }
  }

  /** One more step from the uniform vector scales the live total as a single step does. */
  lemma UniformIterateMass(g: Graph, d: real, k: nat)
    requires Valid(g) && |g.nodes| > 0
    requires forall u :: u in g.nodes ==> OutDegree(g, u) > 0
    ensures OriIterate(g, d, Uniform(g), k + 1).Total() == MassAfterStep(d, OriIterate(g, d, Uniform(g), k).Total())
  {
    UniformIterateKeys(g, d, k);
    OriStepKeepsMass(g, d, OriIterate(g, d, Uniform(g), k));
  }

  /** Every vector of the iteration from the uniform vector has exactly the nodes as keys. */
  lemma UniformIterateKeys(g: Graph, d: real, k: nat)
    requires Valid(g)
    ensures var a := OriIterate(g, d, Uniform(g), k);
      a.Valid() && a.keys == g.nodes && forall x :: x in a.vals <==> x in g.nodes
  {
    UniformGood(g);
    UniformCorrect(g);
    OriIterateGood(g, d, Uniform(g), k);
  }
}

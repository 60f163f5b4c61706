/**
 The personalized weighted PageRank solver (`PageRankCore`).

 One step gives node `v` the restart mass `(1 - d) * p0.get(v, 0)` plus, from
 every predecessor `u` whose total out-weight `W(u)` is positive, the share
 `d * p_t[u] * w(u, v) / W(u)`; a missing `weight` attribute counts as 0 and
 a dangling predecessor (`W(u) <= 0`) passes nothing on.  `run` starts from
 a copy of `p0` and steps until the L1 distance between successive vectors
 is at most `CONV_THRESHOLD`, then ranks the last vector.
 */
module PageRankCore {
  import opened Sums
  import opened Common
  import opened Graphs
  import opened Ranking
  import opened Iteration

  const CONV_THRESHOLD: real := 0.000001

  /** `G[u][v].get('weight', 0)` within an adjacency list; 0 when there is no edge to `v`. */
  function WeightTo(es: seq<Edge>, v: Node): real
    decreases |es|
  {
    if |es| == 0 then 0.0
    else if es[0].dst == v then WeightOr(es[0], 0.0)
    else WeightTo(es[1..], v)
  }

  /** The weight of the edge u -> v, a missing attribute (or edge) counting as 0. */
  function EdgeWeight(g: Graph, u: Node, v: Node): real
  {
    if u in g.succ then WeightTo(g.succ[u], v) else 0.0
  }

  /** `total_weight_u`: the sum of `u`'s out-weights, missing attributes counting as 0. */
  function TotalWeight(g: Graph, u: Node): real
  {
    if u in g.succ then OutWeight(g.succ[u], 0.0) else 0.0
  }

  /** What predecessor `u` adds to `v`'s rank: nothing unless `W(u) > 0`. */
  function Share(g: Graph, pt: Dict, d: real, u: Node, v: Node): real
  {
    var total := TotalWeight(g, u);
    if total > 0.0 then d * (pt.Get(u, 0.0) * EdgeWeight(g, u, v) / total) else 0.0
  }

  /** The share of a node whose rank `p_t` holds, from its edge weight `w` and positive out-weight `t`. */
  lemma ShareOf(g: Graph, pt: Dict, d: real, u: Node, v: Node, w: real, t: real)
    requires u in pt.vals && w == EdgeWeight(g, u, v) && t == TotalWeight(g, u) && t > 0.0
    ensures Share(g, pt, d, u, v) == d * (pt.vals[u] * w / t)
  {
  }

  /** `u |-> Share(u, v)`: what each node passes on to `v`. */
  function ShareTo(g: Graph, pt: Dict, d: real, v: Node): Node -> real
  {
    u => Share(g, pt, d, u, v)
  }

  /** The shares the nodes `us` pass on to `v`, summed. */
  function SharesTo(g: Graph, pt: Dict, d: real, us: seq<Node>, v: Node): real
  {
    SumOf(us, ShareTo(g, pt, d, v))
  }

  /** The propagated part of `v`'s next rank. */
  function Inflow(g: Graph, pt: Dict, d: real, v: Node): real
  {
    SharesTo(g, pt, d, Preds(g, v), v)
  }

  /** The restart term `(1 - d) * p0.get(v, 0)`. */
  function Restart(p0: Dict, d: real, v: Node): real
  {
    (1.0 - d) * p0.Get(v, 0.0)
  }

  /** `v`'s next rank: restart term plus propagated part. */
  function NextRank(g: Graph, p0: Dict, d: real, pt: Dict, v: Node): real
  {
    Restart(p0, d, v) + Inflow(g, pt, d, v)
  }

  /** `next_p_t` after the nodes `vs` have been visited: `next_p_t[v] = rank_sum` for each in turn. */
  function NextVals(g: Graph, p0: Dict, d: real, pt: Dict, vs: seq<Node>): map<Node, real>
    decreases |vs|
  {
    if |vs| == 0 then map[]
    else
      var v := vs[|vs| - 1];
      NextVals(g, p0, d, pt, vs[..|vs| - 1])[v := NextRank(g, p0, d, pt, v)]
  }

  lemma {:induction false} NextValsAt(g: Graph, p0: Dict, d: real, pt: Dict, vs: seq<Node>)
    ensures forall v :: v in NextVals(g, p0, d, pt, vs) <==> v in vs
    ensures forall v :: v in NextVals(g, p0, d, pt, vs) ==> NextVals(g, p0, d, pt, vs)[v] == NextRank(g, p0, d, pt, v)
    decreases |vs|
  {
    if |vs| > 0 {
      var init := vs[..|vs| - 1];
      NextValsAt(g, p0, d, pt, init);
      assert forall v :: v in vs <==> v in init || v == vs[|vs| - 1];
    }
  }

  /** The vector one step produces when no lookup fails: one entry per graph node, in node order. */
  function StepSpec(g: Graph, p0: Dict, d: real, pt: Dict): Dict
  {
    Dict(g.nodes, NextVals(g, p0, d, pt, g.nodes))
  }

  /**
   The next vector has exactly one entry per graph node (not per key of
   `p_0` or `p_t`), and the entry of `v` is its next rank.
   */
  lemma StepSpecCorrect(g: Graph, p0: Dict, d: real, pt: Dict)
    requires Distinct(g.nodes)
    ensures StepSpec(g, p0, d, pt).Valid()
    ensures forall v :: v in StepSpec(g, p0, d, pt).vals <==> v in g.nodes
    ensures forall v :: v in g.nodes ==> StepSpec(g, p0, d, pt).vals[v] == NextRank(g, p0, d, pt, v)
  {
    NextValsAt(g, p0, d, pt, g.nodes);
  }

  /** `u`'s rank is read by the step (it is a node with positive out-weight) but `p_t` has no entry for it. */
  predicate MissingRank(g: Graph, pt: Dict, u: Node)
  {
    u in g.nodes && TotalWeight(g, u) > 0.0 && u !in pt.vals
  }

  ghost predicate NoMissingRank(g: Graph, pt: Dict)
  {
    forall u :: !MissingRank(g, pt, u)
  }

  /** The first of `us` whose rank lookup fails. */
  function FirstMissingPred(g: Graph, pt: Dict, us: seq<Node>): Option<Node>
    decreases |us|
  {
    if |us| == 0 then None
    else if MissingRank(g, pt, us[0]) then Some(us[0])
    else FirstMissingPred(g, pt, us[1..])
  }

  /** `FirstMissingPred` finds a failing lookup among `us` exactly when there is one. */
  lemma {:induction false} FirstMissingPredCorrect(g: Graph, pt: Dict, us: seq<Node>)
    ensures FirstMissingPred(g, pt, us).None? <==> forall u :: u in us ==> !MissingRank(g, pt, u)
    ensures FirstMissingPred(g, pt, us).Some? ==> MissingRank(g, pt, FirstMissingPred(g, pt, us).value)
    decreases |us|
  {
    if |us| > 0 && !MissingRank(g, pt, us[0]) {
      FirstMissingPredCorrect(g, pt, us[1..]);
      assert forall u :: u in us <==> u == us[0] || u in us[1..];
    }
  }

  /** The first failing lookup in the step's visiting order: nodes `vs` in turn, each one's predecessors in turn. */
  function FirstMissingRank(g: Graph, pt: Dict, vs: seq<Node>): Option<Node>
    decreases |vs|
  {
    if |vs| == 0 then None
    else match FirstMissingPred(g, pt, Preds(g, vs[0]))
      case Some(u) => Some(u)
      case None => FirstMissingRank(g, pt, vs[1..])
  }

  /** `FirstMissingRank` finds a failing lookup exactly when there is one. */
  lemma {:induction false} FirstMissingRankCorrect(g: Graph, pt: Dict, vs: seq<Node>)
    ensures FirstMissingRank(g, pt, vs).None? <==>
      forall j, u :: 0 <= j < |vs| && u in Preds(g, vs[j]) ==> !MissingRank(g, pt, u)
    ensures FirstMissingRank(g, pt, vs).Some? ==> MissingRank(g, pt, FirstMissingRank(g, pt, vs).value)
    decreases |vs|
  {
    if |vs| > 0 {
      FirstMissingPredCorrect(g, pt, Preds(g, vs[0]));
    }
    if |vs| > 0 && FirstMissingPred(g, pt, Preds(g, vs[0])).None? {
      FirstMissingRankCorrect(g, pt, vs[1..]);
      assert forall j :: 0 < j < |vs| ==> vs[j] == vs[1..][j - 1];
    }
  }

  /** What `__compute_next_page_rank__(p_t)` returns or raises. */
  function StepResult(g: Graph, p0: Dict, d: real, pt: Dict): Result<Dict>
  {
    match FirstMissingRank(g, pt, g.nodes)
    case Some(u) => Err(KeyError(u))
    case None => Ok(StepSpec(g, p0, d, pt))
  }

  /** A node with positive out-weight is a predecessor of some node. */
  lemma PositiveWeightHasSuccessor(g: Graph, u: Node) returns (j: nat)
    requires Valid(g) && u in g.nodes && TotalWeight(g, u) > 0.0
    ensures j < |g.nodes| && u in Preds(g, g.nodes[j])
  {
    var es := g.succ[u];
    assert |es| > 0;
    var v := es[0].dst;
    assert HasEdge(g, u, v);
    j :| 0 <= j < |g.nodes| && g.nodes[j] == v;
    PredsMembers(g, v);
  }

  /** The step fails exactly when some node with positive out-weight has no entry in `p_t`. */
  lemma StepFailsIffMissingRank(g: Graph, p0: Dict, d: real, pt: Dict)
    requires Valid(g)
    ensures StepResult(g, p0, d, pt).Ok? <==> NoMissingRank(g, pt)
    ensures StepResult(g, p0, d, pt).Err? ==>
      StepResult(g, p0, d, pt).error.KeyError? && MissingRank(g, pt, StepResult(g, p0, d, pt).error.key)
  {
    FirstMissingRankCorrect(g, pt, g.nodes);
    if FirstMissingRank(g, pt, g.nodes).None? {
      forall u ensures !MissingRank(g, pt, u) {
        if u in g.nodes && TotalWeight(g, u) > 0.0 {
          var j := PositiveWeightHasSuccessor(g, u);
        }
      }
    }
  }

  // ---------------------------------------------------------------------
  // Properties of one step

  /** The weight read for an edge's target is that edge's `weight` attribute, 0 if it has none. */
  lemma {:induction false} WeightToAt(es: seq<Edge>, i: nat)
    requires Distinct(Targets(es)) && i < |es|
    ensures WeightTo(es, es[i].dst) == WeightOr(es[i], 0.0)
    ensures es[i].weight.None? ==> WeightTo(es, es[i].dst) == 0.0
    decreases |es|
  {
    if i > 0 {
      DistinctIndices(Targets(es));
      assert Targets(es)[0] != Targets(es)[i];
      assert Targets(es[1..]) == Targets(es)[1..];
      DistinctIndices(Targets(es[1..]));
      WeightToAt(es[1..], i - 1);
    }
  }

  /** Every edge weight (a missing one counting as 0) is non-negative. */
  ghost predicate NonNegWeights(g: Graph)
  {
    forall u, i :: u in g.succ && 0 <= i < |g.succ[u]| ==> WeightOr(g.succ[u][i], 0.0) >= 0.0
  }

  ghost predicate NonNegValues(p: Dict)
  {
    forall k :: k in p.vals ==> p.vals[k] >= 0.0
  }

  lemma {:induction false} WeightToNonNeg(es: seq<Edge>, v: Node)
    requires forall i :: 0 <= i < |es| ==> WeightOr(es[i], 0.0) >= 0.0
    ensures WeightTo(es, v) >= 0.0
    decreases |es|
  {
    if |es| > 0 && es[0].dst != v {
      assert forall i :: 0 <= i < |es[1..]| ==> es[1..][i] == es[i + 1];
      WeightToNonNeg(es[1..], v);
    }
  }

  lemma ShareNonNeg(g: Graph, pt: Dict, d: real, u: Node, v: Node)
    requires d >= 0.0 && NonNegWeights(g) && NonNegValues(pt)
    ensures Share(g, pt, d, u, v) >= 0.0
  {
    var total := TotalWeight(g, u);
    if total > 0.0 {
      WeightToNonNeg(g.succ[u], v);
      var p := pt.Get(u, 0.0);
      var w := EdgeWeight(g, u, v);
      assert p * w >= 0.0;
      assert p * w / total >= 0.0;
    }
  }

  lemma NextRankNonNeg(g: Graph, p0: Dict, d: real, pt: Dict, v: Node)
    requires 0.0 <= d <= 1.0
    requires NonNegWeights(g) && NonNegValues(p0) && NonNegValues(pt)
    ensures NextRank(g, p0, d, pt, v) >= 0.0
  {
    var preds := Preds(g, v);
    var f := ShareTo(g, pt, d, v);
    forall i | 0 <= i < |preds| ensures f(preds[i]) >= 0.0 {
      ShareNonNeg(g, pt, d, preds[i], v);
    }
    SumOfNonNeg(preds, f);
    var p := p0.Get(v, 0.0);
    var c := 1.0 - d;
    assert p >= 0.0 && c >= 0.0;
    assert c * p >= 0.0;
  }

  /**
   With `0 <= d <= 1`, non-negative weights, a non-negative personalization
   vector and a non-negative current vector, every entry of the next vector
   is non-negative.
   */
  lemma StepNonNegative(g: Graph, p0: Dict, d: real, pt: Dict)
    requires 0.0 <= d <= 1.0
    requires NonNegWeights(g) && NonNegValues(p0) && NonNegValues(pt)
    ensures NonNegValues(StepSpec(g, p0, d, pt))
  {
    NextValsAt(g, p0, d, pt, g.nodes);
    forall v | v in g.nodes ensures NextRank(g, p0, d, pt, v) >= 0.0 {
      NextRankNonNeg(g, p0, d, pt, v);
    }
  }

  /** A node all of whose predecessors are dangling (out-weight <= 0) receives only its restart term. */
  lemma RestartOnly(g: Graph, p0: Dict, d: real, pt: Dict, v: Node)
    requires forall u :: u in Preds(g, v) ==> TotalWeight(g, u) <= 0.0
    ensures NextRank(g, p0, d, pt, v) == (1.0 - d) * p0.Get(v, 0.0)
  {
    var preds := Preds(g, v);
    var f := ShareTo(g, pt, d, v);
    assert forall i :: 0 <= i < |preds| ==> f(preds[i]) == 0.0;
    SumOfConst(preds, 0.0, f);
  }

  /** A node's next rank reads the current ranks of its non-dangling predecessors only. */
  lemma NextRankIgnoresDangling(g: Graph, p0: Dict, d: real, pt: Dict, pt': Dict, v: Node)
    requires forall u :: u in g.nodes && TotalWeight(g, u) > 0.0 ==> pt.Get(u, 0.0) == pt'.Get(u, 0.0)
    ensures NextRank(g, p0, d, pt, v) == NextRank(g, p0, d, pt', v)
  {
    var preds := Preds(g, v);
    PredsMembers(g, v);
    var f := ShareTo(g, pt, d, v);
    var f' := ShareTo(g, pt', d, v);
    forall i | 0 <= i < |preds| ensures f(preds[i]) == f'(preds[i]) {
      var u := preds[i];
      assert u in preds;
      if TotalWeight(g, u) > 0.0 {
        assert pt.Get(u, 0.0) == pt'.Get(u, 0.0);
      }
    }
    SumOfExt(preds, f, f');
  }

  /**
   The ranks of dangling nodes are never read: two current vectors that
   agree on every node with positive out-weight give the same next vector.
   */
  lemma DanglingIgnored(g: Graph, p0: Dict, d: real, pt: Dict, pt': Dict)
    requires forall u :: u in g.nodes && TotalWeight(g, u) > 0.0 ==> pt.Get(u, 0.0) == pt'.Get(u, 0.0)
    ensures StepSpec(g, p0, d, pt) == StepSpec(g, p0, d, pt')
  {
    var a := NextVals(g, p0, d, pt, g.nodes);
    var b := NextVals(g, p0, d, pt', g.nodes);
    NextValsAt(g, p0, d, pt, g.nodes);
    NextValsAt(g, p0, d, pt', g.nodes);
    forall v | v in g.nodes ensures a[v] == b[v] {
      NextRankIgnoresDangling(g, p0, d, pt, pt', v);
    }
    assert a.Keys == b.Keys;
    assert a == b;
  }

  // ---------------------------------------------------------------------
  // The step as the source computes it

  /**
   The inner loop of `__compute_next_page_rank__`: adds to `rankSum` the
   share of each predecessor of `v`, raising KeyError at the first one with
   positive out-weight that `p_t` lacks.
   */
  method AddPredecessorShares(g: Graph, pt: Dict, d: real, v: Node, rankSum0: real) returns (r: Result<real>)
    ensures FirstMissingPred(g, pt, Preds(g, v)).None? ==> r == Ok(rankSum0 + Inflow(g, pt, d, v))
    ensures FirstMissingPred(g, pt, Preds(g, v)).Some? ==> r == Err(KeyError(FirstMissingPred(g, pt, Preds(g, v)).value))
  {
    var rankSum := rankSum0;
    var preds := Preds(g, v);
    var k := 0;
    while k < |preds|
      invariant 0 <= k <= |preds|
      invariant rankSum == rankSum0 + SharesTo(g, pt, d, preds[..k], v)
      invariant FirstMissingPred(g, pt, preds) == FirstMissingPred(g, pt, preds[k..])
    {
      var u := preds[k];
      SumOfPrefix(preds, k, ShareTo(g, pt, d, v));
      assert preds[k..][1..] == preds[k + 1..];
      var weightUV := EdgeWeight(g, u, v);
      var totalWeightU := TotalWeight(g, u);
      if totalWeightU > 0.0 {
        if u !in pt.vals {
          PredsMembers(g, v);
          return Err(KeyError(u));
        }
        ShareOf(g, pt, d, u, v, weightUV, totalWeightU);
        rankSum := rankSum + d * (pt.vals[u] * weightUV / totalWeightU);
      }
      k := k + 1;
    }
    assert preds[..k] == preds;
    assert preds[k..] == [];
    r := Ok(rankSum);
  }

  /** One node of the step's visiting order: its predecessors are looked up before the later nodes'. */
  lemma FirstMissingRankCons(g: Graph, pt: Dict, vs: seq<Node>, i: nat)
    requires i < |vs|
    ensures FirstMissingRank(g, pt, vs[i..]) ==
      if FirstMissingPred(g, pt, Preds(g, vs[i])).Some? then FirstMissingPred(g, pt, Preds(g, vs[i]))
      else FirstMissingRank(g, pt, vs[i + 1..])
  {
    assert vs[i..][0] == vs[i] && vs[i..][1..] == vs[i + 1..];
  }

  /**
   `__compute_next_page_rank__`: fills the next vector node by node in node
   order, each entry starting from the restart term.
   */
  method ComputeNextPageRank(g: Graph, p0: Dict, d: real, pt: Dict) returns (r: Result<Dict>)
    ensures r == StepResult(g, p0, d, pt)
  {
    var keys: seq<Node> := [];
    var vals: map<Node, real> := map[];
    var i := 0;
    while i < |g.nodes|
      invariant 0 <= i <= |g.nodes|
      invariant keys == g.nodes[..i]
      invariant vals == NextVals(g, p0, d, pt, keys)
      invariant FirstMissingRank(g, pt, g.nodes) == FirstMissingRank(g, pt, g.nodes[i..])
    {
      var v := g.nodes[i];
      FirstMissingRankCons(g, pt, g.nodes, i);
      var rankSum := AddPredecessorShares(g, pt, d, v, Restart(p0, d, v));
      if rankSum.Err? {
        return Err(rankSum.error);
      }
      assert rankSum.value == NextRank(g, p0, d, pt, v);
      var keys' := g.nodes[..i + 1];
      assert keys'[..i] == keys && keys'[i] == v;
      assert NextVals(g, p0, d, pt, keys') == vals[v := NextRank(g, p0, d, pt, v)];
      keys := keys';
      vals := vals[v := rankSum.value];
      i := i + 1;
    }
    assert g.nodes[..i] == g.nodes;
    assert g.nodes[i..] == [];
    r := Ok(Dict(keys, vals));
  }

  // ---------------------------------------------------------------------
  // Distance, ranking and the iteration

  /** The keys of `p` are graph nodes (no KeyError in the first distance). */
  ghost predicate KeysAreNodes(g: Graph, p: Dict)
  {
    forall k :: k in p.vals ==> k in g.nodes
  }

  /**
   `__norm_l1__(p_t_1, p_t)`: `sum(|p_t_1[k] - p_t[k]|)` over the keys of the
   previous vector `p_t`, raising KeyError at the first one the new vector lacks.
   */
  function NormL1(next: Dict, prev: Dict): Result<real>
  {
    match FirstMissing(prev.keys, next)
    case Some(k) => Err(KeyError(k))
    case None => Ok(AbsDiffSum(prev.keys, next, prev))
  }

  /**
   The distance fails exactly when the new vector lacks a key of the
   previous one; otherwise it is non-negative, and zero exactly when the two
   vectors agree on every key of the previous one.
   */
  lemma NormL1Correct(next: Dict, prev: Dict)
    requires prev.Valid()
    ensures NormL1(next, prev).Ok? <==> forall k :: k in prev.vals ==> k in next.vals
    ensures NormL1(next, prev).Err? ==>
      var e := NormL1(next, prev).error; e.KeyError? && e.key in prev.vals && e.key !in next.vals
    ensures NormL1(next, prev).Ok? ==> NormL1(next, prev).value >= 0.0
    ensures NormL1(next, prev).Ok? ==>
      (NormL1(next, prev).value == 0.0 <==> forall k :: k in prev.vals ==> next.vals[k] == prev.vals[k])
  {
    if FirstMissing(prev.keys, next).None? {
      AbsDiffSumZero(prev.keys, next, prev);
    }
  }

  /** One pass of `run`'s loop body from `pv`: the step, then the distance to `pv`. */
  function TurnOf(g: Graph, p0: Dict, d: real, pv: Dict): Turn
  {
    match StepResult(g, p0, d, pv)
    case Err(e) => Raise(e)
    case Ok(next) =>
      match NormL1(next, pv)
      case Err(e) => Raise(e)
      case Ok(diff) => Moved(next, diff)
  }

  function TurnFn(g: Graph, p0: Dict, d: real): Dict -> Turn
  {
    pv => TurnOf(g, p0, d, pv)
  }

  /** After the loop, `run` returns the ranked list of the last vector. */
  function RankFinish(): Dict -> Outcome
  {
    pv => Ranked(RankedList(pv))
  }

  /** `run`'s loop from vector `pv` with at most `fuel` turns. */
  function Loop(g: Graph, p0: Dict, d: real, pv: Dict, fuel: nat): Outcome
  {
    LoopWith(TurnFn(g, p0, d), RankFinish(), CONV_THRESHOLD, pv, fuel)
  }

  /** One turn of the loop once the step and the distance have both succeeded. */
  lemma LoopUnfold(g: Graph, p0: Dict, d: real, pv: Dict, fuel: nat, next: Dict, diff: real)
    requires fuel > 0 && TurnOf(g, p0, d, pv) == Moved(next, diff)
    ensures Loop(g, p0, d, pv, fuel) ==
      if diff > CONV_THRESHOLD then Loop(g, p0, d, next, fuel - 1) else Ranked(RankedList(next))
  {
  }

  /**
   `run`: starts from a copy of `p0` with `diff_norm = 1`, steps while the
   distance exceeds the threshold, and ranks the last vector computed.
   */
  method Run(g: Graph, p0: Dict, d: real, fuel: nat) returns (r: Outcome)
    ensures r == Loop(g, p0, d, p0, fuel)
  {
    var pv := p0;
    var diffNorm: real := 1.0;
    var left := fuel;
    while diffNorm > CONV_THRESHOLD
      invariant Loop(g, p0, d, p0, fuel) ==
        if diffNorm > CONV_THRESHOLD then Loop(g, p0, d, pv, left) else Ranked(RankedList(pv))
      decreases left
    {
      if left == 0 {
        return OutOfFuel;
      }
      var next := ComputeNextPageRank(g, p0, d, pv);
      if next.Err? {
        return Failed(next.error);
      }
      var diff := NormL1(next.value, pv);
      if diff.Err? {
        return Failed(diff.error);
      }
      LoopUnfold(g, p0, d, pv, left, next.value, diff.value);
      diffNorm := diff.value;
      pv := next.value;
      left := left - 1;
    }
    r := Ranked(RankedList(pv));
  }

  // ---------------------------------------------------------------------
  // What the iteration computes

  /** The vector after `k` error-free steps from `pv`. */
  function Iterate(g: Graph, p0: Dict, d: real, pv: Dict, k: nat): Dict
    decreases k
  {
    if k == 0 then pv else StepSpec(g, p0, d, Iterate(g, p0, d, pv, k - 1))
  }

  /** The L1 distance, over the keys of the earlier vector, between the vectors after `j` and `j + 1` steps. */
  function Dist(g: Graph, p0: Dict, d: real, pv: Dict, j: nat): real
  {
    var a := Iterate(g, p0, d, pv, j);
    AbsDiffSum(a.keys, StepSpec(g, p0, d, a), a)
  }

  function IterateFn(g: Graph, p0: Dict, d: real, pv: Dict): nat -> Dict
  {
    (j: nat) => Iterate(g, p0, d, pv, j)
  }

  function DistFn(g: Graph, p0: Dict, d: real, pv: Dict): nat -> real
  {
    (j: nat) => Dist(g, p0, d, pv, j)
  }

  /** A vector the loop can step from without a KeyError in the step or in the distance. */
  ghost predicate GoodStart(g: Graph, pv: Dict)
  {
    pv.Valid() && NoMissingRank(g, pv) && KeysAreNodes(g, pv)
  }

  /** Every vector a step produces is good: it has exactly one entry per node. */
  lemma StepSpecGood(g: Graph, p0: Dict, d: real, pt: Dict)
    requires Distinct(g.nodes)
    ensures GoodStart(g, StepSpec(g, p0, d, pt))
  {
    StepSpecCorrect(g, p0, d, pt);
  }

  /** From a good vector the turn succeeds: it moves to the step's vector at the L1 distance. */
  lemma TurnFromGood(g: Graph, p0: Dict, d: real, pv: Dict)
    requires Valid(g) && GoodStart(g, pv)
    ensures TurnOf(g, p0, d, pv) == Moved(StepSpec(g, p0, d, pv), AbsDiffSum(pv.keys, StepSpec(g, p0, d, pv), pv))
  {
    var next := StepSpec(g, p0, d, pv);
    StepFailsIffMissingRank(g, p0, d, pv);
    StepSpecCorrect(g, p0, d, pv);
    NormL1Correct(next, pv);
  }

  /** From a good vector, `Iterate` and `Dist` describe every turn of the loop. */
  lemma IterateDescribes(g: Graph, p0: Dict, d: real, pv: Dict, n: nat)
    requires Valid(g) && GoodStart(g, pv)
    ensures Describes(TurnFn(g, p0, d), IterateFn(g, p0, d, pv), DistFn(g, p0, d, pv), n)
  {
    var turn := TurnFn(g, p0, d);
    var vec := IterateFn(g, p0, d, pv);
    var dist := DistFn(g, p0, d, pv);
    forall j: nat | j < n ensures turn(vec(j)) == Moved(vec(j + 1), dist(j)) {
      var a := Iterate(g, p0, d, pv, j);
      if j > 0 {
        StepSpecGood(g, p0, d, Iterate(g, p0, d, pv, j - 1));
      }
      TurnFromGood(g, p0, d, a);
    }
  }

  /**
   From a good vector, the loop ranks the vector after `k + 1` steps when
   `k` is the first step count whose next distance is at most the threshold.
   */
  lemma LoopConverges(g: Graph, p0: Dict, d: real, pv: Dict, fuel: nat, k: nat)
    requires Valid(g) && GoodStart(g, pv) && k < fuel
    requires forall j :: 0 <= j < k ==> Dist(g, p0, d, pv, j) > CONV_THRESHOLD
    requires Dist(g, p0, d, pv, k) <= CONV_THRESHOLD
    ensures Loop(g, p0, d, pv, fuel) == Ranked(RankedList(Iterate(g, p0, d, pv, k + 1)))
  {
    var vec := IterateFn(g, p0, d, pv);
    var dist := DistFn(g, p0, d, pv);
    IterateDescribes(g, p0, d, pv, k + 1);
    assert forall j: nat :: j < k ==> dist(j) > CONV_THRESHOLD;
    LoopStopsAt(TurnFn(g, p0, d), RankFinish(), CONV_THRESHOLD, vec, dist, fuel, k);
    assert vec(0) == pv;
  }

  /** From a good vector, the loop runs out of fuel when every distance within the budget exceeds the threshold. */
  lemma LoopOutOfFuel(g: Graph, p0: Dict, d: real, pv: Dict, fuel: nat)
    requires Valid(g) && GoodStart(g, pv)
    requires forall j :: 0 <= j < fuel ==> Dist(g, p0, d, pv, j) > CONV_THRESHOLD
    ensures Loop(g, p0, d, pv, fuel) == OutOfFuel
  {
    var vec := IterateFn(g, p0, d, pv);
    var dist := DistFn(g, p0, d, pv);
    IterateDescribes(g, p0, d, pv, fuel);
    assert forall j: nat :: j < fuel ==> dist(j) > CONV_THRESHOLD;
    LoopRunsOut(TurnFn(g, p0, d), RankFinish(), CONV_THRESHOLD, vec, dist, fuel);
    assert vec(0) == pv;
  }

  /** From a good vector the loop never raises: every later vector has an entry for every node. */
  lemma LoopNeverFails(g: Graph, p0: Dict, d: real, pv: Dict, fuel: nat)
    requires Valid(g) && GoodStart(g, pv)
    ensures !Loop(g, p0, d, pv, fuel).Failed?
  {
    var vec := IterateFn(g, p0, d, pv);
    IterateDescribes(g, p0, d, pv, fuel);
    LoopEnds(TurnFn(g, p0, d), RankFinish(), CONV_THRESHOLD, vec, DistFn(g, p0, d, pv), fuel);
    assert vec(0) == pv;
  }

  /**
   `run` (given at least one turn) raises exactly when `p0` lacks a node
   with positive out-weight (KeyError in the first step) or has a key that
   is no node (KeyError in the first distance).
   */
  lemma RunFailsIff(g: Graph, p0: Dict, d: real, fuel: nat)
    requires Valid(g) && p0.Valid() && fuel > 0
    ensures Loop(g, p0, d, p0, fuel).Failed? <==> !(NoMissingRank(g, p0) && KeysAreNodes(g, p0))
    ensures Loop(g, p0, d, p0, fuel).Failed? ==>
      var e := Loop(g, p0, d, p0, fuel).error;
      e.KeyError? && (MissingRank(g, p0, e.key) || (e.key in p0.vals && e.key !in g.nodes))
  {
    if GoodStart(g, p0) {
      LoopNeverFails(g, p0, d, p0, fuel);
    } else {
      StepFailsIffMissingRank(g, p0, d, p0);
      if NoMissingRank(g, p0) {
        var next := StepSpec(g, p0, d, p0);
        StepSpecCorrect(g, p0, d, p0);
        NormL1Correct(next, p0);
      }
    }
  }
}

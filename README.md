# BioRank core in Dafny

BioRank ranks genes by propagating seed evidence over a weighted, directed
interaction graph with a restart-biased random walk. This project models
the three algorithmic parts of the repository and proves properties of the
model:

- **`PageRankCore`** (`page_rank_core.dfy`) is the personalized weighted
  PageRank.
  - One step gives node `v` the restart mass `(1 - d) * p0.get(v, 0)`.
  - It adds `d * p_t[u] * w(u, v) / W(u)` for every predecessor `u` whose
    total out-weight `W(u)` is positive. A missing `weight` attribute
    counts as 0.
  - `run` starts from a copy of `p0`. It steps until the L1 distance to
    the previous vector is at most `CONV_THRESHOLD` (`1e-6`), then ranks
    the last vector.
- **`PageRankOri`** (`page_rank_ori.dfy`) is the classic PageRank.
  - The constructor rebuilds the graph with `add_edge`, normalising every
    node's out-weights. A missing weight counts as 1 there.
  - One step gives node `i` the value `(1 - d) / n` plus
    `d * p_t[j] / out_degree(j)` for every predecessor `j`.
  - `run` starts from the uniform vector over the rebuilt graph's nodes.
    It computes the out-degree list (whose `min` fails on an empty
    graph) and ranks the last vector.
- **`PValueCorrection`** (`p_value_correction.dfy`) is the FDR correction
  of the enrichment pipeline.
  - Methods `i`, `indep`, `p` and `poscorr` use the Benjamini–Hochberg
    step-up rule. Methods `n` and `negcorr` use the Benjamini–Yekutieli
    variant.
  - The correction has a rejection flag and an adjusted p-value for every
    hypothesis.
  - Finally `compute_p_value_fdr_correction` collects the ids of the
    rejected hypotheses.

The shared modules are:

- `common.dfy`: Python dicts as an insertion-ordered key list plus a map,
  and the error and outcome types.
- `graphs.dfy`: the networkx `DiGraph` as a node list plus ordered
  successor lists with optional weights, together with `add_node`,
  `add_edge`, `predecessors` and `out_degree`.
- `sums.dfy`: finite sums, filters and distinctness.
- `ranking.dfy`: `sorted(..., key=score, reverse=True)` as a stable
  insertion sort, and a proof that every stable descending sort gives the
  same list.
- `iteration.dfy`: the `while diff_norm > CONV_THRESHOLD` loop common to
  both solvers, with the step and the final action as parameters.

Modelling choices:

- **Numbers.** Floats are exact reals.
- **Loop bound.** Each `run` loop takes a `fuel` bound. The outcome is
  `Ranked(list)`, `Failed(error)` or `OutOfFuel`.
- **Exceptions.** The `KeyError`, networkx and `ValueError` exceptions the
  code can raise are explicit `Err` values.
- **Imperative parts.** The step loops, the graph rebuild, the two `run`
  loops, the in-place array updates of `fdr_correction` and the id loop
  of `compute_p_value_fdr_correction` are methods. Each is proved equal to
  a specification function. The properties the code promises are lemmas
  about those functions.

## Model

| member | source | states |
|---|---|---|
| `PageRankCore.ComputeNextPageRank` | improved_pagerank/core/page_rank_core.py:14-35 | The step loop returns the specified step: a KeyError at the first node, in node order, whose predecessors include one with positive out-weight and no rank. That KeyError names the first such predecessor in node order. Otherwise the step returns one entry per node with that node's next rank. |
| `PageRankCore.AddPredecessorShares` | improved_pagerank/core/page_rank_core.py:26-31 | The inner loop adds to `rank_sum` the share of every predecessor with positive total out-weight. It raises KeyError at the first such predecessor without a rank, taking predecessors in node order. |
| `PageRankCore.StepSpecCorrect` | improved_pagerank/core/page_rank_core.py:18-33 | The next vector is a valid dict. Its keys are exactly the graph's nodes, not the personalization keys, and each holds `NextRank`. |
| `PageRankCore.StepFailsIffMissingRank` | improved_pagerank/core/page_rank_core.py:26-31 | The step succeeds exactly when every node with positive out-weight has a rank. On failure the error is a KeyError naming such a node. |
| `PageRankCore.FirstMissingPredCorrect` | improved_pagerank/core/page_rank_core.py:26-31 | The search for the first failing lookup among the predecessors finds nothing exactly when no predecessor's lookup fails. What it finds does fail. |
| `PageRankCore.FirstMissingRankCorrect` | improved_pagerank/core/page_rank_core.py:21-31 | Over the node loop, the first failing lookup is absent exactly when no predecessor of any node fails. What it finds does fail. |
| `PageRankCore.WeightToAt` | improved_pagerank/core/page_rank_core.py:27 | `G[u][v].get('weight', 0)` reads that edge's own attribute, and is 0 when the attribute is missing. |
| `PageRankCore.RestartOnly` | improved_pagerank/core/page_rank_core.py:23-31 | If every predecessor of `v` is dangling, `v` gets only the restart term `(1 - d) * p0.get(v, 0)`. There is no division by zero. |
| `PageRankCore.NextRankIgnoresDangling` | improved_pagerank/core/page_rank_core.py:26-31 | A node's next rank depends on `p_t` only at nodes with positive out-weight. |
| `PageRankCore.DanglingIgnored` | improved_pagerank/core/page_rank_core.py:21-33 | Two vectors that agree on every node with positive out-weight give the same next vector. |
| `PageRankCore.ShareNonNeg` | improved_pagerank/core/page_rank_core.py:27-31 | With `d >= 0`, non-negative weights and non-negative ranks, a predecessor's share is non-negative. |
| `PageRankCore.NextRankNonNeg` | improved_pagerank/core/page_rank_core.py:23-31 | With `0 <= d <= 1`, non-negative weights, `p0` and `p_t`, each next rank is non-negative. |
| `PageRankCore.StepNonNegative` | improved_pagerank/core/page_rank_core.py:18-35 | Under the same conditions every entry of the next vector is non-negative. |
| `PageRankCore.NormL1Correct` | improved_pagerank/core/page_rank_core.py:44-48 | The L1 distance over the previous vector's keys fails exactly when the new vector lacks one of them, with KeyError naming that key. Otherwise it is non-negative, and 0 exactly when the vectors agree on those keys. |
| `PageRankCore.Run` | improved_pagerank/core/page_rank_core.py:50-62 | The `while` loop started from `p0` with `diff_norm = 1` returns the specified loop outcome. |
| `PageRankCore.LoopConverges` | improved_pagerank/core/page_rank_core.py:55-62 | If the first `k` distances exceed the threshold and distance `k` does not, `run` ranks iterate `k + 1`. The first step always runs. |
| `PageRankCore.LoopOutOfFuel` | improved_pagerank/core/page_rank_core.py:57-60 | If every distance within the bound exceeds the threshold, the loop never stops within the bound. |
| `PageRankCore.LoopNeverFails` | improved_pagerank/core/page_rank_core.py:57-62 | From a vector with a rank for every positive-weight node and only node keys, no step and no distance raises. |
| `PageRankCore.RunFailsIff` | improved_pagerank/core/page_rank_core.py:54-62 | `run` raises exactly in two cases: a node with positive out-weight lacks a `p0` entry (KeyError at line 31), or a `p0` key is not a node (KeyError at line 48). |
| `PageRankOri.NormalizeGraph` | improved_pagerank/core/page_rank_ori.py:47-63 | The `add_edge` loops build the specified normalised graph. |
| `PageRankOri.NormalizedGraphCorrect` | improved_pagerank/core/page_rank_ori.py:51-63 | The rebuilt graph keeps exactly the original edges, and each row holds the normalised weights. Its nodes are exactly those with an incident edge, so isolated nodes are dropped. |
| `PageRankOri.NormRowTotal` | improved_pagerank/core/page_rank_ori.py:54-60 | A normalised row sums to 1 when `total_weight != 0`, and to 0 otherwise. Missing weights count as 1. |
| `PageRankOri.NormalizedOutWeight` | improved_pagerank/core/page_rank_ori.py:53-61 | Every node's out-weights in the rebuilt graph sum to 1, or to 0 when its original total is 0. |
| `PageRankOri.ComputeNextPageRank` | improved_pagerank/core/page_rank_ori.py:13-29 | The step loop over `p_t`'s keys returns the specified step. It fails with the networkx error for a key that is no node, or a KeyError for a predecessor without a rank. Otherwise it gives every key its next rank. Keys are visited in `p_t`'s order, and each key's predecessors in node order. |
| `PageRankOri.AddInflow` | improved_pagerank/core/page_rank_ori.py:22-25 | The inner loop adds `d * p_t[j] / out_degree(j)` for every predecessor `j`. It raises KeyError at the first one without a rank, taking predecessors in node order. |
| `PageRankOri.OriStepSpecCorrect` | improved_pagerank/core/page_rank_ori.py:14-29 | The next vector has the same keys as `p_t`, in the same order. Each key holds `(1 - d) / n` plus the shares of its predecessors. |
| `PageRankOri.OriShareOfPred` | improved_pagerank/core/page_rank_ori.py:22-25 | A predecessor always has positive out-degree, so its share is `d * p_t[j] / out_degree(j)`: edge counts, not normalised weights. |
| `PageRankOri.OriStepFailsIff` | improved_pagerank/core/page_rank_ori.py:18-27 | The step succeeds exactly when every key is a node and every predecessor of a key is a key. Otherwise it names the offending key or predecessor. |
| `PageRankOri.FirstOriFaultCorrect` | improved_pagerank/core/page_rank_ori.py:18-25 | The first fault of the key loop is absent exactly when no key raises. A fault is a key that is no node or a predecessor without a rank. |
| `PageRankOri.InflowIsOutflow` | improved_pagerank/core/page_rank_ori.py:22-25 | Summed over all keys, the shares nodes receive equal the shares their predecessors send. |
| `PageRankOri.OriStepMass` | improved_pagerank/core/page_rank_ori.py:14-29 | The next vector's total is `(1 - d) + d` times the rank held by nodes with an out-edge. |
| `PageRankOri.OriStepKeepsMass` | improved_pagerank/core/page_rank_ori.py:14-29 | With no node of out-degree 0, the total after a step is `(1 - d) + d * total`. A vector summing to 1 gives one summing to 1. |
| `PageRankOri.OriIterateKeepsMass` | improved_pagerank/core/page_rank_ori.py:68-74 | With no node of out-degree 0, every vector of the iteration from the uniform start sums to 1. |
| `PageRankOri.OriNormL1Correct` | improved_pagerank/core/page_rank_ori.py:41-45 | The L1 distance over the new vector's keys fails exactly when the old vector lacks one of them. Otherwise it is non-negative, and 0 exactly when the vectors agree. |
| `PageRankOri.UniformCorrect` | improved_pagerank/core/page_rank_ori.py:68-69 | The start vector holds `1 / n` for each node, in node order. It sums to 1 when there is a node. |
| `PageRankOri.GenerateRankedList` | improved_pagerank/core/page_rank_ori.py:31-39 | The append loop followed by `sorted` yields the ranked list of the vector's items. |
| `PageRankOri.Run` | improved_pagerank/core/page_rank_ori.py:64-79 | The loop from the uniform vector over the stored graph, followed by the out-degree list, returns the specified outcome. |
| `PageRankOri.OriLoopConverges` | improved_pagerank/core/page_rank_ori.py:70-79 | If the first `k` distances exceed the threshold and distance `k` does not, `run` finishes on iterate `k + 1`. |
| `PageRankOri.OriLoopOutOfFuel` | improved_pagerank/core/page_rank_ori.py:70-74 | If every distance within the bound exceeds the threshold, the loop never stops within the bound. |
| `PageRankOri.OriLoopNeverFails` | improved_pagerank/core/page_rank_ori.py:68-79 | On a well-formed graph with a node, nothing in `run` raises from a vector whose keys are nodes and which has a rank for every predecessor. |
| `PageRankOri.RunFailsIff` | improved_pagerank/core/page_rank_ori.py:47-79 | Normalising the input graph and then running raises exactly when the input graph has no edge. The error is then ValueError from `min` of the empty out-degree list. |
| `Ranking.SortByScoreDescCorrect` | improved_pagerank/core/page_rank_core.py:41 | The sort is non-increasing in score, a permutation of its input, and stable: each equal-score sublist keeps its input order. |
| `Ranking.StableSortUnique` | improved_pagerank/core/page_rank_core.py:41 | Two non-increasing lists with the same equal-score sublists are equal, so any stable descending sort gives the modelled list. |
| `Ranking.RankedListCorrect` | improved_pagerank/core/page_rank_ori.py:35-38 | The ranked list is a non-increasing, stable permutation of the vector's `(node, score)` items. |
| `Iteration.LoopStopsAt` | improved_pagerank/core/page_rank_core.py:55-60 | The loop finishes on the vector of the first turn whose distance is at most the threshold. |
| `Iteration.LoopRunsOut` | improved_pagerank/core/page_rank_core.py:55-60 | A loop whose every distance exceeds the threshold exhausts any bound. |
| `Iteration.LoopEnds` | improved_pagerank/core/page_rank_core.py:55-62 | Without exceptions the loop either exhausts the bound or finishes on one of its iterates. |
| `Common.AbsDiffSumZero` | improved_pagerank/core/page_rank_core.py:48 | A sum of absolute differences is non-negative, and 0 exactly when the two vectors agree on every summed key. |
| `Common.FirstMissing` | improved_pagerank/core/page_rank_core.py:48 | The first key the other dict lacks: none exactly when the dict has every key. Otherwise it is one of the keys and missing. |
| `Graphs.PredsMembers` | improved_pagerank/core/page_rank_core.py:26 | `predecessors(v)` lists exactly the nodes with an edge to `v`. |
| `Graphs.AddEdgeFresh` | improved_pagerank/core/page_rank_ori.py:61 | `add_edge` of a new edge keeps the graph well formed. It appends the new endpoints in order and adds exactly that edge. |
| `PValueCorrection.EcdfCorrect` | data_preprocessing/enrichment_pipeline/p_value_correction.py:6-9 | `_ecdf` has length `n`, with `(k + 1) / n` at position `k`. Its values are strictly increasing in `(0, 1]`, and the last is 1. |
| `PValueCorrection.Harmonic` | data_preprocessing/enrichment_pipeline/p_value_correction.py:45 | `cm = H_n` lies between 1 and `n` once there is a p-value. |
| `PValueCorrection.EcdfFactor` | data_preprocessing/enrichment_pipeline/p_value_correction.py:42-48 | Every factor sequence the method names produce has length `n`, and its entries lie in `(0, 1]`, strictly increasing. |
| `PValueCorrection.EcdfFactorCorrect` | data_preprocessing/enrichment_pipeline/p_value_correction.py:42-48 | `i`/`indep`/`p`/`poscorr` use the ECDF, and `n`/`negcorr` the ECDF divided by `H_n`. Any other name raises ValueError, and only those names do. |
| `PValueCorrection.DividedFactors` | data_preprocessing/enrichment_pipeline/p_value_correction.py:46 | Dividing good factors by a constant of at least 1 keeps them in `(0, 1]` and strictly increasing. |
| `PValueCorrection.InverseOfCorrect` | data_preprocessing/enrichment_pipeline/p_value_correction.py:40 | `sortind.argsort()` of a permutation is a permutation that undoes it from both sides. |
| `PValueCorrection.SortedPosition` | data_preprocessing/enrichment_pipeline/p_value_correction.py:38-40 | Input `i` sits at sorted position `sortrevind[i]`, and `pvals_sorted` is non-decreasing. |
| `PValueCorrection.LastTrue` | data_preprocessing/enrichment_pipeline/p_value_correction.py:51-54 | `max(np.nonzero(reject)[0])` finds none exactly when no flag is set. Otherwise it is the position of a set flag after which none is set. |
| `PValueCorrection.RejectMaxShape` | data_preprocessing/enrichment_pipeline/p_value_correction.py:51-55 | After `reject[:rejectmax] = True`, position `k` is set exactly when some flag at `k` or later was set. |
| `PValueCorrection.RaisedIsStepUp` | data_preprocessing/enrichment_pipeline/p_value_correction.py:50-55 | The flags after raising the prefix are the step-up rejections. |
| `PValueCorrection.RejectSpecPrefix` | data_preprocessing/enrichment_pipeline/p_value_correction.py:50-55 | In sorted order the rejections form a prefix. It is empty when no p-value lies below its line, and it ends at the last one that does. |
| `PValueCorrection.SuffixMinIsMin` | data_preprocessing/enrichment_pipeline/p_value_correction.py:58 | The reversed `minimum.accumulate` at `k` is the least of the ratios at `k` and after: at most each, and equal to one. |
| `PValueCorrection.SuffixMinMonotone` | data_preprocessing/enrichment_pipeline/p_value_correction.py:58 | The accumulated minima are non-decreasing along the sorted order. |
| `PValueCorrection.AdjustedSpecBounds` | data_preprocessing/enrichment_pipeline/p_value_correction.py:57-59 | In sorted order each adjusted value is at most its own ratio and at most 1. The values are non-decreasing, and non-negative for non-negative p-values. |
| `PValueCorrection.RejectIffAdjustedBelow` | data_preprocessing/enrichment_pipeline/p_value_correction.py:50-59 | With `alpha <= 1`, a sorted position is rejected exactly when its adjusted value is below `alpha`. |
| `PValueCorrection.AdjustedTies` | data_preprocessing/enrichment_pipeline/p_value_correction.py:57-58 | Equal non-negative p-values get equal adjusted values, whichever order the sort put them in. |
| `PValueCorrection.FdrCorrection` | data_preprocessing/enrichment_pipeline/p_value_correction.py:12-62 | `fdr_correction` with its in-place updates of `reject` and `pvals_corrected` returns the specified correction, or ValueError. |
| `PValueCorrection.FdrSpecShape` | data_preprocessing/enrichment_pipeline/p_value_correction.py:38-61 | The correction fails only on an unknown method name, with ValueError. Both outputs have one entry per p-value, and input `sortind[k]` carries sorted position `k`'s values. |
| `PValueCorrection.FdrSpecAt` | data_preprocessing/enrichment_pipeline/p_value_correction.py:60-61 | Entry `i` of both outputs is the value computed at `i`'s sorted position `sortrevind[i]`. |
| `PValueCorrection.FdrRejectIffCorrectedBelow` | data_preprocessing/enrichment_pipeline/p_value_correction.py:50-61 | Every adjusted value is at most 1, and at least 0 for non-negative p-values. With `alpha <= 1`, a hypothesis is rejected exactly when its adjusted value is below `alpha`. |
| `PValueCorrection.FdrCorrectedMonotone` | data_preprocessing/enrichment_pipeline/p_value_correction.py:38-61 | For non-negative p-values, `pvals[i] <= pvals[j]` implies `corrected[i] <= corrected[j]`, in the input order. |
| `PValueCorrection.FdrRejectDownwardClosed` | data_preprocessing/enrichment_pipeline/p_value_correction.py:50-61 | With `alpha <= 1` and non-negative p-values, a hypothesis whose p-value is at most that of a rejected one is rejected too. |
| `PValueCorrection.ExampleFactors` | data_preprocessing/enrichment_pipeline/p_value_correction.py:42-43 | For 4 p-values and method `indep` the factors are `1/4, 2/4, 3/4, 1`. |
| `PValueCorrection.ExampleRejections` | data_preprocessing/enrichment_pipeline/p_value_correction.py:50-55 | Against the lines `.0125, .025, .0375, .05`, the sorted values `0.01, 0.02, 0.03, 0.5` give the flags `true, true, true, false`. |
| `PValueCorrection.ExampleAdjusted` | data_preprocessing/enrichment_pipeline/p_value_correction.py:57-59 | Their adjusted values are `0.04, 0.04, 0.04, 0.5`. |
| `PValueCorrection.WorkedExample` | data_preprocessing/enrichment_pipeline/p_value_correction.py:12-62 | `fdr_correction([0.01, 0.02, 0.03, 0.5], 0.05, 'indep')` rejects the first three, with adjusted values `0.04, 0.04, 0.04, 0.5`. |
| `PValueCorrection.Flagged` | data_preprocessing/enrichment_pipeline/p_value_correction.py:74-76 | The zip loop collects exactly the ids whose flag is set. With distinct ids, an id is collected exactly when its own flag is set. |
| `PValueCorrection.ComputePValueFdrCorrection` | data_preprocessing/enrichment_pipeline/p_value_correction.py:65-78 | The result holds exactly the keys whose `indep` reject flag is set, so it is a subset of the keys. With a threshold of at most 1, it holds exactly the keys whose adjusted p-value is below the threshold. |

## Left out

- Floating point: every number is an exact real. IEEE rounding, NaN and infinities are not modelled, and neither is whether the float iteration converges.
- Termination: the source loops `while diff_norm > CONV_THRESHOLD` with no cap. Both `Run` methods take a `fuel` bound and return `OutOfFuel` when it is used up. What the unbounded loop does after that many turns is not modelled.
- Convergence: the loop stops as soon as a distance is at most the threshold, as the code's `>` test does, not only when it is strictly below.
- Console output: the two `print` calls of `PageRankOri.run` (page_rank_ori.py:77-78) are left out. The `min` they need is kept as the ValueError on an empty graph, and `max` can then no longer fail.
- The `PageRankCore` and `PageRankOri` classes: their fields never change after construction, so the constructors become parameters. `PageRankOri`'s constructor is `NormalizeGraph`. `Run` takes the graph it stored, and `RunFailsIff` composes the two.
- `PageRankOri` on an empty graph: the code divides `1 / n` only inside a comprehension over no nodes, so nothing is divided by zero. The failure is `min([])` at line 77, modelled as `Failed(ValueError)`.
- networkx: `DiGraph` is a node list plus successor lists. `predecessors` lists nodes in node order. networkx lists them in the order their edges into the node were added. For exact reals this changes no sum. It can change which predecessor an error names, as the four lines below say. `G.predecessors(i)` on a non-node raises `NetworkXError`, modelled as `NotInGraph`. Other library internals are not modelled.
- PageRankCore.ComputeNextPageRank: when one node has several predecessors with positive out-weight and no rank, the KeyError names the first in node order. networkx names the first in the order its edges were added, so the key may differ. Whether the step fails, and the sum on success, are unchanged.
- PageRankCore.AddPredecessorShares: the KeyError names the first rank-less predecessor in node order, not in networkx's edge-insertion order.
- PageRankOri.ComputeNextPageRank: when one key has several predecessors without a rank, the KeyError names the first in node order, not in networkx's edge-insertion order. Whether the step fails, and the ranks on success, are unchanged.
- PageRankOri.AddInflow: the KeyError names the first rank-less predecessor in node order, not in networkx's edge-insertion order.
- `np.argsort`: the sort is numpy's and is not stable, so `FdrCorrection` takes any sorting permutation `sortind` as an argument. `ComputePValueFdrCorrection` takes it for the scores it builds. `sortind.argsort()` of a permutation is modelled exactly as its inverse.
- Array shape: `np.asarray`, `ravel` and `reshape(shape_init)` (lines 34-36, 60-61) are identities on the one-dimensional lists the pipeline passes, so arrays are sequences.
- External collaborators: the GUI, file converters and the callers that build the graph, the personalization vector and the p-value mapping are not part of this model.

/**
 Values shared by the two PageRank solvers and the FDR utility: node
 identifiers, the errors the Python code can raise, and an insertion-ordered
 dictionary from nodes to scores (a Python `dict` of floats).
 */
module Common {
  import opened Sums

  /** Genes are identified by their names. */
  type Node = string

  datatype Option<T> = None | Some(value: T)

  /** The exceptions the modelled code can raise. */
  datatype Error =
    | KeyError(key: Node)    // a dict lookup `d[key]` on a missing key
    | NotInGraph(key: Node)  // networkx's NetworkXError from `G.predecessors(key)` on a node the graph lacks
    | ValueError             // `min` of an empty list, or an unknown FDR method name

  datatype Result<T> = Ok(value: T) | Err(error: Error)

  /**
   A Python dict from nodes to floats: `keys` is its iteration (insertion)
   order, `vals` its contents.
   */
  datatype Dict = Dict(keys: seq<Node>, vals: map<Node, real>)
  {
    ghost predicate Valid()
    {
      Distinct(keys) && forall k :: k in vals <==> k in keys
    }

    /** `d.get(k, dflt)`. */
    function Get(k: Node, dflt: real): (r: real)
      ensures k in vals ==> r == vals[k]
      ensures k !in vals ==> r == dflt
    {
      if k in vals then vals[k] else dflt
    }

    /** `list(d.items())`: the (key, value) pairs in iteration order (every key has a value in a valid dict). */
    function Items(): (r: seq<(Node, real)>)
      ensures |r| == |keys|
      ensures forall i :: 0 <= i < |r| ==> r[i].0 == keys[i] && r[i].1 == Get(keys[i], 0.0)
    {
      seq(|keys|, i requires 0 <= i < |keys| => (keys[i], Get(keys[i], 0.0)))
    }

    /** `k |-> d.get(k, 0)`. */
    function ValueFn(): Node -> real
    {
      k => Get(k, 0.0)
    }

    /** `sum(d.values())`, in key order. */
    function Total(): real
    {
      SumOf(keys, ValueFn())
    }
  }

  /** What a solver's `run` ends with: a ranked list, an exception, or (in this model only) an exhausted iteration budget. */
  datatype Outcome =
    | Ranked(list: seq<(Node, real)>)
    | Failed(error: Error)
    | OutOfFuel

  function Abs(x: real): real
  {
    if x < 0.0 then -x else x
  }

  /** The first of `keys`, in order, that is not a key of `d`. */
  function FirstMissing(keys: seq<Node>, d: Dict): (r: Option<Node>)
    ensures r.None? <==> forall k :: k in keys ==> k in d.vals
    ensures r.Some? ==> r.value in keys && r.value !in d.vals
    decreases |keys|
  {
    if |keys| == 0 then None
    else if keys[0] !in d.vals then Some(keys[0])
    else
      var r := FirstMissing(keys[1..], d);
      assert forall k :: k in keys <==> k == keys[0] || k in keys[1..];
      r
  }

  /** `sum(abs(a[k] - b[k]) for k in keys)`, for keys present in both dicts. */
  function AbsDiffSum(keys: seq<Node>, a: Dict, b: Dict): real
  {
    SumOf(keys, k => Abs(a.Get(k, 0.0) - b.Get(k, 0.0)))
  }

  /** The L1 distance is non-negative, and zero exactly when the two dicts agree on every key summed over. */
  lemma AbsDiffSumZero(keys: seq<Node>, a: Dict, b: Dict)
    requires forall k :: k in keys ==> k in a.vals && k in b.vals
    ensures AbsDiffSum(keys, a, b) >= 0.0
    ensures AbsDiffSum(keys, a, b) == 0.0 <==> forall k :: k in keys ==> a.vals[k] == b.vals[k]
  {
    var f := k => Abs(a.Get(k, 0.0) - b.Get(k, 0.0));
    SumOfNonNeg(keys, f);
    SumOfZeroIff(keys, f);
    if AbsDiffSum(keys, a, b) == 0.0 {
      forall k | k in keys ensures a.vals[k] == b.vals[k] {
        var i :| 0 <= i < |keys| && keys[i] == k;
        assert f(keys[i]) == 0.0;
      }
    }
  }
}

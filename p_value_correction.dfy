/**
 The false-discovery-rate correction of the enrichment pipeline, after
 statsmodels' `fdrcorrection`: the Benjamini–Hochberg step-up procedure
 (methods `i`, `indep`, `p`, `poscorr`) and the Benjamini–Yekutieli variant
 (methods `n`, `negcorr`), and the helper that keeps the ids of the
 rejected hypotheses.  numpy arrays are sequences (or Dafny arrays where
 the code assigns into them), floats are exact reals, and the permutation
 `np.argsort(pvals)` is an argument: any permutation that sorts the
 p-values, since numpy's default sort is not stable.
 */
module PValueCorrection {
  import opened Sums
  import opened Common

  // ---------------------------------------------------------------------
  // Permutations and fancy indexing

  /** `perm` lists every index below `|perm|` exactly once. */
  ghost predicate IsPermutation(perm: seq<nat>)
  {
    && (forall k :: 0 <= k < |perm| ==> perm[k] < |perm|)
    && (forall k, l :: 0 <= k < l < |perm| ==> perm[k] != perm[l])
    && (forall i: nat :: i < |perm| ==> i in perm)
  }

  /** What `np.argsort(pvals)` may return: a permutation listing `pvals` in non-decreasing order. */
  ghost predicate IsSortingPermutation(pvals: seq<real>, perm: seq<nat>)
  {
    && |perm| == |pvals|
    && IsPermutation(perm)
    && forall k, l :: 0 <= k < l < |perm| ==> pvals[perm[k]] <= pvals[perm[l]]
  }

  /** `v[idx]`, numpy's fancy indexing: the entries of `v` at the positions `idx` lists. */
  function Permuted<T>(v: seq<T>, idx: seq<nat>): (r: seq<T>)
    requires forall k :: 0 <= k < |idx| ==> idx[k] < |v|
    ensures |r| == |idx|
    ensures forall k :: 0 <= k < |idx| ==> r[k] == v[idx[k]]
  {
    seq(|idx|, k requires 0 <= k < |idx| => v[idx[k]])
  }

  /** The first position of `i` in `perm`, or `|perm|` when `i` does not occur. */
  function IndexOf(perm: seq<nat>, i: nat): (r: nat)
    ensures r <= |perm|
    ensures r < |perm| ==> perm[r] == i
    ensures r == |perm| <==> i !in perm
    ensures forall k :: 0 <= k < r ==> perm[k] != i
    decreases |perm|
  {
    if |perm| == 0 then 0
    else if perm[0] == i then 0
    else
      var r := IndexOf(perm[1..], i);
      assert forall k :: 1 <= k < |perm| ==> perm[k] == perm[1..][k - 1];
      assert i in perm <==> i in perm[1..];
      1 + r
  }

  /** `perm.argsort()` for a permutation: the position at which each index occurs. */
  function InverseOf(perm: seq<nat>): (r: seq<nat>)
    ensures |r| == |perm|
  {
    seq(|perm|, i requires 0 <= i < |perm| => IndexOf(perm, i))
  }

  /** The inverse of a permutation is a permutation, and undoes it from either side. */
  lemma InverseOfCorrect(perm: seq<nat>)
    requires IsPermutation(perm)
    ensures IsPermutation(InverseOf(perm))
    ensures forall k :: 0 <= k < |perm| ==> InverseOf(perm)[perm[k]] == k
    ensures forall i :: 0 <= i < |perm| ==> perm[InverseOf(perm)[i]] == i
  {
    var inv := InverseOf(perm);
    forall i | 0 <= i < |perm| ensures inv[i] < |perm| && perm[inv[i]] == i {
      assert i in perm;
    }
    forall k | 0 <= k < |perm| ensures inv[perm[k]] == k {
      var r := inv[perm[k]];
      assert perm[r] == perm[k];
    }
    forall i: nat | i < |inv| ensures i in inv {
      assert inv[perm[i]] == i;
    }
  }

  // ---------------------------------------------------------------------
  // The ECDF factors

  /** `_ecdf(x)` for `len(x) == n`: `np.arange(1, n + 1) / float(n)`. */
  function Ecdf(n: nat): seq<real>
  {
    seq(n, k requires 0 <= k < n => EcdfValue(k, n))
  }

  /** Position `k` of the ECDF of `n` observations. */
  function EcdfValue(k: nat, n: nat): real
    requires k < n
  {
    (k + 1) as real / n as real
  }

  lemma EcdfValueBounds(k: nat, n: nat)
    requires k < n
    ensures 0.0 < EcdfValue(k, n) <= 1.0
    ensures k == n - 1 ==> EcdfValue(k, n) == 1.0
  {
    FractionBelow(0.0, (k + 1) as real, n as real);
    if k + 1 < n {
      FractionBelow((k + 1) as real, n as real, n as real);
    }
  }

  lemma EcdfValueIncreasing(k: nat, l: nat, n: nat)
    requires k < l < n
    ensures EcdfValue(k, n) < EcdfValue(l, n)
  {
    FractionBelow((k + 1) as real, (l + 1) as real, n as real);
  }

  /** Factors the correction can divide by: positive, at most 1 and strictly increasing. */
  ghost predicate GoodFactors(ef: seq<real>)
  {
    && (forall k :: 0 <= k < |ef| ==> 0.0 < ef[k] <= 1.0)
    && (forall k, l :: 0 <= k < l < |ef| ==> ef[k] < ef[l])
  }

  lemma FractionBelow(a: real, b: real, n: real)
    requires 0.0 <= a < b && n > 0.0
    ensures a / n < b / n
  {
  }

  /** The ECDF of `n` observations is `(k + 1) / n` at position `k`: positive, at most 1, strictly increasing, and 1 at the end. */
  lemma EcdfCorrect(n: nat)
    ensures |Ecdf(n)| == n
    ensures forall k :: 0 <= k < n ==> Ecdf(n)[k] == (k + 1) as real / n as real
    ensures GoodFactors(Ecdf(n))
    ensures n > 0 ==> Ecdf(n)[n - 1] == 1.0
  {
    var e := Ecdf(n);
    forall k | 0 <= k < n ensures 0.0 < e[k] <= 1.0 {
      EcdfValueBounds(k, n);
    }
    forall k, l | 0 <= k < l < n ensures e[k] < e[l] {
      EcdfValueIncreasing(k, l, n);
    }
    if n > 0 {
      EcdfValueBounds(n - 1, n);
    }
  }

  /** `np.sum(1. / np.arange(1, n + 1))`, the harmonic number `H_n`: `1 <= H_n <= n` once there is a term. */
  function Harmonic(n: nat): (h: real)
    ensures n > 0 ==> 1.0 <= h <= n as real
    ensures n == 0 ==> h == 0.0
  {
    if n == 0 then 0.0
    else
      assert 0.0 < 1.0 / n as real <= 1.0;
      Harmonic(n - 1) + 1.0 / n as real
  }

  /** `xs / c` elementwise (numpy divides an empty array by anything, 0 included). */
  function Divided(xs: seq<real>, c: real): (r: seq<real>)
    requires |xs| == 0 || c != 0.0
    ensures |r| == |xs|
  {
    seq(|xs|, k requires 0 <= k < |xs| => xs[k] / c)
  }

  const BH_METHODS: seq<string> := ["i", "indep", "p", "poscorr"]
  const BY_METHODS: seq<string> := ["n", "negcorr"]

  /** `ecdffactor` for method name `meth` and `n` p-values, or the ValueError for an unknown name. */
  function EcdfFactor(meth: string, n: nat): (r: Result<seq<real>>)
    ensures r.Ok? ==> |r.value| == n && GoodFactors(r.value)
  {
    EcdfCorrect(n);
    if meth in BH_METHODS then Ok(Ecdf(n))
    else if meth in BY_METHODS then
      DividedFactors(Ecdf(n), Harmonic(n));
      Ok(Divided(Ecdf(n), Harmonic(n)))
    else Err(ValueError)
  }

  lemma DividedFactors(ef: seq<real>, c: real)
    requires GoodFactors(ef) && (|ef| == 0 || c >= 1.0)
    ensures GoodFactors(Divided(ef, c))
  {
    var r := Divided(ef, c);
    forall k | 0 <= k < |ef| ensures 0.0 < r[k] <= 1.0 {
      assert r[k] == ef[k] / c;
      FractionBelow(0.0, ef[k], c);
      assert ef[k] / c <= ef[k] / 1.0;
    }
    forall k, l | 0 <= k < l < |ef| ensures r[k] < r[l] {
      FractionBelow(ef[k], ef[l], c);
    }
  }

  /**
   The Benjamini–Hochberg names use the ECDF itself, the Benjamini–Yekutieli
   names divide it by `H_n`, every other name raises ValueError; the factors
   are always `n` good ones.
   */
  lemma EcdfFactorCorrect(meth: string, n: nat)
    ensures EcdfFactor(meth, n).Err? <==> meth !in BH_METHODS && meth !in BY_METHODS
    ensures EcdfFactor(meth, n).Err? ==> EcdfFactor(meth, n).error == ValueError
    ensures meth in BH_METHODS ==> EcdfFactor(meth, n) == Ok(Ecdf(n))
    ensures meth !in BH_METHODS && meth in BY_METHODS ==>
      EcdfFactor(meth, n) == Ok(Divided(Ecdf(n), Harmonic(n)))
  {
  }

  // ---------------------------------------------------------------------
  // Rejection

  /** `ecdffactor * alpha`: the Benjamini–Hochberg line at one position. */
  function Line(e: real, alpha: real): real
  {
    e * alpha
  }

  /** `pvals_sorted < ecdffactor * alpha`, position by position. */
  function BelowLine(ps: seq<real>, ef: seq<real>, alpha: real): (r: seq<bool>)
    requires |ef| == |ps|
    ensures |r| == |ps|
    ensures forall k :: 0 <= k < |ps| ==> r[k] == (ps[k] < Line(ef[k], alpha))
  {
    seq(|ps|, k requires 0 <= k < |ps| => ps[k] < Line(ef[k], alpha))
  }

  /**
   The step-up rule: sorted position `k` is rejected when the p-value at
   it, or at some later position, lies below the line.
   */
  function RejectSpec(ps: seq<real>, ef: seq<real>, alpha: real): (r: seq<bool>)
    requires |ef| == |ps|
    ensures |r| == |ps|
  {
    seq(|ps|, k requires 0 <= k < |ps| => BelowFrom(ps, ef, alpha, k))
  }

  /** Some p-value at sorted position `k` or later lies below the line. */
  predicate BelowFrom(ps: seq<real>, ef: seq<real>, alpha: real, k: nat)
    requires |ef| == |ps|
  {
    exists j :: k <= j < |ps| && ps[j] < Line(ef[j], alpha)
  }

  /** `max(np.nonzero(b)[0])` guarded by `b.any()`: the last position holding true, if any. */
  function LastTrue(bs: seq<bool>): (r: Option<nat>)
    ensures r.None? <==> forall k :: 0 <= k < |bs| ==> !bs[k]
    ensures r.Some? ==> r.value < |bs| && bs[r.value] && forall k :: r.value < k < |bs| ==> !bs[k]
    decreases |bs|
  {
    if |bs| == 0 then None
    else if bs[|bs| - 1] then Some(|bs| - 1)
    else
      var r := LastTrue(bs[..|bs| - 1]);
      assert forall k :: 0 <= k < |bs| - 1 ==> bs[k] == bs[..|bs| - 1][k];
      r
  }

  /** `rejectmax`: the last position below the line, or 0 when there is none. */
  function RejectMax(below: seq<bool>): nat
  {
    match LastTrue(below)
    case Some(m) => m
    case None => 0
  }

  /**
   `reject[:rejectmax] = True` on the flags `below` yields the step-up rule:
   a position ends up true exactly when it or a later position is below the
   line, whether or not any position is.
   */
  lemma RejectMaxShape(below: seq<bool>)
    ensures forall k :: 0 <= k < |below| ==>
      ((k < RejectMax(below) || below[k]) <==> exists j :: k <= j < |below| && below[j])
  {
    var m := LastTrue(below);
    forall k | 0 <= k < |below|
      ensures (k < RejectMax(below) || below[k]) <==> exists j :: k <= j < |below| && below[j]
    {
      if m.Some? {
        if k < m.value {
          assert below[m.value];
        }
      }
    }
  }

  /**
   The rejected sorted positions form a prefix: empty when no p-value is
   below the line, and otherwise ending at the last position that is.
   */
  lemma RejectSpecPrefix(ps: seq<real>, ef: seq<real>, alpha: real)
    requires |ef| == |ps|
    ensures forall j, k :: 0 <= j <= k < |ps| && RejectSpec(ps, ef, alpha)[k] ==> RejectSpec(ps, ef, alpha)[j]
    ensures (forall j :: 0 <= j < |ps| ==> ps[j] >= Line(ef[j], alpha)) ==>
      forall k :: 0 <= k < |ps| ==> !RejectSpec(ps, ef, alpha)[k]
    ensures forall m :: (0 <= m < |ps| && ps[m] < Line(ef[m], alpha) &&
                         forall j :: m < j < |ps| ==> ps[j] >= Line(ef[j], alpha)) ==>
      forall k :: 0 <= k < |ps| ==> (RejectSpec(ps, ef, alpha)[k] <==> k <= m)
  {
    var r := RejectSpec(ps, ef, alpha);
    forall j, k | 0 <= j <= k < |ps| && r[k] ensures r[j] {
      var i :| k <= i < |ps| && ps[i] < Line(ef[i], alpha);
    }
  }

  // ---------------------------------------------------------------------
  // Adjusted p-values

  /** `p / e`: a sorted p-value over its factor. */
  function Ratio(p: real, e: real): real
    requires e != 0.0
  {
    p / e
  }

  /** `pvals_sorted / ecdffactor`. */
  function Ratios(ps: seq<real>, ef: seq<real>): (r: seq<real>)
    requires |ef| == |ps| && forall k :: 0 <= k < |ef| ==> ef[k] != 0.0
    ensures |r| == |ps|
    ensures forall k :: 0 <= k < |ps| ==> r[k] == Ratio(ps[k], ef[k])
  {
    seq(|ps|, k requires 0 <= k < |ps| => Ratio(ps[k], ef[k]))
  }

  /** `np.minimum(a, b)`. */
  function Min(a: real, b: real): real
  {
    if a <= b then a else b
  }

  /** `np.minimum.accumulate(xs[::-1])[::-1]` at position `k`. */
  function SuffixMin(xs: seq<real>, k: nat): real
    requires k < |xs|
    decreases |xs| - k
  {
    if k == |xs| - 1 then xs[k] else Min(SuffixMin(xs, k + 1), xs[k])
  }

  /** The accumulated value at `k` is the least of `xs[k..]`: no later entry is smaller, and one equals it. */
  lemma {:induction false} SuffixMinIsMin(xs: seq<real>, k: nat)
    requires k < |xs|
    ensures forall j :: k <= j < |xs| ==> SuffixMin(xs, k) <= xs[j]
    ensures exists j :: k <= j < |xs| && SuffixMin(xs, k) == xs[j]
    decreases |xs| - k
  {
    if k == |xs| - 1 {
      assert SuffixMin(xs, k) == xs[k];
    } else {
      SuffixMinIsMin(xs, k + 1);
      var j :| k + 1 <= j < |xs| && SuffixMin(xs, k + 1) == xs[j];
      if SuffixMin(xs, k) == xs[k] {
        assert k <= k < |xs| && SuffixMin(xs, k) == xs[k];
      } else {
        assert SuffixMin(xs, k) == xs[j];
      }
    }
  }

  /** The accumulated minima are non-decreasing along the sequence. */
  lemma SuffixMinMonotone(xs: seq<real>, j: nat, k: nat)
    requires j <= k < |xs|
    ensures SuffixMin(xs, j) <= SuffixMin(xs, k)
  {
    SuffixMinIsMin(xs, j);
    SuffixMinIsMin(xs, k);
    var w :| k <= w < |xs| && SuffixMin(xs, k) == xs[w];
  }

  /** `pvals_corrected[pvals_corrected > 1.0] = 1.0` on one entry. */
  function Clip(x: real): real
  {
    if x > 1.0 then 1.0 else x
  }

  /** The adjusted p-values in sorted order: suffix minima of the ratios, clipped at 1. */
  function AdjustedSpec(ps: seq<real>, ef: seq<real>): (r: seq<real>)
    requires |ef| == |ps| && forall k :: 0 <= k < |ef| ==> ef[k] != 0.0
    ensures |r| == |ps|
  {
    var raw := Ratios(ps, ef);
    seq(|ps|, k requires 0 <= k < |ps| => Clip(SuffixMin(raw, k)))
  }

  /** A p-value lies below the line exactly when its ratio is below `alpha`. */
  lemma RatioBelow(p: real, e: real, alpha: real)
    requires e > 0.0
    ensures p < Line(e, alpha) <==> Ratio(p, e) < alpha
  {
    assert Ratio(p, e) * e == p;
  }

  lemma RatioNonNegative(p: real, e: real)
    requires p >= 0.0 && e > 0.0
    ensures Ratio(p, e) >= 0.0
  {
    assert Ratio(p, e) * e == p;
  }

  /** A non-negative p-value over a larger factor gives a smaller ratio. */
  lemma RatioAntitone(p: real, e1: real, e2: real)
    requires p >= 0.0 && 0.0 < e1 <= e2
    ensures Ratio(p, e2) <= Ratio(p, e1)
  {
    assert Ratio(p, e1) * e1 == p && Ratio(p, e2) * e2 == p;
  }

  /**
   In sorted order the adjusted values are non-decreasing, each is at most
   its own ratio and at most 1, and they are non-negative when the
   p-values are.
   */
  lemma AdjustedSpecBounds(ps: seq<real>, ef: seq<real>)
    requires |ef| == |ps| && GoodFactors(ef)
    ensures forall k :: 0 <= k < |ps| ==> AdjustedSpec(ps, ef)[k] <= Ratio(ps[k], ef[k])
    ensures forall k :: 0 <= k < |ps| ==> AdjustedSpec(ps, ef)[k] <= 1.0
    ensures forall j, k :: 0 <= j <= k < |ps| ==> AdjustedSpec(ps, ef)[j] <= AdjustedSpec(ps, ef)[k]
    ensures (forall k :: 0 <= k < |ps| ==> ps[k] >= 0.0) ==>
      forall k :: 0 <= k < |ps| ==> AdjustedSpec(ps, ef)[k] >= 0.0
  {
    var raw := Ratios(ps, ef);
    var a := AdjustedSpec(ps, ef);
    forall k | 0 <= k < |ps| ensures a[k] <= raw[k] && a[k] == Clip(SuffixMin(raw, k)) {
      SuffixMinIsMin(raw, k);
    }
    forall j, k | 0 <= j <= k < |ps| ensures a[j] <= a[k] {
      SuffixMinMonotone(raw, j, k);
    }
    if forall k :: 0 <= k < |ps| ==> ps[k] >= 0.0 {
      forall k | 0 <= k < |ps| ensures a[k] >= 0.0 {
        SuffixMinIsMin(raw, k);
        var j :| k <= j < |ps| && SuffixMin(raw, k) == raw[j];
        RatioNonNegative(ps[j], ef[j]);
      }
    }
  }

  /**
   With `alpha <= 1`, a sorted position is rejected exactly when its
   adjusted p-value is below `alpha`.
   */
  lemma RejectIffAdjustedBelow(ps: seq<real>, ef: seq<real>, alpha: real)
    requires |ef| == |ps| && GoodFactors(ef) && alpha <= 1.0
    ensures forall k :: 0 <= k < |ps| ==> (RejectSpec(ps, ef, alpha)[k] <==> AdjustedSpec(ps, ef)[k] < alpha)
  {
    var raw := Ratios(ps, ef);
    forall k | 0 <= k < |ps| ensures RejectSpec(ps, ef, alpha)[k] <==> AdjustedSpec(ps, ef)[k] < alpha {
      SuffixMinIsMin(raw, k);
      forall j | k <= j < |ps| ensures ps[j] < Line(ef[j], alpha) <==> raw[j] < alpha {
        RatioBelow(ps[j], ef[j], alpha);
      }
      var w :| k <= w < |ps| && SuffixMin(raw, k) == raw[w];
      assert AdjustedSpec(ps, ef)[k] == Clip(SuffixMin(raw, k));
    }
  }

  /**
   Equal non-negative p-values get the same adjusted value: between two
   sorted positions holding the same p-value every ratio is at least the
   later one's.
   */
  lemma AdjustedTies(ps: seq<real>, ef: seq<real>, j: nat, k: nat)
    requires |ef| == |ps| && GoodFactors(ef)
    requires forall a, b :: 0 <= a < b < |ps| ==> ps[a] <= ps[b]
    requires j <= k < |ps| && ps[j] == ps[k] && ps[k] >= 0.0
    ensures AdjustedSpec(ps, ef)[j] == AdjustedSpec(ps, ef)[k]
  {
    var raw := Ratios(ps, ef);
    SuffixMinIsMin(raw, j);
    SuffixMinIsMin(raw, k);
    var w :| j <= w < |ps| && SuffixMin(raw, j) == raw[w];
    if w < k {
      assert ps[w] == ps[k];
      RatioAntitone(ps[k], ef[w], ef[k]);
    }
    assert SuffixMin(raw, j) == SuffixMin(raw, k);
  }

  // ---------------------------------------------------------------------
  // The whole correction

  /** `(reject, pvals_corrected)`, both in the input order. */
  datatype Correction = Correction(reject: seq<bool>, corrected: seq<real>)

  /**
   What `fdr_correction(pvals, alpha, method)` returns when numpy's argsort
   yields `sortind`: the step-up rejections and the adjusted p-values of
   the sorted p-values, put back in the input order.
   */
  function FdrSpec(pvals: seq<real>, sortind: seq<nat>, alpha: real, meth: string): Result<Correction>
    requires IsSortingPermutation(pvals, sortind)
  {
    match EcdfFactor(meth, |pvals|)
    case Err(e) => Err(e)
    case Ok(ef) =>
      EcdfFactorCorrect(meth, |pvals|);
      InverseOfCorrect(sortind);
      var ps := Permuted(pvals, sortind);
      var inv := InverseOf(sortind);
      Ok(Correction(Permuted(RejectSpec(ps, ef, alpha), inv), Permuted(AdjustedSpec(ps, ef), inv)))
  }

  /** The correction once the factors are known. */
  lemma FdrSpecOk(pvals: seq<real>, sortind: seq<nat>, alpha: real, meth: string, ef: seq<real>)
    requires IsSortingPermutation(pvals, sortind) && EcdfFactor(meth, |pvals|) == Ok(ef)
    ensures |ef| == |pvals| && GoodFactors(ef)
    ensures forall i :: 0 <= i < |pvals| ==> InverseOf(sortind)[i] < |pvals|
    ensures FdrSpec(pvals, sortind, alpha, meth) ==
      Ok(Correction(Permuted(RejectSpec(Permuted(pvals, sortind), ef, alpha), InverseOf(sortind)),
                    Permuted(AdjustedSpec(Permuted(pvals, sortind), ef), InverseOf(sortind))))
  {
    InverseOfCorrect(sortind);
  }

  /** Raising every flag before the last one below the line gives the step-up rejections. */
  lemma RaisedIsStepUp(ps: seq<real>, ef: seq<real>, alpha: real, flags: seq<bool>)
    requires |ef| == |ps| && |flags| == |ps|
    requires forall k :: 0 <= k < |ps| ==>
      flags[k] == (k < RejectMax(BelowLine(ps, ef, alpha)) || BelowLine(ps, ef, alpha)[k])
    ensures flags == RejectSpec(ps, ef, alpha)
  {
    var below := BelowLine(ps, ef, alpha);
    RejectMaxShape(below);
    forall k | 0 <= k < |ps| ensures flags[k] == RejectSpec(ps, ef, alpha)[k] {
      assert (exists j :: k <= j < |below| && below[j]) <==> exists j :: k <= j < |ps| && ps[j] < Line(ef[j], alpha);
    }
  }

  /** Clipping the accumulated minima of the ratios gives the adjusted values. */
  lemma ClippedIsAdjusted(ps: seq<real>, ef: seq<real>, vals: seq<real>)
    requires |ef| == |ps| && |vals| == |ps| && forall k :: 0 <= k < |ef| ==> ef[k] != 0.0
    requires forall k :: 0 <= k < |ps| ==> vals[k] == Clip(SuffixMin(Ratios(ps, ef), k))
    ensures vals == AdjustedSpec(ps, ef)
  {
  }

  /**
   `fdr_correction`: sorts, picks the factors, flags the p-values below the
   line and raises every flag before the last one, divides, accumulates the
   suffix minima, clips at 1 in place, and undoes the sort.
   */
  method FdrCorrection(pvals: seq<real>, sortind: seq<nat>, alpha: real, meth: string) returns (r: Result<Correction>)
    requires IsSortingPermutation(pvals, sortind)
    ensures r == FdrSpec(pvals, sortind, alpha, meth)
  {
    var n := |pvals|;
    var pvalsSorted := Permuted(pvals, sortind);
    var sortrevind := InverseOf(sortind);
    var factor := EcdfFactor(meth, n);
    if factor.Err? {
      return Err(factor.error);
    }
    var ecdffactor := factor.value;
    FdrSpecOk(pvals, sortind, alpha, meth, ecdffactor);
    var reject := new bool[n](k requires 0 <= k < n => pvalsSorted[k] < Line(ecdffactor[k], alpha));
    var below := reject[..];
    assert below == BelowLine(pvalsSorted, ecdffactor, alpha);
    var rejectmax := RejectMax(below);
    forall k | 0 <= k < rejectmax && k < n {
      reject[k] := true;
    }
    var rejected := reject[..];
    RaisedIsStepUp(pvalsSorted, ecdffactor, alpha, rejected);
    var raw := Ratios(pvalsSorted, ecdffactor);
    var corrected := new real[n](k requires 0 <= k < n => SuffixMin(raw, k));
    forall k | 0 <= k < n && corrected[k] > 1.0 {
      corrected[k] := 1.0;
    }
    var adjusted := corrected[..];
    ClippedIsAdjusted(pvalsSorted, ecdffactor, adjusted);
    r := Ok(Correction(Permuted(rejected, sortrevind), Permuted(adjusted, sortrevind)));
  }

  // ---------------------------------------------------------------------
  // Properties of the correction

  /**
   The correction fails exactly on an unknown method name, with ValueError;
   otherwise both outputs have one entry per p-value, and the entry at
   `sortind[k]` is the one computed at sorted position `k`.
   */
  lemma FdrSpecShape(pvals: seq<real>, sortind: seq<nat>, alpha: real, meth: string)
    requires IsSortingPermutation(pvals, sortind)
    ensures FdrSpec(pvals, sortind, alpha, meth).Err? <==> meth !in BH_METHODS && meth !in BY_METHODS
    ensures FdrSpec(pvals, sortind, alpha, meth).Err? ==> FdrSpec(pvals, sortind, alpha, meth).error == ValueError
    ensures FdrSpec(pvals, sortind, alpha, meth).Ok? ==>
      var c := FdrSpec(pvals, sortind, alpha, meth).value;
      var ef := EcdfFactor(meth, |pvals|).value;
      var ps := Permuted(pvals, sortind);
      && |c.reject| == |pvals| && |c.corrected| == |pvals|
      && forall k :: 0 <= k < |pvals| ==>
        c.reject[sortind[k]] == RejectSpec(ps, ef, alpha)[k] && c.corrected[sortind[k]] == AdjustedSpec(ps, ef)[k]
  {
    EcdfFactorCorrect(meth, |pvals|);
    InverseOfCorrect(sortind);
  }

  /** The sorted position of input `i`, and the p-values in sorted order. */
  lemma SortedPosition(pvals: seq<real>, sortind: seq<nat>)
    requires IsSortingPermutation(pvals, sortind)
    ensures forall i :: 0 <= i < |pvals| ==>
      InverseOf(sortind)[i] < |pvals| && Permuted(pvals, sortind)[InverseOf(sortind)[i]] == pvals[i]
    ensures forall a, b :: 0 <= a < b < |pvals| ==> Permuted(pvals, sortind)[a] <= Permuted(pvals, sortind)[b]
  {
    InverseOfCorrect(sortind);
  }

  /** Entry `i` of both outputs is the one computed at `i`'s sorted position. */
  lemma FdrSpecAt(pvals: seq<real>, sortind: seq<nat>, alpha: real, meth: string)
    requires IsSortingPermutation(pvals, sortind) && FdrSpec(pvals, sortind, alpha, meth).Ok?
    ensures |EcdfFactor(meth, |pvals|).value| == |pvals|
    ensures forall i :: 0 <= i < |pvals| ==> InverseOf(sortind)[i] < |pvals|
    ensures var c := FdrSpec(pvals, sortind, alpha, meth).value;
      var ef := EcdfFactor(meth, |pvals|).value;
      var ps := Permuted(pvals, sortind);
      && |c.reject| == |pvals| && |c.corrected| == |pvals|
      && forall i :: 0 <= i < |pvals| ==>
        c.reject[i] == RejectSpec(ps, ef, alpha)[InverseOf(sortind)[i]] &&
        c.corrected[i] == AdjustedSpec(ps, ef)[InverseOf(sortind)[i]]
  {
    FdrSpecOk(pvals, sortind, alpha, meth, EcdfFactor(meth, |pvals|).value);
  }

  /**
   In sorted order, for non-negative p-values, a smaller or equal p-value
   never has a larger adjusted value, wherever the sort put it.
   */
  lemma AdjustedFollowsSorted(ps: seq<real>, ef: seq<real>, a: nat, b: nat)
    requires |ef| == |ps| && GoodFactors(ef)
    requires forall x, y :: 0 <= x < y < |ps| ==> ps[x] <= ps[y]
    requires forall x :: 0 <= x < |ps| ==> ps[x] >= 0.0
    requires a < |ps| && b < |ps| && ps[a] <= ps[b]
    ensures AdjustedSpec(ps, ef)[a] <= AdjustedSpec(ps, ef)[b]
  {
    if a <= b {
      AdjustedSpecBounds(ps, ef);
    } else {
      assert ps[b] <= ps[a];
      AdjustedTies(ps, ef, b, a);
    }
  }

  /**
   With `alpha <= 1`, a hypothesis is rejected exactly when its adjusted
   p-value is below `alpha`; every adjusted value is at most 1, and at least
   0 when the p-values are.
   */
  lemma FdrRejectIffCorrectedBelow(pvals: seq<real>, sortind: seq<nat>, alpha: real, meth: string)
    requires IsSortingPermutation(pvals, sortind) && FdrSpec(pvals, sortind, alpha, meth).Ok?
    ensures var c := FdrSpec(pvals, sortind, alpha, meth).value;
      forall i :: 0 <= i < |pvals| ==> c.corrected[i] <= 1.0
    ensures var c := FdrSpec(pvals, sortind, alpha, meth).value;
      (forall i :: 0 <= i < |pvals| ==> pvals[i] >= 0.0) ==> forall i :: 0 <= i < |pvals| ==> c.corrected[i] >= 0.0
    ensures var c := FdrSpec(pvals, sortind, alpha, meth).value;
      alpha <= 1.0 ==> forall i :: 0 <= i < |pvals| ==> (c.reject[i] <==> c.corrected[i] < alpha)
  {
    FdrSpecAt(pvals, sortind, alpha, meth);
    SortedPosition(pvals, sortind);
    var ef := EcdfFactor(meth, |pvals|).value;
    var ps := Permuted(pvals, sortind);
    AdjustedSpecBounds(ps, ef);
    if alpha <= 1.0 {
      RejectIffAdjustedBelow(ps, ef, alpha);
    }
  }

  /**
   For non-negative p-values the adjusted values follow the p-values: a
   smaller or equal p-value never gets a larger adjusted value, whatever
   order the sort put ties in.
   */
  lemma FdrCorrectedMonotone(pvals: seq<real>, sortind: seq<nat>, alpha: real, meth: string, i: nat, j: nat)
    requires IsSortingPermutation(pvals, sortind) && FdrSpec(pvals, sortind, alpha, meth).Ok?
    requires forall x :: 0 <= x < |pvals| ==> pvals[x] >= 0.0
    requires i < |pvals| && j < |pvals| && pvals[i] <= pvals[j]
    ensures FdrSpec(pvals, sortind, alpha, meth).value.corrected[i] <= FdrSpec(pvals, sortind, alpha, meth).value.corrected[j]
  {
    FdrSpecAt(pvals, sortind, alpha, meth);
    SortedPosition(pvals, sortind);
    var inv := InverseOf(sortind);
    AdjustedFollowsSorted(Permuted(pvals, sortind), EcdfFactor(meth, |pvals|).value, inv[i], inv[j]);
  }

  /**
   For `alpha <= 1` and non-negative p-values the rejections are closed
   downwards: a hypothesis whose p-value is at most that of a rejected one
   is rejected too.
   */
  lemma FdrRejectDownwardClosed(pvals: seq<real>, sortind: seq<nat>, alpha: real, meth: string, i: nat, j: nat)
    requires IsSortingPermutation(pvals, sortind) && FdrSpec(pvals, sortind, alpha, meth).Ok?
    requires forall x :: 0 <= x < |pvals| ==> pvals[x] >= 0.0
    requires alpha <= 1.0 && i < |pvals| && j < |pvals| && pvals[i] <= pvals[j]
    requires FdrSpec(pvals, sortind, alpha, meth).value.reject[j]
    ensures FdrSpec(pvals, sortind, alpha, meth).value.reject[i]
  {
    FdrRejectIffCorrectedBelow(pvals, sortind, alpha, meth);
    FdrCorrectedMonotone(pvals, sortind, alpha, meth, i, j);
  }

  /** `np.arange(n)`: the permutation that leaves everything in place. */
  function Identity(n: nat): (r: seq<nat>)
    ensures |r| == n && forall k :: 0 <= k < n ==> r[k] == k
  {
    seq(n, k requires 0 <= k < n => k)
  }

  /** For p-values already in order the identity sorts them, is its own inverse and permutes nothing. */
  lemma IdentitySorts(pvals: seq<real>)
    requires forall a, b :: 0 <= a < b < |pvals| ==> pvals[a] <= pvals[b]
    ensures IsSortingPermutation(pvals, Identity(|pvals|))
    ensures InverseOf(Identity(|pvals|)) == Identity(|pvals|)
  {
    var id := Identity(|pvals|);
    forall i: nat | i < |id| ensures i in id {
      assert id[i] == i;
    }
    InverseOfCorrect(id);
    forall i | 0 <= i < |id| ensures InverseOf(id)[i] == id[i] {
      assert InverseOf(id)[id[i]] == i;
    }
  }

  /** Indexing with the identity gives the sequence back. */
  lemma PermutedIdentity<T>(v: seq<T>)
    ensures Permuted(v, Identity(|v|)) == v
  {
  }

  /** The example's factors for method `indep`: `1/4, 2/4, 3/4, 1`. */
  lemma ExampleFactors()
    ensures EcdfFactor("indep", 4) == Ok([0.25, 0.5, 0.75, 1.0])
  {
    assert "indep" in BH_METHODS;
    assert EcdfValue(0, 4) == 0.25 && EcdfValue(1, 4) == 0.5;
    assert EcdfValue(2, 4) == 0.75 && EcdfValue(3, 4) == 1.0;
    assert Ecdf(4) == [0.25, 0.5, 0.75, 1.0];
  }

  /** Against the lines `.0125, .025, .0375, .05` the third p-value is the last one below. */
  lemma ExampleRejections()
    ensures RejectSpec([0.01, 0.02, 0.03, 0.5], [0.25, 0.5, 0.75, 1.0], 0.05) == [true, true, true, false]
  {
    var ps := [0.01, 0.02, 0.03, 0.5];
    var ef := [0.25, 0.5, 0.75, 1.0];
    var rs := RejectSpec(ps, ef, 0.05);
    assert ps[2] < Line(ef[2], 0.05);
    assert rs[0] && rs[1] && rs[2];
    assert ps[3] >= Line(ef[3], 0.05);
    assert !rs[3];
  }

  /** The ratios are `.04, .04, .04, .5` and already non-decreasing. */
  lemma ExampleAdjusted()
    ensures AdjustedSpec([0.01, 0.02, 0.03, 0.5], [0.25, 0.5, 0.75, 1.0]) == [0.04, 0.04, 0.04, 0.5]
  {
    var raw := Ratios([0.01, 0.02, 0.03, 0.5], [0.25, 0.5, 0.75, 1.0]);
    assert Ratio(0.01, 0.25) == 0.04 && Ratio(0.02, 0.5) == 0.04;
    assert Ratio(0.03, 0.75) == 0.04 && Ratio(0.5, 1.0) == 0.5;
    assert raw == [0.04, 0.04, 0.04, 0.5];
    assert SuffixMin(raw, 3) == 0.5;
    assert SuffixMin(raw, 2) == 0.04;
    assert SuffixMin(raw, 1) == 0.04;
    assert SuffixMin(raw, 0) == 0.04;
  }

  /**
   On `[0.01, 0.02, 0.03, 0.5]` with `alpha = 0.05` and method `indep` the
   first three hypotheses are rejected, and their adjusted p-values are
   all `0.04`.
   */
  lemma WorkedExample()
    ensures IsSortingPermutation([0.01, 0.02, 0.03, 0.5], [0, 1, 2, 3])
    ensures FdrSpec([0.01, 0.02, 0.03, 0.5], [0, 1, 2, 3], 0.05, "indep") ==
      Ok(Correction([true, true, true, false], [0.04, 0.04, 0.04, 0.5]))
  {
    var pvals := [0.01, 0.02, 0.03, 0.5];
    assert Identity(4) == [0, 1, 2, 3];
    IdentitySorts(pvals);
    ExampleFactors();
    FdrSpecOk(pvals, [0, 1, 2, 3], 0.05, "indep", [0.25, 0.5, 0.75, 1.0]);
    PermutedIdentity(pvals);
    ExampleRejections();
    ExampleAdjusted();
    PermutedIdentity([true, true, true, false]);
    PermutedIdentity([0.04, 0.04, 0.04, 0.5]);
  }

  // ---------------------------------------------------------------------
  // compute_p_value_fdr_correction

  /** `list(p_value.values())`, in key order. */
  function Scores(p: Dict): (r: seq<real>)
    ensures |r| == |p.keys|
  {
    seq(|p.keys|, i requires 0 <= i < |p.keys| => p.Get(p.keys[i], 0.0))
  }

  /** The reject flags `fdr_correction(scores, alpha=threshold)` returns (method `indep`). */
  function RejectFlags(p: Dict, threshold: real, sortind: seq<nat>): (r: seq<bool>)
    requires IsSortingPermutation(Scores(p), sortind)
    ensures |r| == |p.keys|
  {
    IndepSucceeds(Scores(p), sortind, threshold);
    FdrSpecAt(Scores(p), sortind, threshold, "indep");
    FdrSpec(Scores(p), sortind, threshold, "indep").value.reject
  }

  /** The default method `indep` is a known name, so the correction succeeds. */
  lemma IndepSucceeds(pvals: seq<real>, sortind: seq<nat>, alpha: real)
    requires IsSortingPermutation(pvals, sortind)
    ensures FdrSpec(pvals, sortind, alpha, "indep").Ok?
  {
    assert "indep" in BH_METHODS;
  }

  /**
   The loop over `zip(list(p_value.keys()), reject)` collecting the ids
   whose flag is set: with distinct ids, an id is collected exactly when
   its own flag is set.
   */
  method Flagged(ids: seq<Node>, flags: seq<bool>) returns (s: set<Node>)
    requires |flags| == |ids|
    ensures forall x :: x in s <==> exists j :: 0 <= j < |ids| && ids[j] == x && flags[j]
    ensures Distinct(ids) ==> forall i :: 0 <= i < |ids| ==> (ids[i] in s <==> flags[i])
  {
    s := {};
    for i := 0 to |ids|
      invariant forall x :: x in s <==> exists j :: 0 <= j < i && ids[j] == x && flags[j]
    {
      if flags[i] {
        s := s + {ids[i]};
      }
    }
    DistinctIndices(ids);
    if Distinct(ids) {
      forall i | 0 <= i < |ids| ensures ids[i] in s <==> flags[i] {
        if ids[i] in s {
          var j :| 0 <= j < |ids| && ids[j] == ids[i] && flags[j];
          assert i == j;
        }
      }
    }
  }

  /**
   `compute_p_value_fdr_correction`: lists the scores, corrects them with
   the default method, and collects the ids whose reject flag is set.  The
   result holds exactly the keys whose flag is set, so it is a subset of the
   keys; with a threshold of at most 1, exactly those whose adjusted
   p-value is below the threshold.
   */
  method ComputePValueFdrCorrection(pValue: Dict, threshold: real, sortind: seq<nat>) returns (s: set<Node>)
    requires pValue.Valid() && IsSortingPermutation(Scores(pValue), sortind)
    ensures forall x :: x in s <==>
      exists j :: 0 <= j < |pValue.keys| && pValue.keys[j] == x && RejectFlags(pValue, threshold, sortind)[j]
    ensures forall x :: x in s ==> x in pValue.vals
    ensures forall i :: 0 <= i < |pValue.keys| ==> (pValue.keys[i] in s <==> RejectFlags(pValue, threshold, sortind)[i])
    ensures threshold <= 1.0 ==> forall i :: 0 <= i < |pValue.keys| ==>
      (pValue.keys[i] in s <==> FdrSpec(Scores(pValue), sortind, threshold, "indep").value.corrected[i] < threshold)
  {
    var pValueScore: seq<real> := [];
    var items := pValue.Items();
    for k := 0 to |items|
      invariant pValueScore == Scores(pValue)[..k]
    {
      pValueScore := pValueScore + [items[k].1];
    }
    assert pValueScore == Scores(pValue);
    var res := FdrCorrection(pValueScore, sortind, threshold, "indep");
    IndepSucceeds(pValueScore, sortind, threshold);
    var result := res.value.reject;
    assert result == RejectFlags(pValue, threshold, sortind);
    s := Flagged(pValue.keys, result);
    if threshold <= 1.0 {
      FdrRejectIffCorrectedBelow(pValueScore, sortind, threshold, "indep");
    }
  }
}

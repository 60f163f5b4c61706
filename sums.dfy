/**
 Finite sums over sequences, filters and the bookkeeping lemmas about them
 that the rank-vector and FDR proofs share.  Sums are exact (`real`): the
 order in which the Python code visits the terms does not matter here.
 */
module Sums {

  /** Pairwise distinct elements (the key list of a dict, the node list of a graph). */
  predicate Distinct<T(==)>(xs: seq<T>)
    decreases |xs|
  {
    |xs| == 0 || (xs[|xs| - 1] !in xs[..|xs| - 1] && Distinct(xs[..|xs| - 1]))
  }

  /** `Distinct` says that no two positions hold the same element. */
  lemma {:induction false} DistinctIndices<T>(xs: seq<T>)
    ensures Distinct(xs) <==> forall i, j :: 0 <= i < j < |xs| ==> xs[i] != xs[j]
    decreases |xs|
  {
    if |xs| > 0 {
      var init := xs[..|xs| - 1];
      DistinctIndices(init);
      assert forall i :: 0 <= i < |init| ==> init[i] == xs[i];
      if !Distinct(xs) {
        if xs[|xs| - 1] in init {
          var i :| 0 <= i < |init| && init[i] == xs[|xs| - 1];
          assert xs[i] == xs[|xs| - 1];
        }
      }
    }
  }

  /** The sum of `f(x)` over the elements `x` of `xs`, accumulated left to right. */
  function SumOf<T>(xs: seq<T>, f: T -> real): real
    decreases |xs|
  {
    if |xs| == 0 then 0.0 else SumOf(xs[..|xs| - 1], f) + f(xs[|xs| - 1])
  }

  /** One more term of a running sum over a prefix. */
  lemma SumOfPrefix<T>(xs: seq<T>, k: nat, f: T -> real)
    requires k < |xs|
    ensures SumOf(xs[..k + 1], f) == SumOf(xs[..k], f) + f(xs[k])
  {
    assert xs[..k + 1][..k] == xs[..k];
  }

  /** The elements of `xs` that satisfy `p`, in their original order. */
  function Filter<T>(xs: seq<T>, p: T -> bool): seq<T>
    decreases |xs|
  {
    if |xs| == 0 then []
    else Filter(xs[..|xs| - 1], p) + (if p(xs[|xs| - 1]) then [xs[|xs| - 1]] else [])
  }

  /** `Filter` keeps exactly the elements that satisfy `p`. */
  lemma {:induction false} FilterMembers<T(!new)>(xs: seq<T>, p: T -> bool)
    ensures |Filter(xs, p)| <= |xs|
    ensures forall x :: x in Filter(xs, p) <==> x in xs && p(x)
    decreases |xs|
  {
    if |xs| > 0 {
      FilterMembers(xs[..|xs| - 1], p);
      assert forall x :: x in xs <==> x in xs[..|xs| - 1] || x == xs[|xs| - 1];
    }
  }

  lemma {:induction false} FilterDistinct<T(!new)>(xs: seq<T>, p: T -> bool)
    requires Distinct(xs)
    ensures Distinct(Filter(xs, p))
    decreases |xs|
  {
    if |xs| > 0 {
      var init := xs[..|xs| - 1];
      FilterDistinct(init, p);
      FilterMembers(init, p);
      var r := Filter(xs, p);
      if p(xs[|xs| - 1]) {
        assert r[..|r| - 1] == Filter(init, p);
      } else {
        assert r == Filter(init, p);
      }
    }
  }

  lemma {:induction false} SumOfNonNeg<T>(xs: seq<T>, f: T -> real)
    requires forall i :: 0 <= i < |xs| ==> f(xs[i]) >= 0.0
    ensures SumOf(xs, f) >= 0.0
    decreases |xs|
  {
    if |xs| > 0 {
      SumOfNonNeg(xs[..|xs| - 1], f);
    }
  }

  /** A sum of non-negative terms is zero exactly when every term is zero. */
  lemma {:induction false} SumOfZeroIff<T>(xs: seq<T>, f: T -> real)
    requires forall i :: 0 <= i < |xs| ==> f(xs[i]) >= 0.0
    ensures SumOf(xs, f) == 0.0 <==> forall i :: 0 <= i < |xs| ==> f(xs[i]) == 0.0
    decreases |xs|
  {
    if |xs| > 0 {
      var init := xs[..|xs| - 1];
      SumOfZeroIff(init, f);
      SumOfNonNeg(init, f);
      assert forall i :: 0 <= i < |init| ==> init[i] == xs[i];
    }
  }

  lemma {:induction false} SumOfAppend<T>(xs: seq<T>, ys: seq<T>, f: T -> real)
    ensures SumOf(xs + ys, f) == SumOf(xs, f) + SumOf(ys, f)
    decreases |ys|
  {
    if |ys| > 0 {
      var ys' := ys[..|ys| - 1];
      assert (xs + ys)[..|xs + ys| - 1] == xs + ys';
      SumOfAppend(xs, ys', f);
    } else {
      assert xs + ys == xs;
    }
  }

  /** Sums of pointwise-equal terms are equal. */
  lemma {:induction false} SumOfExt<T>(xs: seq<T>, f: T -> real, g: T -> real)
    requires forall i :: 0 <= i < |xs| ==> f(xs[i]) == g(xs[i])
    ensures SumOf(xs, f) == SumOf(xs, g)
    decreases |xs|
  {
    if |xs| > 0 {
      SumOfExt(xs[..|xs| - 1], f, g);
    }
  }

  /** Linearity: the sum of `f + g` is the sum of `f` plus the sum of `g`. */
  lemma {:induction false} SumOfAdd<T>(xs: seq<T>, f: T -> real, g: T -> real, h: T -> real)
    requires forall i :: 0 <= i < |xs| ==> h(xs[i]) == f(xs[i]) + g(xs[i])
    ensures SumOf(xs, h) == SumOf(xs, f) + SumOf(xs, g)
    decreases |xs|
  {
    if |xs| > 0 {
      SumOfAdd(xs[..|xs| - 1], f, g, h);
    }
  }

  /** Linearity: a constant factor moves out of the sum. */
  lemma {:induction false} SumOfScale<T>(xs: seq<T>, c: real, f: T -> real, g: T -> real)
    requires forall i :: 0 <= i < |xs| ==> g(xs[i]) == c * f(xs[i])
    ensures SumOf(xs, g) == c * SumOf(xs, f)
    decreases |xs|
  {
    if |xs| > 0 {
      SumOfScale(xs[..|xs| - 1], c, f, g);
    }
  }

  lemma {:induction false} SumOfConst<T>(xs: seq<T>, c: real, f: T -> real)
    requires forall i :: 0 <= i < |xs| ==> f(xs[i]) == c
    ensures SumOf(xs, f) == |xs| as real * c
    decreases |xs|
  {
    if |xs| > 0 {
      SumOfConst(xs[..|xs| - 1], c, f);
    }
  }

  /** Over a list without repeats, a term that is non-zero only at `x` sums to its value at `x`. */
  lemma {:induction false} SumOfPoint<T>(xs: seq<T>, x: T, c: real, f: T -> real)
    requires Distinct(xs) && x in xs
    requires forall i :: 0 <= i < |xs| ==> f(xs[i]) == if xs[i] == x then c else 0.0
    ensures SumOf(xs, f) == c
    decreases |xs|
  {
    var init := xs[..|xs| - 1];
    var last := xs[|xs| - 1];
    if last == x {
      SumOfConst(init, 0.0, f);
    } else {
      assert x in init;
      SumOfPoint(init, x, c, f);
    }
  }

  /** Summing over a filtered list is summing the guarded term over the whole list. */
  lemma {:induction false} SumOfFilter<T(!new)>(xs: seq<T>, p: T -> bool, f: T -> real, h: T -> real)
    requires forall i :: 0 <= i < |xs| ==> h(xs[i]) == if p(xs[i]) then f(xs[i]) else 0.0
    ensures SumOf(Filter(xs, p), f) == SumOf(xs, h)
    decreases |xs|
  {
    if |xs| > 0 {
      var init := xs[..|xs| - 1];
      var last := xs[|xs| - 1];
      SumOfFilter(init, p, f, h);
      SumOfAppend(Filter(init, p), if p(last) then [last] else [], f);
      if p(last) {
        assert SumOf([last], f) == f(last) by {
          assert [last][..0] == [];
        }
      }
    }
  }

  /**
   Exchanging the order of a double sum: summing the rows `rows(x) ==
   sum_y f(x)(y)` gives what summing the columns `cols(y) == sum_x g(y)(x)`
   gives, when `f(x)(y) == g(y)(x)`.
   */
  lemma {:induction false} SumOfSwap<T, U>(xs: seq<T>, ys: seq<U>, f: T -> U -> real, g: U -> T -> real,
                                           rows: T -> real, cols: U -> real)
    requires forall i, j :: 0 <= i < |xs| && 0 <= j < |ys| ==> f(xs[i])(ys[j]) == g(ys[j])(xs[i])
    requires forall i :: 0 <= i < |xs| ==> rows(xs[i]) == SumOf(ys, f(xs[i]))
    requires forall j :: 0 <= j < |ys| ==> cols(ys[j]) == SumOf(xs, g(ys[j]))
    ensures SumOf(xs, rows) == SumOf(ys, cols)
    decreases |ys|
  {
    if |ys| == 0 {
      SumOfConst(xs, 0.0, rows);
    } else {
      var init := ys[..|ys| - 1];
      var last := ys[|ys| - 1];
      var initRows := x => SumOf(init, f(x));
      SumOfSwap(xs, init, f, g, initRows, cols);
      var lastCol := x => f(x)(last);
      SumOfAdd(xs, initRows, lastCol, rows);
      SumOfExt(xs, lastCol, g(last));
    }
  }

  /** Two lists without repeats and with the same elements give the same sum. */
  lemma SumOfSameSet<T(!new)>(xs: seq<T>, ys: seq<T>, f: T -> real)
    requires Distinct(xs) && Distinct(ys)
    requires forall x :: x in xs <==> x in ys
    ensures SumOf(xs, f) == SumOf(ys, f)
  {
    var byRow := x => y => if x == y then f(x) else 0.0;
    var byCol := y => x => if x == y then f(y) else 0.0;
    forall i | 0 <= i < |xs| ensures f(xs[i]) == SumOf(ys, byRow(xs[i])) {
      SumOfPoint(ys, xs[i], f(xs[i]), byRow(xs[i]));
    }
    forall j | 0 <= j < |ys| ensures f(ys[j]) == SumOf(xs, byCol(ys[j])) {
      SumOfPoint(xs, ys[j], f(ys[j]), byCol(ys[j]));
    }
    SumOfSwap(xs, ys, byRow, byCol, f, f);
  }

  /** `n` copies of `c` added up. */
  function Times(n: nat, c: real): real
  {
    n as real * c
  }

  lemma TimesSucc(n: nat, c: real)
    ensures Times(n + 1, c) == Times(n, c) + c
  {
  }

  /**
   Over a list without repeats, `c` for each member of `ts` (itself without
   repeats) and 0 elsewhere sums to `|ts|` copies of `c`.
   */
  lemma {:induction false} SumOfWeightedCount<T(!new)>(xs: seq<T>, ts: seq<T>, c: real, f: T -> real)
    requires Distinct(xs) && Distinct(ts)
    requires forall t :: t in ts ==> t in xs
    requires forall i :: 0 <= i < |xs| ==> f(xs[i]) == if xs[i] in ts then c else 0.0
    ensures SumOf(xs, f) == Times(|ts|, c)
    decreases |ts|
  {
    if |ts| == 0 {
      SumOfConst(xs, 0.0, f);
    } else {
      var init := ts[..|ts| - 1];
      var t := ts[|ts| - 1];
      var inInit := x => if x in init then c else 0.0;
      var isT := x => if x == t then c else 0.0;
      assert forall x :: x in ts <==> x in init || x == t;
      SumOfWeightedCount(xs, init, c, inInit);
      SumOfPoint(xs, t, c, isT);
      SumOfAdd(xs, inInit, isT, f);
      TimesSucc(|init|, c);
    }
  }
}

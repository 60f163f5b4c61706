/**
 The convergence loop both solvers' `run` share:

   diff_norm = 1
   while diff_norm > CONV_THRESHOLD:
       p_t_1 = step(p_v); diff_norm = norm(p_t_1, p_v); p_v = p_t_1
   return finish(p_v)

 The loop body ("turn") and what follows the loop ("finish") are
 parameters, so the facts proved here hold for either solver.  The source
 loop is unbounded; here it makes at most `fuel` turns.
 */
module Iteration {
  import opened Common

  /** One turn of the loop body: an exception, or the next vector and its distance from the current one. */
  datatype Turn = Raise(error: Error) | Moved(next: Dict, diff: real)

  /**
   The loop started from `pv`.  The initial `diff_norm = 1` exceeds every
   threshold below 1, so the first turn always runs.
   */
  function LoopWith(turn: Dict -> Turn, finish: Dict -> Outcome, threshold: real, pv: Dict, fuel: nat): Outcome
    decreases fuel
  {
    if fuel == 0 then OutOfFuel
    else match turn(pv)
      case Raise(e) => Failed(e)
      case Moved(next, diff) =>
        if diff > threshold then LoopWith(turn, finish, threshold, next, fuel - 1) else finish(next)
  }

  /** `vec(j)` and `dist(j)` describe the first `n` turns from `vec(0)`: turn `j` moves to `vec(j + 1)` at distance `dist(j)`. */
  ghost predicate Describes(turn: Dict -> Turn, vec: nat -> Dict, dist: nat -> real, n: nat)
  {
    forall j: nat :: j < n ==> turn(vec(j)) == Moved(vec(j + 1), dist(j))
  }

  /** The same description, one turn later. */
  lemma DescribesShift(turn: Dict -> Turn, vec: nat -> Dict, dist: nat -> real, n: nat,
                       vec': nat -> Dict, dist': nat -> real)
    requires n > 0 && Describes(turn, vec, dist, n)
    requires forall j: nat :: vec'(j) == vec(j + 1) && dist'(j) == dist(j + 1)
    ensures Describes(turn, vec', dist', n - 1)
  {
    forall j: nat | j < n - 1 ensures turn(vec'(j)) == Moved(vec'(j + 1), dist'(j)) {
      assert turn(vec(j + 1)) == Moved(vec(j + 2), dist(j + 1));
    }
  }

  /** One turn that moves: the loop goes on from the new vector, or finishes on it. */
  lemma LoopWithTurn(turn: Dict -> Turn, finish: Dict -> Outcome, threshold: real, pv: Dict, fuel: nat,
                     next: Dict, diff: real)
    requires fuel > 0 && turn(pv) == Moved(next, diff)
    ensures LoopWith(turn, finish, threshold, pv, fuel) ==
      if diff > threshold then LoopWith(turn, finish, threshold, next, fuel - 1) else finish(next)
  {
  }

  /**
   The loop stops after turn `k` and finishes on the vector that turn
   produced when the distances of all earlier turns exceed the threshold
   and that of turn `k` does not.
   */
  lemma {:induction false} LoopStopsAt(turn: Dict -> Turn, finish: Dict -> Outcome, threshold: real,
                                       vec: nat -> Dict, dist: nat -> real, fuel: nat, k: nat)
    requires k < fuel && Describes(turn, vec, dist, k + 1)
    requires forall j: nat :: j < k ==> dist(j) > threshold
    requires dist(k) <= threshold
    ensures LoopWith(turn, finish, threshold, vec(0), fuel) == finish(vec(k + 1))
    decreases k
  {
    assert turn(vec(0)) == Moved(vec(1), dist(0));
    LoopWithTurn(turn, finish, threshold, vec(0), fuel, vec(1), dist(0));
    if k > 0 {
      var vec' := (j: nat) => vec(j + 1);
      var dist' := (j: nat) => dist(j + 1);
      DescribesShift(turn, vec, dist, k + 1, vec', dist');
      assert forall j: nat :: j < k - 1 ==> dist'(j) == dist(j + 1);
      LoopStopsAt(turn, finish, threshold, vec', dist', fuel - 1, k - 1);
      assert vec'(0) == vec(1) && vec'(k) == vec(k + 1);
    }
  }

  /** The loop exhausts its budget when every turn within it moves at a distance above the threshold. */
  lemma {:induction false} LoopRunsOut(turn: Dict -> Turn, finish: Dict -> Outcome, threshold: real,
                                       vec: nat -> Dict, dist: nat -> real, fuel: nat)
    requires Describes(turn, vec, dist, fuel)
    requires forall j: nat :: j < fuel ==> dist(j) > threshold
    ensures LoopWith(turn, finish, threshold, vec(0), fuel) == OutOfFuel
    decreases fuel
  {
    if fuel > 0 {
      assert turn(vec(0)) == Moved(vec(1), dist(0));
      var vec' := (j: nat) => vec(j + 1);
      var dist' := (j: nat) => dist(j + 1);
      DescribesShift(turn, vec, dist, fuel, vec', dist');
      assert forall j: nat :: j < fuel - 1 ==> dist'(j) == dist(j + 1);
      LoopRunsOut(turn, finish, threshold, vec', dist', fuel - 1);
      assert vec'(0) == vec(1);
    }
  }

  /**
   When no turn within the budget raises, the loop either exhausts the
   budget or finishes on the vector of one of its turns.
   */
  lemma {:induction false} LoopEnds(turn: Dict -> Turn, finish: Dict -> Outcome, threshold: real,
                                    vec: nat -> Dict, dist: nat -> real, fuel: nat)
    requires Describes(turn, vec, dist, fuel)
    ensures var r := LoopWith(turn, finish, threshold, vec(0), fuel);
      r == OutOfFuel || exists k: nat :: 0 < k <= fuel && r == finish(vec(k))
    decreases fuel
  {
    if fuel > 0 {
      assert turn(vec(0)) == Moved(vec(1), dist(0));
      if dist(0) > threshold {
        var vec' := (j: nat) => vec(j + 1);
        var dist' := (j: nat) => dist(j + 1);
        DescribesShift(turn, vec, dist, fuel, vec', dist');
        LoopEnds(turn, finish, threshold, vec', dist', fuel - 1);
        var r := LoopWith(turn, finish, threshold, vec(0), fuel);
        assert r == LoopWith(turn, finish, threshold, vec'(0), fuel - 1);
        if r != OutOfFuel {
          var k: nat :| 0 < k <= fuel - 1 && r == finish(vec'(k));
          assert r == finish(vec(k + 1));
        }
      } else {
        assert LoopWith(turn, finish, threshold, vec(0), fuel) == finish(vec(1));
      }
    }
  }
}

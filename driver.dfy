/** The outer loop of `get_dispersion_index` as a state machine over
    `(round, last index)`, independent of how a round's index is computed:
    `rounds(k)` is what round k yields, None when its sample is too small.
    The machine stops with None at the first round that yields None, and
    with round k's index when it agrees with round k-1's within the
    tolerance; the first round never stops with an index. */
module Driver {
  import opened Results

  function Abs(x: real): real
  {
    if x < 0.0 then -x else x
  }

  /** The error between two consecutive indexes: the relative error
      |1 - curr / last|, or, when the previous index is 0 and that division
      raises `ZeroDivisionError`, the absolute difference |last - curr|. */
  function ConvergenceError(last: real, curr: real): (error: real)
    ensures error >= 0.0
    ensures last == 0.0 ==> (error == 0.0 <==> curr == 0.0)
  {
    if last != 0.0 then Abs(1.0 - curr / last) else Abs(last - curr)
  }

  /** Two consecutive indexes agree within the tolerance (`error <=
      convergence_tol`): equal indexes always agree once the tolerance is not
      negative, and nothing agrees within a negative tolerance. */
  predicate Converged(last: real, curr: real, tol: real)
    ensures last == curr && tol >= 0.0 ==> Converged(last, curr, tol)
    ensures tol < 0.0 ==> !Converged(last, curr, tol)
  {
    ConvergenceError(last, curr) <= tol
  }

  /** Every round from `bound` on yields None. */
  ghost predicate EndsBy(rounds: nat -> Option<real>, bound: nat)
  {
    forall j: nat :: bound <= j ==> rounds(j).None?
  }

  /** The machine from round k on, `last` being the index of round k-1
      (None in round 0). Whatever it returns is some round's index. */
  function Run(rounds: nat -> Option<real>, bound: nat, tol: real, k: nat, last: Option<real>): (r: Option<real>)
    requires EndsBy(rounds, bound)
    ensures r.Some? ==> exists j: nat :: k <= j < bound && rounds(j) == r
    decreases bound - k
  {
    match rounds(k)
    case None => None
    case Some(curr) =>
      if last.Some? && Converged(last.value, curr, tol) then Some(curr)
      else Run(rounds, bound, tol, k + 1, Some(curr))
  }

  /** Round j ends the run: it yields None, or (from the second round on)
      its index agrees with the previous round's. */
  predicate Ends(rounds: nat -> Option<real>, tol: real, j: nat)
  {
    rounds(j).None? ||
    (j >= 1 && rounds(j - 1).Some? && Converged(rounds(j - 1).value, rounds(j).value, tol))
  }

  /** Round k is the first round that ends the run. */
  predicate EndsAt(rounds: nat -> Option<real>, tol: real, k: nat)
  {
    Ends(rounds, tol, k) && forall j: nat :: j < k ==> !Ends(rounds, tol, j)
  }

  /** The index carried into round k. */
  function Carried(rounds: nat -> Option<real>, k: nat): Option<real>
  {
    if k == 0 then None else rounds(k - 1)
  }

  /** One round of the machine: stop with None, stop with the current index
      once it agrees with the previous one, or go on carrying it. */
  lemma RunUnfold(rounds: nat -> Option<real>, bound: nat, tol: real, k: nat, last: Option<real>)
    requires EndsBy(rounds, bound)
    ensures rounds(k).None? ==> Run(rounds, bound, tol, k, last) == None
    ensures rounds(k).Some? && last.Some? && Converged(last.value, rounds(k).value, tol) ==>
              Run(rounds, bound, tol, k, last) == rounds(k)
    ensures rounds(k).Some? && !(last.Some? && Converged(last.value, rounds(k).value, tol)) ==>
              Run(rounds, bound, tol, k, last) == Run(rounds, bound, tol, k + 1, rounds(k))
  {
  }

  /** The first round never returns an index: with a sample it always goes
      on to the second round. */
  lemma FirstRoundContinues(rounds: nat -> Option<real>, bound: nat, tol: real)
    requires EndsBy(rounds, bound)
    ensures Run(rounds, bound, tol, 0, None) ==
              if rounds(0).None? then None else Run(rounds, bound, tol, 1, rounds(0))
  {
  }

  /** Rounds that do not end the run lead the machine into round k carrying
      round k-1's index. */
  lemma {:induction false} RunReaches(rounds: nat -> Option<real>, bound: nat, tol: real, k: nat)
    requires EndsBy(rounds, bound)
    requires forall j: nat :: j < k ==> !Ends(rounds, tol, j)
    ensures Run(rounds, bound, tol, 0, None) == Run(rounds, bound, tol, k, Carried(rounds, k))
  {
    if k > 0 {
      RunReaches(rounds, bound, tol, k - 1);
      assert !Ends(rounds, tol, k - 1);
    }
  }

  /** The outcome of the run is what its first ending round yields: None
      when that round has no sample, otherwise its index, which agrees with
      the previous round's within the tolerance. */
  lemma RunOutcome(rounds: nat -> Option<real>, bound: nat, tol: real, k: nat)
    requires EndsBy(rounds, bound) && EndsAt(rounds, tol, k)
    ensures Run(rounds, bound, tol, 0, None) == rounds(k)
    ensures rounds(k).Some? ==>
              k >= 1 && rounds(k - 1).Some? && Converged(rounds(k - 1).value, rounds(k).value, tol)
  {
    RunReaches(rounds, bound, tol, k);
  }

  /** Some round no later than `bound` ends the run. */
  lemma {:induction false} EndsFrom(rounds: nat -> Option<real>, bound: nat, tol: real, k: nat)
    requires EndsBy(rounds, bound) && k <= bound
    requires forall j: nat :: j < k ==> !Ends(rounds, tol, j)
    ensures exists n: nat :: n <= bound && EndsAt(rounds, tol, n)
    decreases bound - k
  {
    if Ends(rounds, tol, k) {
      assert EndsAt(rounds, tol, k);
    } else {
      EndsFrom(rounds, bound, tol, k + 1);
    }
  }

  /** At most one round is the first to end the run. */
  lemma EndsAtUnique(rounds: nat -> Option<real>, tol: real, k: nat, n: nat)
    requires EndsAt(rounds, tol, k) && EndsAt(rounds, tol, n)
    ensures k == n
  {
  }

  /** The run returns None exactly when a round without a sample comes
      before any two consecutive indexes agree, and otherwise returns the
      index of the first round that agrees with its predecessor. */
  lemma RunNoneExactly(rounds: nat -> Option<real>, bound: nat, tol: real)
    requires EndsBy(rounds, bound)
    ensures Run(rounds, bound, tol, 0, None).None? <==>
              exists k: nat :: EndsAt(rounds, tol, k) && rounds(k).None?
    ensures Run(rounds, bound, tol, 0, None).Some? <==>
              exists k: nat :: k >= 1 && EndsAt(rounds, tol, k) && rounds(k).Some? &&
                               Run(rounds, bound, tol, 0, None) == rounds(k)
  {
    EndsFrom(rounds, bound, tol, 0);
    var k: nat :| k <= bound && EndsAt(rounds, tol, k);
    RunOutcome(rounds, bound, tol, k);
    forall n: nat | EndsAt(rounds, tol, n)
      ensures n == k
    {
      EndsAtUnique(rounds, tol, k, n);
    }
  }
}

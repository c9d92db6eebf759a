/** The convergence driver and the entry point `get_dispersion_index`: in
    round k the window is `sampling_res * (k + 1)` wide; a round whose
    sample has fewer than 100 windows ends the run without a result; from
    the second round on, the index is returned as soon as it agrees with
    the previous round's index within the tolerance (the machine itself is
    Driver.Run). */
module Dispersion {
  import opened Results
  import opened Sorting
  import opened Statistics
  import opened Windows
  import opened Timestamps
  import opened Driver

  /** Fewest windows a sample must have to be used. */
  const MinSampleSize := 100

  /** Window width in round k (from 0): it starts at the sampling resolution
      and grows by it every round. */
  function Width(res: int, k: nat): (w: int)
    requires res > 0
    ensures w >= res
  {
    if k == 0 then res else Width(res, k - 1) + res
  }

  /** Time between the first and the last instant. */
  function Span(ts: seq<int>): (d: nat)
    requires Timeline(ts)
  {
    Last(ts) - First(ts)
  }

  /** Round k's sample has enough windows to be used: exactly when the span
      holds 100 windows of round k's width. */
  predicate Sufficient(ts: seq<int>, res: int, k: nat)
    requires Timeline(ts) && res > 0
    ensures Sufficient(ts, res, k) <==> Span(ts) >= MinSampleSize * (res * (k + 1))
  {
    WidthIsMultiple(res, k);
    ManyWindowsIff(ts, Width(res, k), MinSampleSize);
    |WindowCounts(ts, Width(res, k))| >= MinSampleSize
  }

  /** Round k's index of dispersion, `variance(sample) / mean(sample)`;
      defined because the first window is never empty. */
  function RoundIndex(ts: seq<int>, res: int, k: nat): (index: real)
    requires Timeline(ts) && res > 0 && Sufficient(ts, res, k)
    ensures index >= 0.0
  {
    FirstWindowOccupied(ts, Width(res, k));
    DispersionIndex(WindowCounts(ts, Width(res, k)))
  }

  /** What round k yields: its index, or None when its sample is too small. */
  function RoundResult(ts: seq<int>, res: int, k: nat): (r: Option<real>)
    requires Timeline(ts) && res > 0
    ensures r.Some? <==> Sufficient(ts, res, k)
    ensures r.Some? <==> Span(ts) >= MinSampleSize * (res * (k + 1))
    ensures r.Some? ==> r.value == RoundIndex(ts, res, k) && r.value >= 0.0
  {
    if Sufficient(ts, res, k) then Some(RoundIndex(ts, res, k)) else None
  }

  /** The first round with no window at all: from this round on the window
      is wider than the span. */
  function Bound(ts: seq<int>, res: int): nat
    requires Timeline(ts) && res > 0
  {
    Span(ts) / res
  }

  /** The outcomes of the rounds over the given instants; every round from
      Bound on has too small a sample. */
  function Rounds(ts: seq<int>, res: int): (rounds: nat -> Option<real>)
    requires Timeline(ts) && res > 0
    ensures EndsBy(rounds, Bound(ts, res))
    ensures forall k: nat :: rounds(k) == RoundResult(ts, res, k)
  {
    LateRoundsInsufficient(ts, res);
    (k: nat) => RoundResult(ts, res, k)
  }

  /** The index the outer loop returns over the sorted instants, if any;
      it is never negative. */
  function Drive(ts: seq<int>, res: int, tol: real): (r: Option<real>)
    requires Timeline(ts) && res > 0
    ensures r.Some? ==> r.value >= 0.0
  {
    Run(Rounds(ts, res), Bound(ts, res), tol, 0, None)
  }

  /** One round of the outer loop: sample with the given window and, when
      the sample is large enough, compute its index of dispersion. */
  method SampleIndex(ts: seq<int>, res: int, ghost k: nat, window: int) returns (index: Option<real>)
    requires Timeline(ts) && res > 0 && window == Width(res, k)
    ensures index == Rounds(ts, res)(k)
  {
    var sample := SampleWindows(ts, window);
    if |sample| < MinSampleSize {
      return None;
    }
    FirstWindowOccupied(ts, window);
    index := Some(DispersionIndex(sample));
  }

  /** One round of the outer loop with the given window and the previous
      round's index: either the loop stops here with its result, or it goes
      on with this round's index, and then the window fits in the span. */
  method Round(ts: seq<int>, res: int, tol: real, ghost k: nat, window: int, lastIndex: Option<real>)
    returns (stop: bool, index: Option<real>)
    requires Timeline(ts) && res > 0 && window == Width(res, k)
    ensures stop ==> index == Run(Rounds(ts, res), Bound(ts, res), tol, k, lastIndex)
    ensures !stop ==> index.Some? && window <= Span(ts) &&
                      Run(Rounds(ts, res), Bound(ts, res), tol, k + 1, index) ==
                      Run(Rounds(ts, res), Bound(ts, res), tol, k, lastIndex)
  {
    var round := SampleIndex(ts, res, k, window);
    RunUnfold(Rounds(ts, res), Bound(ts, res), tol, k, lastIndex);
    if round.None? {
      return true, None;
    }
    var currIndex := round.value;
    if lastIndex.Some? {
      var error := ConvergenceError(lastIndex.value, currIndex);
      if error <= tol {
        return true, Some(currIndex);
      }
    }
    SufficientFitsSpan(ts, res, k);
    return false, round;
  }

  /** The outer loop of `get_dispersion_index` over the sorted instants. */
  method Converge(ts: seq<int>, samplingRes: int, tol: real) returns (index: Option<real>)
    requires Timeline(ts) && samplingRes > 0
    ensures index == Drive(ts, samplingRes, tol)
  {
    var window := samplingRes;
    var lastIndex: Option<real> := None;
    ghost var k: nat := 0;
    while true
      invariant window == Width(samplingRes, k)
      invariant Run(Rounds(ts, samplingRes), Bound(ts, samplingRes), tol, k, lastIndex) == Drive(ts, samplingRes, tol)
      decreases Span(ts) - window + samplingRes
    {
      var stop, round := Round(ts, samplingRes, tol, k, window, lastIndex);
      if stop {
        return round;
      }
      lastIndex := round;
      window := window + samplingRes;
      k := k + 1;
    }
  }

  /** Why `get_dispersion_index` produces no value: a line without a
      timestamp (the read aborts), or no line at all (`timestamps[0]`
      raises IndexError). */
  datatype RunError = MalformedLine(error: LineError) | EmptyLog

  /** `get_dispersion_index` on the lines of a log: read an instant from
      every line, sort them, then run the driver. The result is the driver's
      outcome on the sorted instants (the sorted list is unique, see
      Sorting.SortedPermutationUnique), or the first error. */
  method GetDispersionIndex(lines: seq<string>, samplingRes: int, tol: real)
    returns (r: Result<Option<real>, RunError>)
    requires samplingRes > 0
    ensures ParseLines(lines).Err? ==> r == Err(MalformedLine(ParseLines(lines).error))
    ensures ParseLines(lines) == Ok([]) ==> r == Err(EmptyLog)
    ensures ParseLines(lines).Ok? && ParseLines(lines).value != [] ==>
              r.Ok? &&
              exists sorted :: Timeline(sorted) && multiset(sorted) == multiset(ParseLines(lines).value) &&
                               r.value == Drive(sorted, samplingRes, tol)
  {
    var read := ReadTimestamps(lines);
    if read.Err? {
      return Err(MalformedLine(read.error));
    }
    var timestamps := read.value;
    var buffer := new int[|timestamps|](i requires 0 <= i < |timestamps| => timestamps[i]);
    assert buffer[..] == timestamps;
    SortInPlace(buffer);
    var sorted := buffer[..];
    if |sorted| == 0 {
      return Err(EmptyLog);
    }
    var index := Converge(sorted, samplingRes, tol);
    r := Ok(index);
  }

  /** A round with enough windows uses a window no wider than the span. */
  lemma SufficientFitsSpan(ts: seq<int>, res: int, k: nat)
    requires Timeline(ts) && res > 0 && Sufficient(ts, res, k)
    ensures Width(res, k) <= Span(ts)
  {
    SpanHoldsWindow(ts, Width(res, k));
  }

  /** Every round from Bound on has a window wider than the span, hence no
      whole window at all. */
  lemma LateRoundsInsufficient(ts: seq<int>, res: int)
    requires Timeline(ts) && res > 0
    ensures forall k: nat :: Bound(ts, res) <= k ==> !Sufficient(ts, res, k)
  {
    forall k: nat | Bound(ts, res) <= k
      ensures !Sufficient(ts, res, k)
    {
      WidthIsMultiple(res, k);
      MulMonotone(Bound(ts, res) + 1, k + 1, res);
      BeyondQuotient(Span(ts), res);
      if Sufficient(ts, res, k) {
        SufficientFitsSpan(ts, res, k);
      }
    }
  }

  /** One more than the quotient, times the divisor, exceeds the dividend. */
  lemma BeyondQuotient(a: int, d: int)
    requires a >= 0 && d > 0
    ensures a < (a / d + 1) * d
  {
    assert a == (a / d) * d + a % d;
    assert (a / d + 1) * d == (a / d) * d + d;
  }

  /** In round k the window is `sampling_res * (k + 1)` wide. */
  lemma {:induction false} WidthIsMultiple(res: int, k: nat)
    requires res > 0
    ensures Width(res, k) == res * (k + 1)
  {
    if k > 0 {
      WidthIsMultiple(res, k - 1);
    }
  }

  /** The window width strictly increases from round to round. */
  lemma {:induction false} WidthGrows(res: int, j: nat, k: nat)
    requires res > 0 && j <= k
    ensures Width(res, j) <= Width(res, k)
    ensures j < k ==> Width(res, j) < Width(res, k)
    decreases k
  {
    if j < k {
      WidthGrows(res, j, k - 1);
    }
  }

  /** A round whose sample is too small implies the same for every later
      round: the window only widens. */
  lemma InsufficientStaysInsufficient(ts: seq<int>, res: int, j: nat, k: nat)
    requires Timeline(ts) && res > 0 && j <= k && !Sufficient(ts, res, j)
    ensures !Sufficient(ts, res, k)
  {
    WidthGrows(res, j, k);
    FewerWindowsWhenWider(ts, Width(res, j), Width(res, k));
  }

  /** The run's outcome over the instants is what its first ending round
      yields: None when that round has fewer than 100 windows, otherwise
      its index (which then agrees with the previous round's, see
      Driver.RunOutcome). */
  lemma DriveOutcome(ts: seq<int>, res: int, tol: real, k: nat)
    requires Timeline(ts) && res > 0 && EndsAt(Rounds(ts, res), tol, k)
    ensures Drive(ts, res, tol) == RoundResult(ts, res, k)
  {
    RunOutcome(Rounds(ts, res), Bound(ts, res), tol, k);
  }

  /** The run over the instants gives up without a result exactly when the
      first round that ends it has fewer than 100 windows; it always ends,
      at the latest in round Bound. */
  lemma DriveNoneIff(ts: seq<int>, res: int, tol: real)
    requires Timeline(ts) && res > 0
    ensures Drive(ts, res, tol).None? <==>
              exists k: nat :: k <= Bound(ts, res) && EndsAt(Rounds(ts, res), tol, k) && !Sufficient(ts, res, k)
  {
    var rounds := Rounds(ts, res);
    EndsFrom(rounds, Bound(ts, res), tol, 0);
    var k: nat :| k <= Bound(ts, res) && EndsAt(rounds, tol, k);
    RunOutcome(rounds, Bound(ts, res), tol, k);
    forall n: nat | EndsAt(rounds, tol, n)
      ensures n == k
    {
      EndsAtUnique(rounds, tol, k, n);
    }
    assert rounds(k) == RoundResult(ts, res, k);
  }
}

/** The uniform-arrival scenario of the repository's tests: requests a fixed
    spacing apart give the same count in every window, so the index of
    dispersion is 0 in every round and the driver returns exactly 0 in the
    second round, through the absolute-difference branch. */
module Scenarios {
  import opened Results
  import opened Sorting
  import opened Statistics
  import opened Windows
  import opened Driver
  import opened Dispersion

  /** n instants `spacing` milliseconds apart, from t0. */
  function Evenly(t0: int, spacing: int, n: nat): seq<int>
  {
    seq(n, i => t0 + i * spacing)
  }

  lemma EvenlyTimeline(t0: int, d: int, n: nat)
    requires d > 0 && n >= 1
    ensures Timeline(Evenly(t0, d, n))
  {
    var ts := Evenly(t0, d, n);
    forall i, j | 0 <= i <= j < n
      ensures ts[i] <= ts[j]
    {
      MulMonotone(i, j, d);
    }
  }

  lemma MulStrict(a: int, b: int, w: int)
    requires a < b && w > 0
    ensures a * w < b * w
  {
    MulMonotone(a + 1, b, w);
    assert (a + 1) * w == a * w + w;
  }

  /** With windows m spacings wide, there are (n - 1) div m whole windows. */
  lemma EvenWindowNumber(t0: int, d: int, n: nat, m: int)
    requires d > 0 && m > 0 && n >= 1
    ensures Timeline(Evenly(t0, d, n)) && NumWindows(Evenly(t0, d, n), m * d) == (n - 1) / m
  {
    var ts := Evenly(t0, d, n);
    EvenlyTimeline(t0, d, n);
    var q := (n - 1) / m;
    QuotientBrackets(n - 1, m);
    MulMonotone(q * m, n - 1, d);
    MulStrict(n - 1, (q + 1) * m, d);
    assert q * (m * d) == (q * m) * d;
    assert (q + 1) * (m * d) == ((q + 1) * m) * d;
    LastWindowOverruns(ts, m * d, q);
  }

  /** Every whole window m spacings wide holds m + 1 instants: both of its
      ends are instants. */
  lemma EvenWindowCount(t0: int, d: int, n: nat, m: int, k: int)
    requires d > 0 && m > 0 && n >= 1 && 0 <= k && (k + 1) * m <= n - 1
    ensures Count(Evenly(t0, d, n), t0 + k * (m * d), t0 + (k + 1) * (m * d)) == m + 1
  {
    var a, b := k * m, (k + 1) * m;
    assert k * (m * d) == a * d && (k + 1) * (m * d) == b * d;
    EvenBefore(t0, d, n, a);
    EvenBetween(t0, d, n, a, b);
    EvenAfter(t0, d, n, b);
    CountBetween(Evenly(t0, d, n), t0 + a * d, t0 + b * d, a, b + 1);
    assert b == a + m;
  }

  lemma EvenBefore(t0: int, d: int, n: nat, a: int)
    requires d > 0
    ensures forall i :: 0 <= i < n && i < a ==> Evenly(t0, d, n)[i] < t0 + a * d
  {
    forall i | 0 <= i < n && i < a
      ensures Evenly(t0, d, n)[i] < t0 + a * d
    {
      MulStrict(i, a, d);
    }
  }

  lemma EvenBetween(t0: int, d: int, n: nat, a: int, b: int)
    requires d > 0
    ensures forall i :: 0 <= i < n && a <= i <= b ==>
              t0 + a * d <= Evenly(t0, d, n)[i] <= t0 + b * d
  {
    forall i | 0 <= i < n && a <= i <= b
      ensures t0 + a * d <= Evenly(t0, d, n)[i] <= t0 + b * d
    {
      MulMonotone(a, i, d);
      MulMonotone(i, b, d);
    }
  }

  lemma EvenAfter(t0: int, d: int, n: nat, b: int)
    requires d > 0
    ensures forall i :: 0 <= i < n && b < i ==> t0 + b * d < Evenly(t0, d, n)[i]
  {
    forall i | 0 <= i < n && b < i
      ensures t0 + b * d < Evenly(t0, d, n)[i]
    {
      MulStrict(b, i, d);
    }
  }

  /** Uniform arrivals give a constant sample for windows m spacings wide. */
  lemma EvenSampleConstant(t0: int, d: int, n: nat, m: int)
    requires d > 0 && m > 0 && n >= 1
    ensures Timeline(Evenly(t0, d, n)) && Constant(WindowCounts(Evenly(t0, d, n), m * d))
  {
    var ts := Evenly(t0, d, n);
    EvenlyTimeline(t0, d, n);
    var counts := WindowCounts(ts, m * d);
    EvenWindowNumber(t0, d, n, m);
    forall k | 0 <= k < |counts|
      ensures counts[k] == m + 1
    {
      QuotientBrackets(n - 1, m);
      MulMonotone(k + 1, (n - 1) / m, m);
      WindowCountAt(ts, m * d, k);
      EvenWindowCount(t0, d, n, m, k);
    }
  }

  /** A round whose sample is constant has index exactly 0. */
  lemma ConstantRoundIndexZero(ts: seq<int>, res: int, k: nat)
    requires Timeline(ts) && res > 0 && Sufficient(ts, res, k)
    requires Constant(WindowCounts(ts, Width(res, k)))
    ensures RoundIndex(ts, res, k) == 0.0
  {
    FirstWindowOccupied(ts, Width(res, k));
    IndexZeroIffConstant(WindowCounts(ts, Width(res, k)));
  }

  /** Requests `d` ms apart, sampled from a resolution of m spacings, with at
      least 200 resolutions between the first and the last request: both of
      the first two rounds have a constant sample of at least 100 windows,
      their indexes are 0, and the driver returns 0 in round two. Since the
      first round's index is 0, the error is the absolute difference. */
  lemma UniformArrivalsIndexZero(t0: int, d: int, n: nat, m: int, tol: real)
    requires d > 0 && m > 0 && tol >= 0.0 && n - 1 >= 200 * m
    ensures Timeline(Evenly(t0, d, n)) && Drive(Evenly(t0, d, n), m * d, tol) == Some(0.0)
    ensures Rounds(Evenly(t0, d, n), m * d)(0) == Some(0.0)
    ensures Rounds(Evenly(t0, d, n), m * d)(1) == Some(0.0)
    ensures EndsAt(Rounds(Evenly(t0, d, n), m * d), tol, 1)
  {
    var ts := Evenly(t0, d, n);
    EvenlyTimeline(t0, d, n);
    var res := m * d;
    assert Width(res, 0) == m * d;
    assert Width(res, 1) == (2 * m) * d;
    EvenWindowNumber(t0, d, n, m);
    EvenWindowNumber(t0, d, n, 2 * m);
    QuotientAtLeast(n - 1, m, 200);
    QuotientAtLeast(n - 1, 2 * m, 100);
    EvenSampleConstant(t0, d, n, m);
    EvenSampleConstant(t0, d, n, 2 * m);
    ConstantRoundIndexZero(ts, res, 0);
    ConstantRoundIndexZero(ts, res, 1);
    var rounds := Rounds(ts, res);
    assert rounds(0) == Some(0.0) && rounds(1) == Some(0.0);
    assert Converged(0.0, 0.0, tol);
    assert EndsAt(rounds, tol, 1);
    DriveOutcome(ts, res, tol, 1);
  }

  /** The repository's uniform test: 15000 requests 100 ms apart, sampling
      resolutions 100, 200, ..., 900 ms and tolerance 0.20 give index 0. */
  lemma UniformArrivalTest(t0: int, samplingRes: int)
    requires 100 <= samplingRes <= 900 && samplingRes % 100 == 0
    ensures Timeline(Evenly(t0, 100, 15000)) && Drive(Evenly(t0, 100, 15000), samplingRes, 0.20) == Some(0.0)
  {
    var m := samplingRes / 100;
    assert samplingRes == m * 100;
    UniformArrivalsIndexZero(t0, 100, 15000, m, 0.20);
  }

  /** The sample-size test counts windows, not requests: two requests 100
      resolutions apart already give a first round of 100 windows. */
  lemma TwoRequestsSuffice(t0: int, res: int)
    requires res > 0
    ensures Timeline([t0, t0 + 100 * res]) && Sufficient([t0, t0 + 100 * res], res, 0)
  {
    var ts := [t0, t0 + 100 * res];
    assert Timeline(ts);
    assert 101 * res == 100 * res + res;
    LastWindowOverruns(ts, res, 100);
  }
}

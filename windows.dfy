/** The window sampler: over the sorted instants, closed windows
    [start, start + w] laid end to end from the first instant, each counted
    with `bisect_left`/`bisect_right`; the first window that ends after the
    last instant is dropped. */
module Windows {
  import opened Sorting
  import opened Statistics

  /** The sorted instants the sampler reads: never empty, ascending. */
  predicate Timeline(ts: seq<int>)
  {
    |ts| > 0 && Sorted(ts)
  }

  function First(ts: seq<int>): int
    requires |ts| > 0
  {
    ts[0]
  }

  function Last(ts: seq<int>): int
    requires |ts| > 0
  {
    ts[|ts| - 1]
  }

  /** Number of instants t in ts with lo <= t <= hi. */
  function Count(ts: seq<int>, lo: int, hi: int): nat
  {
    if ts == [] then 0
    else (if lo <= ts[0] <= hi then 1 else 0) + Count(ts[1..], lo, hi)
  }

  /** Start of the k-th window of width w. */
  function WindowStart(ts: seq<int>, w: int, k: int): int
    requires |ts| > 0
  {
    First(ts) + k * w
  }

  /** How many whole windows of width w fit between the first and the last
      instant. */
  function NumWindows(ts: seq<int>, w: int): nat
    requires Timeline(ts) && w > 0
  {
    (Last(ts) - First(ts)) / w
  }

  /** The sample for width w: the k-th entry counts the instants in
      [WindowStart(k), WindowStart(k + 1)]. */
  function WindowCounts(ts: seq<int>, w: int): seq<int>
    requires Timeline(ts) && w > 0
  {
    seq(NumWindows(ts, w), k => Count(ts, WindowStart(ts, w, k), WindowStart(ts, w, k + 1)))
  }

  /** `bisect_left(a, x)`: the first index whose element is not below x. */
  method BisectLeft(a: seq<int>, x: int) returns (index: int)
    requires Sorted(a)
    ensures 0 <= index <= |a|
    ensures forall i :: 0 <= i < index ==> a[i] < x
    ensures forall i :: index <= i < |a| ==> x <= a[i]
  {
    var lo, hi := 0, |a|;
    while lo < hi
      invariant 0 <= lo <= hi <= |a|
      invariant forall i :: 0 <= i < lo ==> a[i] < x
      invariant forall i :: hi <= i < |a| ==> x <= a[i]
    {
      var mid := (lo + hi) / 2;
      if a[mid] < x {
        lo := mid + 1;
      } else {
        hi := mid;
      }
    }
    index := lo;
  }

  /** `bisect_right(a, x, lo)`: searching from `lo` on, the first index
      whose element is above x. */
  method BisectRight(a: seq<int>, x: int, lo: int) returns (index: int)
    requires Sorted(a) && 0 <= lo <= |a|
    ensures lo <= index <= |a|
    ensures forall i :: lo <= i < index ==> a[i] <= x
    ensures forall i :: index <= i < |a| ==> x < a[i]
  {
    var low, high := lo, |a|;
    while low < high
      invariant lo <= low <= high <= |a|
      invariant forall i :: lo <= i < low ==> a[i] <= x
      invariant forall i :: high <= i < |a| ==> x < a[i]
    {
      var mid := (low + high) / 2;
      if x < a[mid] {
        high := mid;
      } else {
        low := mid + 1;
      }
    }
    index := low;
  }

  /** The inner loop: windows are counted from the first instant on, each
      starting where the previous one ended, until a window would end after
      the last instant. */
  method SampleWindows(ts: seq<int>, window: int) returns (sample: seq<int>)
    requires Timeline(ts) && window > 0
    ensures sample == WindowCounts(ts, window)
  {
    sample := [];
    var start := ts[0];
    while true
      invariant start == WindowStart(ts, window, |sample|)
      invariant start <= Last(ts)
      invariant |sample| <= NumWindows(ts, window)
      invariant forall k :: 0 <= k < |sample| ==>
                  sample[k] == Count(ts, WindowStart(ts, window, k), WindowStart(ts, window, k + 1))
      decreases Last(ts) - start
    {
      var end := start + window;
      NextWindowStart(ts, window, |sample|);
      if end > ts[|ts| - 1] {
        break;
      }
      WithinSpan(ts, window, |sample| + 1);
      var startIndex := BisectLeft(ts, start);
      var endIndex := BisectRight(ts, end, startIndex);
      CountBetween(ts, start, end, startIndex, endIndex);
      sample := sample + [endIndex - startIndex];
      start := end;
    }
    LastWindowOverruns(ts, window, |sample|);
    SampleIsWindowCounts(ts, window, sample);
  }

  lemma SampleIsWindowCounts(ts: seq<int>, w: int, sample: seq<int>)
    requires Timeline(ts) && w > 0
    requires |sample| == NumWindows(ts, w)
    requires forall k :: 0 <= k < |sample| ==>
               sample[k] == Count(ts, WindowStart(ts, w, k), WindowStart(ts, w, k + 1))
    ensures sample == WindowCounts(ts, w)
  {
  }

  lemma NextWindowStart(ts: seq<int>, w: int, k: int)
    requires |ts| > 0
    ensures WindowStart(ts, w, k + 1) == WindowStart(ts, w, k) + w
  {
    assert (k + 1) * w == k * w + w;
  }

  /** When the instants below index l are below lo, those from l up to r
      are in [lo, hi] and the rest are above hi, exactly r - l instants lie
      in [lo, hi]. */
  lemma {:induction false} CountBetween(ts: seq<int>, lo: int, hi: int, l: int, r: int)
    requires 0 <= l <= r <= |ts|
    requires forall i :: 0 <= i < l ==> ts[i] < lo
    requires forall i :: l <= i < r ==> lo <= ts[i] <= hi
    requires forall i :: r <= i < |ts| ==> hi < ts[i]
    ensures Count(ts, lo, hi) == r - l
  {
    if ts != [] {
      CountBetween(ts[1..], lo, hi, if l == 0 then 0 else l - 1, if r == 0 then 0 else r - 1);
    }
  }

  /** A window that starts no later than the last instant has an index at
      most NumWindows. */
  lemma WithinSpan(ts: seq<int>, w: int, k: int)
    requires Timeline(ts) && w > 0 && 0 <= k
    requires WindowStart(ts, w, k) <= Last(ts)
    ensures k <= NumWindows(ts, w)
  {
    var d := Last(ts) - First(ts);
    if k > d / w {
      MulMonotone(d / w + 1, k, w);
    }
  }

  /** The sampler stops at the first window whose end passes the last
      instant: that window's index is NumWindows. */
  lemma LastWindowOverruns(ts: seq<int>, w: int, k: int)
    requires Timeline(ts) && w > 0 && 0 <= k
    requires WindowStart(ts, w, k) <= Last(ts) < WindowStart(ts, w, k + 1)
    ensures k == NumWindows(ts, w)
  {
    WithinSpan(ts, w, k);
    var d := Last(ts) - First(ts);
    if k < d / w {
      MulMonotone(k + 1, d / w, w);
    }
  }

  /** A sample with any window at all has windows no wider than the span. */
  lemma SpanHoldsWindow(ts: seq<int>, w: int)
    requires Timeline(ts) && w > 0 && NumWindows(ts, w) > 0
    ensures w <= Last(ts) - First(ts)
  {
    var d := Last(ts) - First(ts);
    MulMonotone(1, d / w, w);
  }

  /** A wider window never yields more whole windows. */
  lemma FewerWindowsWhenWider(ts: seq<int>, v: int, w: int)
    requires Timeline(ts) && 0 < v <= w
    ensures NumWindows(ts, w) <= NumWindows(ts, v)
  {
    var q := NumWindows(ts, w);
    MulMonotone(v, w, q);
    WithinSpan(ts, v, q);
  }

  /** Quotient and divisor bracket the dividend. */
  lemma QuotientBrackets(a: int, m: int)
    requires a >= 0 && m > 0
    ensures (a / m) * m <= a < (a / m + 1) * m
  {
    assert a == (a / m) * m + a % m;
    assert (a / m + 1) * m == (a / m) * m + m;
  }

  /** A dividend of at least c times the divisor has a quotient of at least c. */
  lemma QuotientAtLeast(a: int, m: int, c: int)
    requires a >= 0 && m > 0 && c >= 0 && a >= c * m
    ensures a / m >= c
  {
    QuotientBrackets(a, m);
    if a / m < c {
      MulMonotone(a / m + 1, c, m);
    }
  }

  /** At least c whole windows of width w fit exactly when the span is at
      least c widths. */
  lemma ManyWindowsIff(ts: seq<int>, w: int, c: int)
    requires Timeline(ts) && w > 0 && c >= 0
    ensures NumWindows(ts, w) >= c <==> Last(ts) - First(ts) >= c * w
  {
    var d := Last(ts) - First(ts);
    QuotientBrackets(d, w);
    if d >= c * w {
      QuotientAtLeast(d, w, c);
    } else if d / w >= c {
      MulMonotone(c, d / w, w);
    }
  }

  lemma MulMonotone(a: int, b: int, w: int)
    requires a <= b && w >= 0
    ensures a * w <= b * w
  {
    assert b * w - a * w == (b - a) * w;
  }

  /** The first window starts at the first instant, so it is never empty;
      hence a sample with any window has a positive sum and mean, and
      `variance(sample) / mean(sample)` never divides by zero. */
  lemma FirstWindowOccupied(ts: seq<int>, w: int)
    requires Timeline(ts) && w > 0 && NumWindows(ts, w) > 0
    ensures WindowCounts(ts, w)[0] >= 1
    ensures Sum(WindowCounts(ts, w)) > 0 && Mean(WindowCounts(ts, w)) > 0.0
  {
    var counts := WindowCounts(ts, w);
    WindowCountAt(ts, w, 0);
    assert WindowStart(ts, w, 0) == First(ts) && WindowStart(ts, w, 1) == First(ts) + w;
    assert Count(ts, First(ts), First(ts) + w) >= 1;
    SumAtLeastElement(counts, 0);
    RatioSign(Sum(counts), |counts|);
  }

  lemma WindowCountAt(ts: seq<int>, w: int, k: int)
    requires Timeline(ts) && w > 0 && 0 <= k < NumWindows(ts, w)
    ensures WindowCounts(ts, w)[k] == Count(ts, WindowStart(ts, w, k), WindowStart(ts, w, k + 1))
  {
  }

  /** Counting [a, c] and the point b is counting [a, b] and [b, c]: an
      instant equal to b is in both halves. */
  lemma {:induction false} CountSplit(ts: seq<int>, a: int, b: int, c: int)
    requires a <= b <= c
    ensures Count(ts, a, c) + Count(ts, b, b) == Count(ts, a, b) + Count(ts, b, c)
  {
    if ts != [] {
      CountSplit(ts[1..], a, b, c);
    }
  }

  /** Instants that lie on one of the boundaries shared by the first k
      windows (the starts of windows 1 to k - 1). */
  function BoundaryHits(ts: seq<int>, w: int, k: int): nat
    requires |ts| > 0
  {
    if k <= 1 then 0
    else BoundaryHits(ts, w, k - 1) + Count(ts, WindowStart(ts, w, k - 1), WindowStart(ts, w, k - 1))
  }

  /** The first k counts add up to the instants in [First, WindowStart(k)]
      plus the instants on the shared boundaries: an instant that falls
      exactly where one window ends and the next begins is counted in
      both. */
  lemma {:induction false} SumDoubleCountsBoundaries(ts: seq<int>, w: int, k: int)
    requires Timeline(ts) && w > 0 && 1 <= k <= NumWindows(ts, w)
    ensures Sum(WindowCounts(ts, w)[..k]) ==
            Count(ts, First(ts), WindowStart(ts, w, k)) + BoundaryHits(ts, w, k)
  {
    var counts := WindowCounts(ts, w);
    var j := k - 1;
    WindowCountAt(ts, w, j);
    assert j + 1 == k;
    assert counts[..k][..j] == counts[..j];
    assert Sum(counts[..k]) == Sum(counts[..j]) + counts[j];
    if j == 0 {
      assert First(ts) == WindowStart(ts, w, 0);
    } else {
      SumDoubleCountsBoundaries(ts, w, j);
      MulMonotone(0, j, w);
      NextWindowStart(ts, w, j);
      CountSplit(ts, First(ts), WindowStart(ts, w, j), WindowStart(ts, w, k));
    }
  }
}

# Index of dispersion of request timestamps

This project models `get_dispersion_index`, the function that estimates the
burstiness of a load generator's requests from its log. It reads one
timestamp per log line and sorts the timestamps. It then grows a time window
by the sampling resolution, round after round. In each round it counts the
requests per window and takes the index of dispersion of those counts
(`variance / mean`). It stops when two successive indexes agree within the
convergence tolerance, or gives up when a sample has fewer than 100 windows.

The model has these modules, one file each:

- `Results` (results.dfy): `Option` and `Result`.
- `Calendar` (calendar.dfy): the proleptic Gregorian calendar of
  `datetime`, and a datetime's instant as whole milliseconds since
  0001-01-01. Comparing instants is comparing datetimes.
- `Timestamps` (timestamps.dfy): the timestamp pattern, position by
  position, and `re.search` as the leftmost match. It also models the
  checks `strptime` makes (a literal `.` before the fraction, a year from
  1, a day that exists in its month) and the read loop, which aborts at
  the first bad line.
- `Sorting` (sorting.dfy): `timestamps.sort()` as an in-place sort of an
  array. A sorted permutation is unique, so any correct sort gives the
  same list.
- `Statistics` (statistics.dfy): `statistics.mean` and the sample
  `variance` (denominator n - 1) over exact rationals.
- `Windows` (windows.dfy): the inner sampling loop with `bisect_left` and
  `bisect_right`. It is proved equal to a closed form: window k is
  `[first + k*w, first + (k+1)*w]`, and there are `(last - first) div w`
  windows.
- `Driver` (driver.dfy): the outer loop as a machine over
  `(round, last index)`, for any sequence of round outcomes.
- `Dispersion` (dispersion.dfy): that machine applied to the rounds of a
  real timeline, the outer loop as a method, and the whole function.
- `Scenarios` (scenarios.dfy): the uniform-arrival case of the
  repository's tests, proved for every resolution the test uses.

Three facts about the code shape the model:

- **The code has no zero-mean case.** The first window starts at the first
  timestamp, so its count is at least 1 and every sample's mean is
  positive (`Windows.FirstWindowOccupied`). The division by the mean at
  line 107 is always defined.
- **The sample-size test counts windows, not requests.** A round ends the
  run when its sample has fewer than 100 windows. Two requests 100
  resolutions apart already give 100 windows
  (`Scenarios.TwoRequestsSuffice`).
- **An empty log is an error.** On an empty log the code raises
  `IndexError` at `timestamps[0]`. The model returns `Err(EmptyLog)`.

## Model

| member | source | states |
|---|---|---|
| `Calendar.Millis` | analysis/notebooks/dispersion_index/dispersion_index.py:70 | a datetime's instant is never negative and splits back into its day number and its time of day in milliseconds |
| `Calendar.MillisOrder` | analysis/notebooks/dispersion_index/dispersion_index.py:70-75 | one datetime is earlier than another exactly when its millisecond instant is smaller, so sorting instants sorts the datetimes |
| `Calendar.MillisIncreasing` | analysis/notebooks/dispersion_index/dispersion_index.py:70-75 | a later datetime has a strictly larger instant |
| `Calendar.DayNumberIncreasing` | analysis/notebooks/dispersion_index/dispersion_index.py:70 | a later date has a strictly larger day number |
| `Calendar.YearLength` | analysis/notebooks/dispersion_index/dispersion_index.py:70 | the closed-form days-before-year count grows by the year's length, leap day included |
| `Calendar.DaysBeforeYearIncreasing` | analysis/notebooks/dispersion_index/dispersion_index.py:70 | a whole year of days separates January 1st of a year from that of any later year |
| `Calendar.MonthsBeforeEnd` | analysis/notebooks/dispersion_index/dispersion_index.py:70 | the days before a month plus that month's days never exceed the year |
| `Calendar.MonthsIncreasing` | analysis/notebooks/dispersion_index/dispersion_index.py:70 | the days before month m1 plus m1's days are at most the days before any later month |
| `Calendar.MillisTruncates` | analysis/notebooks/dispersion_index/dispersion_index.py:70 | microseconds below the millisecond do not change the instant |
| `Timestamps.Search` | analysis/notebooks/dispersion_index/dispersion_index.py:65-69 | `re.search`: the result is a position where the pattern matches with no match before it, or None when no position matches |
| `Timestamps.TokenDateTime` | analysis/notebooks/dispersion_index/dispersion_index.py:53-56 | the fields read from a matched token lie in the ranges the pattern allows (month 1-12, day 1-31, hour 0-23, minute and second 0-59) and hold whole milliseconds |
| `Timestamps.IsToken` | analysis/notebooks/dispersion_index/dispersion_index.py:53-56 | a token matching the pattern is 23 characters long and holds no line break, since the unescaped `.` matches anything but a newline |
| `Timestamps.ParsedTokenIsFormatted` | analysis/notebooks/dispersion_index/dispersion_index.py:53-70 | a token `strptime` accepts (with a four-digit year from 1000) is exactly the token `strftime` writes for the datetime read from it, so reading loses nothing |
| `Timestamps.TokenAcceptedIff` | analysis/notebooks/dispersion_index/dispersion_index.py:70 | `strptime` accepts a matched token exactly when it is the written form of some valid datetime |
| `Timestamps.LineInstant` | analysis/notebooks/dispersion_index/dispersion_index.py:65-70 | a line yields `NoTimestamp` exactly when the pattern matches nowhere in it |
| `Timestamps.LineInstantIsFirstToken` | analysis/notebooks/dispersion_index/dispersion_index.py:65-70 | otherwise a line's outcome is `strptime` applied to its leftmost match |
| `Timestamps.ParseLines` | analysis/notebooks/dispersion_index/dispersion_index.py:64-71 | on success, one instant per line in line order; on failure, the first failing line, its reason, and that every earlier line parsed |
| `Timestamps.ReadTimestamps` | analysis/notebooks/dispersion_index/dispersion_index.py:64-71 | the read loop appends each line's instant and aborts at the first failing line, giving exactly `ParseLines` |
| `Timestamps.ParseLinesFailsIff` | analysis/notebooks/dispersion_index/dispersion_index.py:64-71 | the read fails exactly when some line yields no timestamp |
| `Timestamps.FirstFailureAborts` | analysis/notebooks/dispersion_index/dispersion_index.py:64-71 | the error names the first failing line, whatever follows it |
| `Timestamps.ParseOneMore` | analysis/notebooks/dispersion_index/dispersion_index.py:64-71 | reading one more line extends the instants by that line's instant or ends with its error |
| `Timestamps.TextAfterTokenIgnored` | analysis/notebooks/dispersion_index/dispersion_index.py:65-70 | text after the first token, further fraction digits included, never changes a line's instant |
| `Timestamps.SearchUnaffectedByRest` | analysis/notebooks/dispersion_index/dispersion_index.py:65-69 | appending text to a line does not move its leftmost match |
| `Timestamps.StrftimeRoundTrip` | analysis/notebooks/dispersion_index/dispersion_index.py:53-70 | a line written with `%Y-%m-%d %H:%M:%S.%f` reads back as the written datetime's instant, truncated to milliseconds |
| `Timestamps.FormattedTokenMatches` | analysis/notebooks/dispersion_index/dispersion_index.py:53-56 | the first 23 characters `strftime` writes match the pattern, with `.` as separator |
| `Timestamps.Strftime` | analysis/notebooks/dispersion_index/test_dispersion_index.py:39 | the line the test writes starts with a 23-character token that matches the pattern with `.` as separator, followed by three more fraction digits |
| `Timestamps.FormattedTokenFields` | analysis/notebooks/dispersion_index/dispersion_index.py:70 | reading back the formatted token gives the datetime with microseconds cut to milliseconds |
| `Sorting.SortInPlace` | analysis/notebooks/dispersion_index/dispersion_index.py:75 | after the sort the array is ascending and a permutation of its old contents |
| `Sorting.InsertLast` | analysis/notebooks/dispersion_index/dispersion_index.py:75 | sinking one element into a sorted prefix extends the sorted prefix by one, permutes the array, and leaves every element after it in place |
| `Sorting.SortedPermutationUnique` | analysis/notebooks/dispersion_index/dispersion_index.py:75 | two ascending sequences with the same elements are equal, so the sorted list does not depend on the sort used |
| `Statistics.Mean` | analysis/notebooks/dispersion_index/dispersion_index.py:107 | `mean` of counts that are never negative is never negative, and the mean of a constant sample is that constant |
| `Statistics.ConstantMean` | analysis/notebooks/dispersion_index/dispersion_index.py:107 | the sum of a constant sample divided by its length is the constant |
| `Statistics.Variance` | analysis/notebooks/dispersion_index/dispersion_index.py:107 | the sample variance of at least two counts is never negative |
| `Statistics.DispersionIndex` | analysis/notebooks/dispersion_index/dispersion_index.py:107 | `variance / mean` of counts that are never negative is never negative |
| `Statistics.VarianceZeroIffConstant` | analysis/notebooks/dispersion_index/dispersion_index.py:107 | the variance is 0 exactly when all counts are equal |
| `Statistics.IndexZeroIffConstant` | analysis/notebooks/dispersion_index/dispersion_index.py:107 | the index of dispersion is 0 exactly when all counts are equal |
| `Statistics.ScaledSquaresZeroIffConstant` | analysis/notebooks/dispersion_index/dispersion_index.py:107 | the sum of squared deviations vanishes exactly for a constant sample |
| `Statistics.ScaledSquaresZeroIff` | analysis/notebooks/dispersion_index/dispersion_index.py:107 | the sum of squared deviations vanishes exactly when every count equals the mean |
| `Statistics.ScaledSquaresNonNegative` | analysis/notebooks/dispersion_index/dispersion_index.py:107 | the sum of squared deviations is never negative |
| `Statistics.SumOfConstant` | analysis/notebooks/dispersion_index/dispersion_index.py:107 | n copies of c sum to n * c |
| `Statistics.SumAtLeastElement` | analysis/notebooks/dispersion_index/dispersion_index.py:107 | counts that are never negative sum to at least any one of them |
| `Windows.BisectLeft` | analysis/notebooks/dispersion_index/dispersion_index.py:94 | `bisect_left`: every element before the index is below x, every element from it on is at least x |
| `Windows.BisectRight` | analysis/notebooks/dispersion_index/dispersion_index.py:95 | `bisect_right` from `lo`: the elements from `lo` up to the index are at most x, every element after is above x |
| `Windows.CountBetween` | analysis/notebooks/dispersion_index/dispersion_index.py:94-96 | `bisect_right - bisect_left` is the number of instants t with start <= t <= end |
| `Windows.SampleWindows` | analysis/notebooks/dispersion_index/dispersion_index.py:84-98 | the sample is the closed-form window counts: `(last - first) div w` entries, entry k counting the instants in `[first + k*w, first + (k+1)*w]` |
| `Windows.LastWindowOverruns` | analysis/notebooks/dispersion_index/dispersion_index.py:89-92 | the first window that ends after the last instant has index `(last - first) div w`, so it is the one dropped |
| `Windows.WithinSpan` | analysis/notebooks/dispersion_index/dispersion_index.py:89-92 | a window that starts no later than the last instant has index at most `(last - first) div w` |
| `Windows.SpanHoldsWindow` | analysis/notebooks/dispersion_index/dispersion_index.py:89-92 | a sample with any window has windows no wider than the span |
| `Windows.FewerWindowsWhenWider` | analysis/notebooks/dispersion_index/dispersion_index.py:84-98 | a wider window never yields more windows |
| `Windows.FirstWindowOccupied` | analysis/notebooks/dispersion_index/dispersion_index.py:87-107 | the first window holds the first instant, so the sample's sum and mean are positive and the division at line 107 is defined |
| `Windows.ManyWindowsIff` | analysis/notebooks/dispersion_index/dispersion_index.py:88-100 | the sample has at least c windows exactly when the span holds c windows' widths |
| `Windows.CountSplit` | analysis/notebooks/dispersion_index/dispersion_index.py:94-97 | counting `[a, c]` plus the point b equals counting `[a, b]` plus `[b, c]` |
| `Windows.SumDoubleCountsBoundaries` | analysis/notebooks/dispersion_index/dispersion_index.py:94-97 | the first k counts add up to the instants they span plus those lying on shared window boundaries, which are counted twice |
| `Driver.Converged` | analysis/notebooks/dispersion_index/dispersion_index.py:117 | two equal indexes converge for any tolerance that is not negative, and no pair converges under a negative tolerance |
| `Driver.ConvergenceError` | analysis/notebooks/dispersion_index/dispersion_index.py:110-115 | the error is never negative, and after a zero index it is zero exactly when the current index is zero |
| `Driver.Run` | analysis/notebooks/dispersion_index/dispersion_index.py:83-122 | whatever the outer loop returns is the index of some round before the bound |
| `Driver.FirstRoundContinues` | analysis/notebooks/dispersion_index/dispersion_index.py:109-122 | the first round never returns an index |
| `Driver.RunReaches` | analysis/notebooks/dispersion_index/dispersion_index.py:83-122 | rounds that do not end the run bring it to round k carrying round k-1's index |
| `Driver.RunOutcome` | analysis/notebooks/dispersion_index/dispersion_index.py:100-122 | the result is what the first ending round yields; when that is an index, it comes from round 2 or later and agrees with the previous round's index |
| `Driver.EndsFrom` | analysis/notebooks/dispersion_index/dispersion_index.py:83-104 | once rounds stop having samples, some round ends the run |
| `Driver.EndsAtUnique` | analysis/notebooks/dispersion_index/dispersion_index.py:83-122 | only one round is the first to end the run |
| `Driver.RunNoneExactly` | analysis/notebooks/dispersion_index/dispersion_index.py:100-122 | the run gives None exactly when it first ends at a round without a sample, and otherwise gives the index of a later round that agrees with its predecessor |
| `Dispersion.Width` | analysis/notebooks/dispersion_index/dispersion_index.py:77 | the window is never narrower than the sampling resolution |
| `Dispersion.WidthIsMultiple` | analysis/notebooks/dispersion_index/dispersion_index.py:77-122 | in round k (from 0) the window is `sampling_res * (k + 1)` wide |
| `Dispersion.WidthGrows` | analysis/notebooks/dispersion_index/dispersion_index.py:122 | the window strictly widens from round to round |
| `Dispersion.Sufficient` | analysis/notebooks/dispersion_index/dispersion_index.py:100 | round k's sample has at least 100 windows exactly when the span is at least `100 * sampling_res * (k + 1)` |
| `Dispersion.RoundIndex` | analysis/notebooks/dispersion_index/dispersion_index.py:107 | a round's index of dispersion is defined and never negative |
| `Dispersion.RoundResult` | analysis/notebooks/dispersion_index/dispersion_index.py:100-107 | a round yields an index exactly when its sample has at least 100 windows, that is when the span is at least `100 * sampling_res * (k + 1)`; the index is then the round's `variance / mean` and never negative |
| `Dispersion.Rounds` | analysis/notebooks/dispersion_index/dispersion_index.py:83-107 | the rounds' outcomes over a timeline; every round from `span div sampling_res` on has too small a sample |
| `Dispersion.Drive` | analysis/notebooks/dispersion_index/dispersion_index.py:77-122 | the index the outer loop returns is never negative |
| `Dispersion.SampleIndex` | analysis/notebooks/dispersion_index/dispersion_index.py:84-107 | one round of the outer loop gives that round's outcome |
| `Dispersion.Round` | analysis/notebooks/dispersion_index/dispersion_index.py:84-121 | one outer round either stops with the loop's result, or goes on carrying this round's index with a window that fits in the span |
| `Dispersion.Converge` | analysis/notebooks/dispersion_index/dispersion_index.py:77-122 | the outer loop terminates and returns exactly the machine's result over the timeline |
| `Dispersion.GetDispersionIndex` | analysis/notebooks/dispersion_index/dispersion_index.py:9-122 | the first malformed line aborts the run; an empty log is an error; otherwise the result is the outer loop's result over the sorted timestamps |
| `Dispersion.SufficientFitsSpan` | analysis/notebooks/dispersion_index/dispersion_index.py:89-100 | a round with enough windows has a window no wider than the span |
| `Dispersion.LateRoundsInsufficient` | analysis/notebooks/dispersion_index/dispersion_index.py:83-104 | every round from `span div sampling_res` on has too small a sample, so the loop terminates |
| `Dispersion.InsufficientStaysInsufficient` | analysis/notebooks/dispersion_index/dispersion_index.py:100-122 | once a round's sample is too small, so is every later round's |
| `Dispersion.DriveOutcome` | analysis/notebooks/dispersion_index/dispersion_index.py:100-122 | the result over a timeline is what the first ending round yields |
| `Dispersion.DriveNoneIff` | analysis/notebooks/dispersion_index/dispersion_index.py:100-104 | the run gives no result exactly when the first round that ends it has fewer than 100 windows, and that round comes no later than `span div sampling_res` |
| `Scenarios.EvenlyTimeline` | analysis/notebooks/dispersion_index/test_dispersion_index.py:36-41 | evenly spaced requests form an ascending timeline |
| `Scenarios.EvenWindowNumber` | analysis/notebooks/dispersion_index/test_dispersion_index.py:36-50 | with windows m spacings wide there are `(n - 1) div m` windows |
| `Scenarios.EvenWindowCount` | analysis/notebooks/dispersion_index/test_dispersion_index.py:36-50 | each such window holds m + 1 requests, both of its ends included |
| `Scenarios.EvenSampleConstant` | analysis/notebooks/dispersion_index/test_dispersion_index.py:36-50 | evenly spaced requests give a constant sample |
| `Scenarios.ConstantRoundIndexZero` | analysis/notebooks/dispersion_index/dispersion_index.py:107-119 | a round with a constant sample has index exactly 0 |
| `Scenarios.UniformArrivalsIndexZero` | analysis/notebooks/dispersion_index/dispersion_index.py:107-119 | evenly spaced requests spanning at least 200 resolutions give exactly 0: rounds one and two both have index 0, and round two is the first to end the run, through the absolute-difference branch since the previous index is 0 |
| `Scenarios.UniformArrivalTest` | analysis/notebooks/dispersion_index/test_dispersion_index.py:33-50 | 15000 requests 100 ms apart with resolutions 100 to 900 ms and tolerance 0.20 give index 0 |
| `Scenarios.TwoRequestsSuffice` | analysis/notebooks/dispersion_index/dispersion_index.py:100 | the sample-size test counts windows: two requests 100 resolutions apart pass it |

## Left out

- File handling is not modelled: opening and closing the log, the choice between `log_file_path` and `log_file_obj`, and the UTF-8 decoding of binary lines (lines 60-64, 68, 72). The model takes the log as a sequence of strings.
- The progress `print`s (lines 80, 101-103, 112, 118) are left out; they only produce output.
- The `fire` command-line entry point (lines 125-128) is left out; it is a thin wrapper around a library that is not part of this model.
- Floating point is not modelled. `mean`, `variance`, the division and the error comparison use exact rationals, so rounding, and the float `convergence_tol`, are not captured.
- Dispersion.Converge: requires `sampling_res > 0`. With a zero resolution `end_ts` stays at the first timestamp, so the inner loop (lines 88-98) never ends. With a negative one `end_ts` walks backwards, appending to `sample`, until `start_ts + timedelta(...)` raises `OverflowError` below year 1 or memory runs out. The model covers neither case.
- Dispersion.GetDispersionIndex: requires `sampling_res > 0`, for the same reasons.
- Instants are unbounded integers. The `OverflowError` that `start_ts + timedelta(...)` raises past year 9999 is not modelled.
- The `%f` directive accepts one to six fraction digits. The pattern always hands `strptime` exactly three, so other digit counts are not modelled.
- Timestamps.StrftimeRoundTrip: covers years from 1000 only, because `%Y` does not pad smaller years to four digits on every platform.
- Timestamps.Strftime: covers years from 1000 only, for the same reason.
- Timestamps.ParsedTokenIsFormatted: covers years from 1000 only, for the same reason.
- Timestamps.TokenAcceptedIff: covers years from 1000 only, for the same reason.
- The exponential-arrival test (test_dispersion_index.py:14-31) is not modelled. It draws random numbers and checks a float within a tolerance.

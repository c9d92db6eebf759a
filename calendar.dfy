/** Calendar arithmetic of Python's `datetime`: proleptic Gregorian dates
    from year 1 to 9999, and the instant of a date and time as a whole
    number of milliseconds since 0001-01-01 00:00:00.000. Comparing these
    instants is comparing the datetimes (MillisOrder); adding milliseconds
    to an instant stands for adding a `timedelta(milliseconds=...)`. */
module Calendar {

  /** A date and time as a `datetime` holds it (no time zone). */
  datatype DateTime = DateTime(year: int, month: int, day: int,
                               hour: int, minute: int, second: int, micro: int)

  const MillisPerDay := 86_400_000

  predicate IsLeap(y: int)
  {
    y % 4 == 0 && (y % 100 != 0 || y % 400 == 0)
  }

  function DaysInYear(y: int): int
  {
    if IsLeap(y) then 366 else 365
  }

  function DaysInMonth(y: int, m: int): int
    requires 1 <= m <= 12
  {
    if m == 2 then (if IsLeap(y) then 29 else 28)
    else if m == 4 || m == 6 || m == 9 || m == 11 then 30
    else 31
  }

  /** Days from 0001-01-01 to January 1st of year y, as CPython's
      `_days_before_year`. */
  function DaysBeforeYear(y: int): int
    requires y >= 1
  {
    var p := y - 1;
    p * 365 + p / 4 - p / 100 + p / 400
  }

  /** Days from January 1st of year y to the first day of month m
      (m == 13 stands for the next January 1st). */
  function DaysBeforeMonth(y: int, m: int): (days: int)
    requires 1 <= m <= 13
    ensures 0 <= days
  {
    if m == 1 then 0 else DaysBeforeMonth(y, m - 1) + DaysInMonth(y, m - 1)
  }

  /** A date `datetime` accepts. */
  predicate ValidDate(y: int, m: int, d: int)
  {
    1 <= y <= 9999 && 1 <= m <= 12 && 1 <= d <= DaysInMonth(y, m)
  }

  predicate Valid(dt: DateTime)
  {
    ValidDate(dt.year, dt.month, dt.day) &&
    0 <= dt.hour < 24 && 0 <= dt.minute < 60 && 0 <= dt.second < 60 &&
    0 <= dt.micro < 1_000_000
  }

  /** Days since 0001-01-01 (CPython's `toordinal() - 1`). */
  function DayNumber(y: int, m: int, d: int): int
    requires ValidDate(y, m, d)
  {
    DaysBeforeYear(y) + DaysBeforeMonth(y, m) + d - 1
  }

  /** Milliseconds since midnight; microseconds below a millisecond are
      dropped. */
  function TimeOfDay(dt: DateTime): int
  {
    ((dt.hour * 60 + dt.minute) * 60 + dt.second) * 1000 + dt.micro / 1000
  }

  /** The instant of a date and time, in milliseconds: never negative, and
      it splits back into the day number and the time of day. */
  function Millis(dt: DateTime): (ms: int)
    requires Valid(dt)
    ensures ms >= 0
    ensures ms / MillisPerDay == DayNumber(dt.year, dt.month, dt.day)
    ensures ms % MillisPerDay == TimeOfDay(dt)
  {
    DayNumberNonNegative(dt.year, dt.month, dt.day);
    DivModDay(DayNumber(dt.year, dt.month, dt.day) * MillisPerDay + TimeOfDay(dt),
              DayNumber(dt.year, dt.month, dt.day), TimeOfDay(dt));
    DayNumber(dt.year, dt.month, dt.day) * MillisPerDay + TimeOfDay(dt)
  }

  lemma DayNumberNonNegative(y: int, m: int, d: int)
    requires ValidDate(y, m, d)
    ensures DayNumber(y, m, d) >= 0
  {
    var p := y - 1;
    assert p / 4 >= p / 100;
  }

  /** Quotient and remainder by the length of a day are the only pair that
      rebuilds the dividend. */
  lemma DivModDay(a: int, q: int, r: int)
    requires a == q * MillisPerDay + r && 0 <= r < MillisPerDay
    ensures a / MillisPerDay == q && a % MillisPerDay == r
  {
  }

  /** Microseconds below the millisecond do not change the instant. */
  lemma MillisTruncates(dt: DateTime)
    requires Valid(dt)
    ensures Valid(dt.(micro := dt.micro / 1000 * 1000))
    ensures Millis(dt.(micro := dt.micro / 1000 * 1000)) == Millis(dt)
  {
    var q := dt.micro / 1000;
    assert q * 1000 / 1000 == q;
  }

  /** A whole number of milliseconds, as every datetime parsed from a
      three-digit fraction is. */
  predicate WholeMillis(dt: DateTime)
  {
    dt.micro % 1000 == 0
  }

  /** The order of `datetime` comparison: field by field, most significant
      first. */
  predicate Before(a: DateTime, b: DateTime)
  {
    if a.year != b.year then a.year < b.year
    else if a.month != b.month then a.month < b.month
    else if a.day != b.day then a.day < b.day
    else if a.hour != b.hour then a.hour < b.hour
    else if a.minute != b.minute then a.minute < b.minute
    else if a.second != b.second then a.second < b.second
    else a.micro < b.micro
  }

  /** Comparing instants is comparing the datetimes they come from, so
      sorting instants sorts the datetimes. */
  lemma MillisOrder(a: DateTime, b: DateTime)
    requires Valid(a) && Valid(b) && WholeMillis(a) && WholeMillis(b)
    ensures Before(a, b) <==> Millis(a) < Millis(b)
  {
    if Before(a, b) {
      MillisIncreasing(a, b);
    } else if Before(b, a) {
      MillisIncreasing(b, a);
    } else {
      assert a == b;
    }
  }

  lemma MillisIncreasing(a: DateTime, b: DateTime)
    requires Valid(a) && Valid(b) && WholeMillis(a) && WholeMillis(b)
    requires Before(a, b)
    ensures Millis(a) < Millis(b)
  {
    var da := DayNumber(a.year, a.month, a.day);
    var db := DayNumber(b.year, b.month, b.day);
    if (a.year, a.month, a.day) == (b.year, b.month, b.day) {
      assert da == db;
      assert a.micro < b.micro ==> a.micro / 1000 < b.micro / 1000;
    } else {
      DayNumberIncreasing(a.year, a.month, a.day, b.year, b.month, b.day);
      assert TimeOfDay(a) < MillisPerDay;
      assert TimeOfDay(b) >= 0;
    }
  }

  /** Later dates have larger day numbers. */
  lemma DayNumberIncreasing(y1: int, m1: int, d1: int, y2: int, m2: int, d2: int)
    requires ValidDate(y1, m1, d1) && ValidDate(y2, m2, d2)
    requires y1 < y2 || (y1 == y2 && (m1 < m2 || (m1 == m2 && d1 < d2)))
    ensures DayNumber(y1, m1, d1) < DayNumber(y2, m2, d2)
  {
    if y1 < y2 {
      MonthsBeforeEnd(y1, m1);
      DaysBeforeYearIncreasing(y1, y2);
    } else if m1 < m2 {
      MonthsIncreasing(y1, m1, m2);
    }
  }

  /** A whole year of days lies between January 1st of y1 and that of any
      later year. */
  lemma {:induction false} DaysBeforeYearIncreasing(y1: int, y2: int)
    requires 1 <= y1 < y2
    ensures DaysBeforeYear(y1) + DaysInYear(y1) <= DaysBeforeYear(y2)
    decreases y2
  {
    YearLength(y2 - 1);
    if y1 < y2 - 1 {
      DaysBeforeYearIncreasing(y1, y2 - 1);
    }
  }

  /** CPython's closed form counts the days of each year, leap days
      included. */
  lemma YearLength(y: int)
    requires y >= 1
    ensures DaysBeforeYear(y + 1) == DaysBeforeYear(y) + DaysInYear(y)
  {
    NextQuarter(y);
    NextCentury(y);
    NextQuadricentennial(y);
  }

  /** From y - 1 to y, each quotient below grows exactly when y is a
      multiple of its divisor. */
  lemma NextQuarter(y: int)
    requires y >= 1
    ensures y / 4 == (y - 1) / 4 + (if y % 4 == 0 then 1 else 0)
  {
  }

  lemma NextCentury(y: int)
    requires y >= 1
    ensures y / 100 == (y - 1) / 100 + (if y % 100 == 0 then 1 else 0)
  {
  }

  lemma NextQuadricentennial(y: int)
    requires y >= 1
    ensures y / 400 == (y - 1) / 400 + (if y % 400 == 0 then 1 else 0)
  {
  }

  /** The months of a year add up to the length of the year. */
  lemma MonthsBeforeEnd(y: int, m: int)
    requires 1 <= m <= 12
    ensures DaysBeforeMonth(y, m) + DaysInMonth(y, m) <= DaysInYear(y)
  {
    MonthsIncreasing(y, m, 13);
    var feb := DaysInMonth(y, 2);
    assert DaysBeforeMonth(y, 3) == 31 + feb;
    assert DaysBeforeMonth(y, 5) == 31 + feb + 31 + 30;
    assert DaysBeforeMonth(y, 7) == 31 + feb + 31 + 30 + 31 + 30;
    assert DaysBeforeMonth(y, 9) == 31 + feb + 31 + 30 + 31 + 30 + 31 + 31;
    assert DaysBeforeMonth(y, 11) == 31 + feb + 31 + 30 + 31 + 30 + 31 + 31 + 30 + 31;
    assert DaysBeforeMonth(y, 13) == 31 + feb + 31 + 30 + 31 + 30 + 31 + 31 + 30 + 31 + 30 + 31;
  }

  lemma {:induction false} MonthsIncreasing(y: int, m1: int, m2: int)
    requires 1 <= m1 < m2 <= 13
    ensures DaysBeforeMonth(y, m1) + DaysInMonth(y, m1) <= DaysBeforeMonth(y, m2)
    decreases m2
  {
    if m1 < m2 - 1 {
      MonthsIncreasing(y, m1, m2 - 1);
    }
  }
}

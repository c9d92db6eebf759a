/** The timestamp extractor: every log line must hold a token of the shape
    `YYYY-MM-DD HH:MM:SS.mmm`, found with `re.search` and converted with
    `datetime.strptime(token, "%Y-%m-%d %H:%M:%S.%f")`. Instants are
    milliseconds (Calendar.Millis): the pattern takes exactly three fraction
    digits, so no finer part ever reaches the parser. */
module Timestamps {
  import opened Results
  import opened Calendar

  /** Length of a token: `YYYY-MM-DD HH:MM:SS.mmm`. */
  const TokenLength := 23

  predicate IsDigit(c: char)
  {
    '0' <= c <= '9'
  }

  function DigitValue(c: char): int
    requires IsDigit(c)
  {
    c as int - '0' as int
  }

  /** `(0[1-9]|1[0-2])` */
  predicate MonthChars(a: char, b: char)
  {
    (a == '0' && '1' <= b <= '9') || (a == '1' && '0' <= b <= '2')
  }

  /** `(0[1-9]|[1-2][0-9]|3[0-1])` */
  predicate DayChars(a: char, b: char)
  {
    (a == '0' && '1' <= b <= '9') || ('1' <= a <= '2' && IsDigit(b)) || (a == '3' && '0' <= b <= '1')
  }

  /** `(2[0-3]|[01][0-9])` */
  predicate HourChars(a: char, b: char)
  {
    (a == '2' && '0' <= b <= '3') || ('0' <= a <= '1' && IsDigit(b))
  }

  /** `[0-5][0-9]`, minutes and seconds. */
  predicate SexagesimalChars(a: char, b: char)
  {
    '0' <= a <= '5' && IsDigit(b)
  }

  /** The timestamp pattern, position by position:
      `[0-9]{4}-(0[1-9]|1[0-2])-(0[1-9]|[1-2][0-9]|3[0-1]) `
      `(2[0-3]|[01][0-9]):[0-5][0-9]:[0-5][0-9].[0-9]{3}`.
      The `.` before the fraction is not escaped, so it stands for any
      character but a newline, so a token never spans a line break. */
  predicate IsToken(t: string)
    ensures IsToken(t) ==> |t| == TokenLength && forall i :: 0 <= i < |t| ==> t[i] != '\n'
  {
    |t| == TokenLength &&
    IsDigit(t[0]) && IsDigit(t[1]) && IsDigit(t[2]) && IsDigit(t[3]) &&
    t[4] == '-' && MonthChars(t[5], t[6]) &&
    t[7] == '-' && DayChars(t[8], t[9]) &&
    t[10] == ' ' && HourChars(t[11], t[12]) &&
    t[13] == ':' && SexagesimalChars(t[14], t[15]) &&
    t[16] == ':' && SexagesimalChars(t[17], t[18]) &&
    t[19] != '\n' &&
    IsDigit(t[20]) && IsDigit(t[21]) && IsDigit(t[22])
  }

  /** The pattern matches `line` at position i. */
  predicate TokenAt(line: string, i: int)
  {
    0 <= i && i + TokenLength <= |line| && IsToken(line[i..i + TokenLength])
  }

  /** `re.search`: the leftmost position at or after `from` where the
      pattern matches, or None when there is none. */
  function Search(line: string, from: nat): (r: Option<nat>)
    requires from <= |line|
    ensures r.Some? ==> from <= r.value && TokenAt(line, r.value)
    ensures r.Some? ==> forall j :: from <= j < r.value ==> !TokenAt(line, j)
    ensures r.None? ==> forall j :: from <= j ==> !TokenAt(line, j)
    decreases |line| - from
  {
    if from + TokenLength > |line| then None
    else if TokenAt(line, from) then Some(from)
    else Search(line, from + 1)
  }

  function TwoDigits(t: string, i: nat): int
    requires i + 1 < |t| && IsDigit(t[i]) && IsDigit(t[i + 1])
  {
    10 * DigitValue(t[i]) + DigitValue(t[i + 1])
  }

  /** The fields `strptime` reads from a matched token; the three fraction
      digits are milliseconds, i.e. a multiple of 1000 microseconds. Each
      field lies in the range the pattern allows. */
  function TokenDateTime(t: string): (dt: DateTime)
    requires IsToken(t)
    ensures 0 <= dt.year <= 9999 && 1 <= dt.month <= 12 && 1 <= dt.day <= 31
    ensures 0 <= dt.hour <= 23 && 0 <= dt.minute <= 59 && 0 <= dt.second <= 59
    ensures 0 <= dt.micro <= 999_000 && WholeMillis(dt)
  {
    DateTime(100 * TwoDigits(t, 0) + TwoDigits(t, 2), TwoDigits(t, 5), TwoDigits(t, 8),
             TwoDigits(t, 11), TwoDigits(t, 14), TwoDigits(t, 17),
             1000 * (100 * DigitValue(t[20]) + TwoDigits(t, 21)))
  }

  /** Why a log line yields no timestamp: no token in it (`re.search`
      returns None and `.group()` fails), or a token `strptime` refuses. */
  datatype TokenError = NoTimestamp | NotADateTime

  /** `strptime` on a matched token. It demands a literal `.` before the
      fraction, a year from 1 and a day that exists in its month; then the
      instant is that of the fields read. */
  function ParseToken(t: string): (r: Result<int, TokenError>)
    requires IsToken(t)
  {
    var dt := TokenDateTime(t);
    if t[19] == '.' && Valid(dt) then Ok(Millis(dt)) else Err(NotADateTime)
  }

  /** The pattern matches nowhere in `line`. */
  ghost predicate NoToken(line: string)
  {
    forall i :: !TokenAt(line, i)
  }

  /** The instant of one log line: the first token in it, parsed. A line
      yields NoTimestamp exactly when the pattern matches nowhere in it. */
  function LineInstant(line: string): (r: Result<int, TokenError>)
    ensures r == Err(NoTimestamp) <==> NoToken(line)
  {
    match Search(line, 0)
    case None => Err(NoTimestamp)
    case Some(i) => ParseToken(line[i..i + TokenLength])
  }

  /** Otherwise the instant is that of the leftmost token, parsed. */
  lemma LineInstantIsFirstToken(line: string)
    requires LineInstant(line) != Err(NoTimestamp)
    ensures exists i :: TokenAt(line, i) && (forall j :: 0 <= j < i ==> !TokenAt(line, j)) &&
                        ParseToken(line[i..i + TokenLength]) == LineInstant(line)
  {
    var i := Search(line, 0).value;
    assert TokenAt(line, i);
  }

  /** The first line that yields no timestamp, and why. */
  datatype LineError = LineError(line: nat, reason: TokenError)

  /** The instants of all lines in order, or the first line that fails:
      one failing line aborts the whole read. */
  function ParseLines(lines: seq<string>): (r: Result<seq<int>, LineError>)
    ensures r.Ok? ==> |r.value| == |lines|
    ensures r.Ok? ==> forall i :: 0 <= i < |lines| ==> LineInstant(lines[i]) == Ok(r.value[i])
    ensures r.Err? ==> r.error.line < |lines|
    ensures r.Err? ==> LineInstant(lines[r.error.line]) == Err(r.error.reason)
    ensures r.Err? ==> forall i :: 0 <= i < r.error.line ==> LineInstant(lines[i]).Ok?
  {
    if lines == [] then Ok([])
    else
      var init := lines[..|lines| - 1];
      assert forall i :: 0 <= i < |init| ==> init[i] == lines[i];
      match ParseLines(init)
      case Err(e) => Err(e)
      case Ok(ts) =>
        match LineInstant(lines[|lines| - 1])
        case Err(why) => Err(LineError(|lines| - 1, why))
        case Ok(t) =>
          InstantsExtend(lines, ts, t);
          Ok(ts + [t])
  }

  /** The instants of all lines but the last, followed by that of the last. */
  lemma InstantsExtend(lines: seq<string>, ts: seq<int>, t: int)
    requires |lines| > 0 && |ts| == |lines| - 1 && LineInstant(lines[|ts|]) == Ok(t)
    requires forall i :: 0 <= i < |ts| ==> LineInstant(lines[i]) == Ok(ts[i])
    ensures forall i :: 0 <= i < |lines| ==> LineInstant(lines[i]) == Ok((ts + [t])[i])
  {
  }

  /** The read loop: each line in turn is matched and parsed and its
      instant appended to the list; the first line that fails aborts. */
  method ReadTimestamps(lines: seq<string>) returns (r: Result<seq<int>, LineError>)
    ensures r == ParseLines(lines)
  {
    var timestamps: seq<int> := [];
    for i := 0 to |lines|
      invariant ParseLines(lines[..i]) == Ok(timestamps)
    {
      ParseOneMore(lines, i);
      match LineInstant(lines[i])
      case Err(why) =>
        forall j | 0 <= j < i ensures LineInstant(lines[j]).Ok? {
          assert lines[..i][j] == lines[j];
        }
        FirstFailureAborts(lines, i);
        return Err(LineError(i, why));
      case Ok(t) =>
        timestamps := timestamps + [t];
    }
    assert lines[..|lines|] == lines;
    r := Ok(timestamps);
  }

  /** The read fails exactly when some line yields no timestamp. */
  lemma ParseLinesFailsIff(lines: seq<string>)
    ensures ParseLines(lines).Err? <==> exists i :: 0 <= i < |lines| && LineInstant(lines[i]).Err?
  {
    var r := ParseLines(lines);
    if r.Err? {
      assert LineInstant(lines[r.error.line]).Err?;
    }
  }

  /** The read reports the first line that yields no timestamp, whatever
      the lines after it hold. */
  lemma {:induction false} FirstFailureAborts(lines: seq<string>, i: nat)
    requires i < |lines| && LineInstant(lines[i]).Err?
    requires forall j :: 0 <= j < i ==> LineInstant(lines[j]).Ok?
    ensures ParseLines(lines) == Err(LineError(i, LineInstant(lines[i]).error))
  {
    var init := lines[..|lines| - 1];
    if i < |lines| - 1 {
      assert init[i] == lines[i];
      forall j | 0 <= j < i ensures LineInstant(init[j]).Ok? {
        assert init[j] == lines[j];
      }
      FirstFailureAborts(init, i);
    } else {
      assert ParseLines(init).Ok?;
    }
  }

  /** Reading one more line: the result so far, extended by that line's
      instant or ended by its error. */
  lemma ParseOneMore(lines: seq<string>, i: nat)
    requires i < |lines|
    ensures ParseLines(lines[..i + 1]) ==
              match ParseLines(lines[..i])
              case Err(e) => Err(e)
              case Ok(ts) =>
                match LineInstant(lines[i])
                case Err(why) => Err(LineError(i, why))
                case Ok(t) => Ok(ts + [t])
  {
    assert lines[..i + 1][..i] == lines[..i];
  }

  /** Whatever follows the first token is never read: appending text to a
      line that holds a token (extra fraction digits, say) leaves its instant
      unchanged. This is how `%f` with six digits truncates to milliseconds. */
  lemma TextAfterTokenIgnored(line: string, rest: string)
    requires Search(line, 0).Some?
    ensures LineInstant(line + rest) == LineInstant(line)
  {
    var i := Search(line, 0).value;
    SearchUnaffectedByRest(line, rest, 0);
    assert (line + rest)[i..i + TokenLength] == line[i..i + TokenLength];
  }

  lemma {:induction false} SearchUnaffectedByRest(line: string, rest: string, from: nat)
    requires from <= |line|
    requires Search(line, from).Some?
    ensures Search(line + rest, from) == Search(line, from)
    decreases |line| - from
  {
    assert (line + rest)[from..from + TokenLength] == line[from..from + TokenLength];
    if !TokenAt(line, from) {
      SearchUnaffectedByRest(line, rest, from + 1);
    }
  }

  function DigitChar(n: int): (c: char)
    requires 0 <= n <= 9
    ensures IsDigit(c) && DigitValue(c) == n
  {
    ('0' as int + n) as char
  }

  /** The first 23 characters `strftime` writes: the date, the time and
      the first three fraction digits. */
  function FormatToken(dt: DateTime): (t: string)
    requires Valid(dt) && dt.year >= 1000
    ensures |t| == TokenLength
  {
    var y, us := dt.year, dt.micro;
    [DigitChar(y / 1000), DigitChar(y / 100 % 10), DigitChar(y / 10 % 10), DigitChar(y % 10),
     '-', DigitChar(dt.month / 10), DigitChar(dt.month % 10),
     '-', DigitChar(dt.day / 10), DigitChar(dt.day % 10),
     ' ', DigitChar(dt.hour / 10), DigitChar(dt.hour % 10),
     ':', DigitChar(dt.minute / 10), DigitChar(dt.minute % 10),
     ':', DigitChar(dt.second / 10), DigitChar(dt.second % 10),
     '.', DigitChar(us / 100_000), DigitChar(us / 10_000 % 10), DigitChar(us / 1000 % 10)]
  }

  /** `dt.strftime("%Y-%m-%d %H:%M:%S.%f")`, the line the load generator
      writes: six fraction digits. Years below 1000 are left out because
      `%Y` does not pad them to four digits on every platform. */
  function Strftime(dt: DateTime): (s: string)
    requires Valid(dt) && dt.year >= 1000
    ensures |s| == TokenLength + 3 && IsToken(s[..TokenLength]) && s[19] == '.'
    ensures forall i :: TokenLength <= i < |s| ==> IsDigit(s[i])
  {
    FormattedTokenMatches(dt);
    assert (FormatToken(dt) + [DigitChar(dt.micro / 100 % 10), DigitChar(dt.micro / 10 % 10), DigitChar(dt.micro % 10)])[..TokenLength] == FormatToken(dt);
    var us := dt.micro;
    FormatToken(dt) + [DigitChar(us / 100 % 10), DigitChar(us / 10 % 10), DigitChar(us % 10)]
  }

  /** A line written with `strftime` reads back as the instant of the
      datetime written, its microseconds truncated to milliseconds; any
      text after it on the line is ignored. */
  lemma StrftimeRoundTrip(dt: DateTime, rest: string)
    requires Valid(dt) && dt.year >= 1000
    ensures LineInstant(Strftime(dt) + rest) == Ok(Millis(dt))
  {
    var t := FormatToken(dt);
    var us := dt.micro;
    var tail := [DigitChar(us / 100 % 10), DigitChar(us / 10 % 10), DigitChar(us % 10)] + rest;
    assert Strftime(dt) + rest == t + tail;
    FormattedTokenMatches(dt);
    assert t[0..TokenLength] == t;
    assert Search(t, 0) == Some(0);
    FormattedTokenFields(dt);
    MillisTruncates(dt);
    assert ParseToken(t) == Ok(Millis(dt));
    TextAfterTokenIgnored(t, tail);
  }

  /** The converse of FormattedTokenFields: a token `strptime` accepts, with
      a four-digit year, is exactly what `strftime` writes for the datetime
      read from it. */
  lemma ParsedTokenIsFormatted(t: string)
    requires IsToken(t) && ParseToken(t).Ok? && TokenDateTime(t).year >= 1000
    ensures Valid(TokenDateTime(t)) && FormatToken(TokenDateTime(t)) == t
  {
    var f := FormatToken(TokenDateTime(t));
    DateWrittenBack(t);
    TimeWrittenBack(t);
    assert f == f[..10] + f[10..];
    assert t == t[..10] + t[10..];
  }

  lemma DateWrittenBack(t: string)
    requires IsToken(t) && Valid(TokenDateTime(t)) && TokenDateTime(t).year >= 1000
    ensures FormatToken(TokenDateTime(t))[..10] == t[..10]
  {
    DateChars(TokenDateTime(t));
    FourDigitsBack(t, 0);
    TwoDigitsBack(t, 5);
    TwoDigitsBack(t, 8);
  }

  lemma TimeWrittenBack(t: string)
    requires IsToken(t) && t[19] == '.' && Valid(TokenDateTime(t)) && TokenDateTime(t).year >= 1000
    ensures FormatToken(TokenDateTime(t))[10..] == t[10..]
  {
    TimeChars(TokenDateTime(t));
    TwoDigitsBack(t, 11);
    TwoDigitsBack(t, 14);
    TwoDigitsBack(t, 17);
    FractionBack(t);
    assert t[10..] == [t[10], t[11], t[12], t[13], t[14], t[15], t[16], t[17], t[18], t[19], t[20], t[21], t[22]];
  }

  /** The date part of a written token, character by character. */
  lemma DateChars(dt: DateTime)
    requires Valid(dt) && dt.year >= 1000
    ensures FormatToken(dt)[..10] ==
              [DigitChar(dt.year / 1000), DigitChar(dt.year / 100 % 10), DigitChar(dt.year / 10 % 10),
               DigitChar(dt.year % 10), '-', DigitChar(dt.month / 10), DigitChar(dt.month % 10),
               '-', DigitChar(dt.day / 10), DigitChar(dt.day % 10)]
  {
  }

  /** The time part of a written token, character by character. */
  lemma TimeChars(dt: DateTime)
    requires Valid(dt) && dt.year >= 1000
    ensures FormatToken(dt)[10..] ==
              [' ', DigitChar(dt.hour / 10), DigitChar(dt.hour % 10),
               ':', DigitChar(dt.minute / 10), DigitChar(dt.minute % 10),
               ':', DigitChar(dt.second / 10), DigitChar(dt.second % 10),
               '.', DigitChar(dt.micro / 100_000), DigitChar(dt.micro / 10_000 % 10),
               DigitChar(dt.micro / 1000 % 10)]
  {
  }

  /** `strptime` accepts a token with a four-digit year exactly when it is
      the token `strftime` writes for some valid datetime. */
  lemma TokenAcceptedIff(t: string)
    requires IsToken(t) && TokenDateTime(t).year >= 1000
    ensures ParseToken(t).Ok? <==> exists dt :: Valid(dt) && dt.year >= 1000 && FormatToken(dt) == t
  {
    if ParseToken(t).Ok? {
      ParsedTokenIsFormatted(t);
    }
    if exists dt :: Valid(dt) && dt.year >= 1000 && FormatToken(dt) == t {
      var dt :| Valid(dt) && dt.year >= 1000 && FormatToken(dt) == t;
      FormattedTokenFields(dt);
      MillisTruncates(dt);
    }
  }

  lemma DigitRoundTrip(c: char)
    requires IsDigit(c)
    ensures DigitChar(DigitValue(c)) == c
  {
  }

  /** The two digits written back for a two-digit field are the ones read. */
  lemma TwoDigitsBack(t: string, i: nat)
    requires i + 1 < |t| && IsDigit(t[i]) && IsDigit(t[i + 1])
    ensures DigitChar(TwoDigits(t, i) / 10) == t[i] && DigitChar(TwoDigits(t, i) % 10) == t[i + 1]
  {
    DivModTen(TwoDigits(t, i), DigitValue(t[i]), DigitValue(t[i + 1]));
    DigitRoundTrip(t[i]);
    DigitRoundTrip(t[i + 1]);
  }

  /** The four digits written back for the year are the ones read. */
  lemma FourDigitsBack(t: string, i: nat)
    requires i + 3 < |t| && IsDigit(t[i]) && IsDigit(t[i + 1]) && IsDigit(t[i + 2]) && IsDigit(t[i + 3])
    ensures var y := 100 * TwoDigits(t, i) + TwoDigits(t, i + 2);
            DigitChar(y / 1000) == t[i] && DigitChar(y / 100 % 10) == t[i + 1] &&
            DigitChar(y / 10 % 10) == t[i + 2] && DigitChar(y % 10) == t[i + 3]
  {
    var a, b, c, d := DigitValue(t[i]), DigitValue(t[i + 1]), DigitValue(t[i + 2]), DigitValue(t[i + 3]);
    var y := 100 * TwoDigits(t, i) + TwoDigits(t, i + 2);
    assert y == 1000 * a + (100 * b + 10 * c + d);
    DivModThousand(y, a, 100 * b + 10 * c + d);
    DivModHundred(y, 10 * a + b, 10 * c + d);
    DivModTen(10 * a + b, a, b);
    DivModTen(y, 100 * a + 10 * b + c, d);
    DivModTen(100 * a + 10 * b + c, 10 * a + b, c);
    DigitRoundTrip(t[i]);
    DigitRoundTrip(t[i + 1]);
    DigitRoundTrip(t[i + 2]);
    DigitRoundTrip(t[i + 3]);
  }

  /** The three fraction digits written back are the ones read. */
  lemma FractionBack(t: string)
    requires IsToken(t)
    ensures var us := TokenDateTime(t).micro;
            DigitChar(us / 100_000) == t[20] && DigitChar(us / 10_000 % 10) == t[21] &&
            DigitChar(us / 1000 % 10) == t[22]
  {
    var e, f, g := DigitValue(t[20]), DigitValue(t[21]), DigitValue(t[22]);
    var us := TokenDateTime(t).micro;
    assert us == 100_000 * e + (10_000 * f + 1000 * g);
    DivModHundredThousand(us, e, 10_000 * f + 1000 * g);
    DivModTenThousand(us, 10 * e + f, 1000 * g);
    DivModTen(10 * e + f, e, f);
    DivModThousand(us, 100 * e + 10 * f + g, 0);
    DivModTen(100 * e + 10 * f + g, 10 * e + f, g);
    DigitRoundTrip(t[20]);
    DigitRoundTrip(t[21]);
    DigitRoundTrip(t[22]);
  }

  lemma DivModHundred(a: int, q: int, r: int)
    requires a == 100 * q + r && 0 <= r < 100
    ensures a / 100 == q && a % 100 == r
  {
  }

  lemma FormattedTokenMatches(dt: DateTime)
    requires Valid(dt) && dt.year >= 1000
    ensures IsToken(FormatToken(dt))
    ensures FormatToken(dt)[19] == '.'
  {
    var t := FormatToken(dt);
    var y, us := dt.year, dt.micro;
    assert IsDigit(t[0]) && IsDigit(t[1]) && IsDigit(t[2]) && IsDigit(t[3]);
    assert t[4] == '-' && t[7] == '-' && t[10] == ' ' && t[13] == ':' && t[16] == ':' && t[19] == '.';
    assert IsDigit(t[20]) && IsDigit(t[21]) && IsDigit(t[22]);
    assert t[5] == DigitChar(dt.month / 10) && t[6] == DigitChar(dt.month % 10);
    assert t[8] == DigitChar(dt.day / 10) && t[9] == DigitChar(dt.day % 10);
    assert t[11] == DigitChar(dt.hour / 10) && t[12] == DigitChar(dt.hour % 10);
    assert t[14] == DigitChar(dt.minute / 10) && t[15] == DigitChar(dt.minute % 10);
    assert t[17] == DigitChar(dt.second / 10) && t[18] == DigitChar(dt.second % 10);
    PaddedMonth(dt.month);
    PaddedDay(dt.day);
    PaddedHour(dt.hour);
    PaddedSexagesimal(dt.minute);
    PaddedSexagesimal(dt.second);
  }

  lemma PaddedMonth(m: int)
    requires 1 <= m <= 12
    ensures MonthChars(DigitChar(m / 10), DigitChar(m % 10))
  {
  }

  lemma PaddedDay(d: int)
    requires 1 <= d <= 31
    ensures DayChars(DigitChar(d / 10), DigitChar(d % 10))
  {
  }

  lemma PaddedHour(h: int)
    requires 0 <= h <= 23
    ensures HourChars(DigitChar(h / 10), DigitChar(h % 10))
  {
  }

  lemma PaddedSexagesimal(n: int)
    requires 0 <= n <= 59
    ensures SexagesimalChars(DigitChar(n / 10), DigitChar(n % 10))
  {
  }

  lemma FormattedTokenFields(dt: DateTime)
    requires Valid(dt) && dt.year >= 1000
    ensures IsToken(FormatToken(dt))
    ensures TokenDateTime(FormatToken(dt)) == dt.(micro := dt.micro / 1000 * 1000)
  {
    FormattedTokenMatches(dt);
    var t := FormatToken(dt);
    var us := dt.micro;
    FourDigitsOf(t, 0, dt.year);
    TwoDigitsOf(t, 5, dt.month);
    TwoDigitsOf(t, 8, dt.day);
    TwoDigitsOf(t, 11, dt.hour);
    TwoDigitsOf(t, 14, dt.minute);
    TwoDigitsOf(t, 17, dt.second);
    MillisDigits(us);
    ThreeDigitsOf(t, 20, us / 1000);
  }

  lemma FourDigitsOf(t: string, i: nat, n: int)
    requires 0 <= n <= 9999 && i + 3 < |t|
    requires t[i] == DigitChar(n / 1000) && t[i + 1] == DigitChar(n / 100 % 10)
    requires t[i + 2] == DigitChar(n / 10 % 10) && t[i + 3] == DigitChar(n % 10)
    ensures 100 * TwoDigits(t, i) + TwoDigits(t, i + 2) == n
  {
    var hi, lo := n / 100, n % 100;
    HighDigits(n);
    LowDigits(n);
    TwoDigitsOf(t, i, hi);
    TwoDigitsOf(t, i + 2, lo);
  }

  lemma HighDigits(n: int)
    requires 0 <= n <= 9999
    ensures n / 1000 == n / 100 / 10
  {
    var q := n / 100;
    DivModThousand(n, q / 10, 100 * (q % 10) + n % 100);
  }

  lemma LowDigits(n: int)
    requires 0 <= n <= 9999
    ensures n / 10 % 10 == n % 100 / 10 && n % 10 == n % 100 % 10
  {
    var q, r := n / 100, n % 100;
    DivModTen(n, 10 * q + r / 10, r % 10);
    DivModTen(n / 10, q, r / 10);
  }

  /** Quotient and remainder by 10 are the only pair that rebuilds the
      dividend. */
  lemma DivModTen(a: int, q: int, r: int)
    requires a == 10 * q + r && 0 <= r < 10
    ensures a / 10 == q && a % 10 == r
  {
  }

  /** Quotient and remainder by 1000 are the only pair that rebuilds the
      dividend. */
  lemma DivModThousand(a: int, q: int, r: int)
    requires a == 1000 * q + r && 0 <= r < 1000
    ensures a / 1000 == q && a % 1000 == r
  {
  }

  /** The first three of six fraction digits are the milliseconds' digits. */
  lemma MillisDigits(us: int)
    requires 0 <= us < 1_000_000
    ensures us / 1000 / 100 == us / 100_000 && us / 1000 / 10 % 10 == us / 10_000 % 10
  {
    var m, r := us / 1000, us % 1000;
    DivModThousand(us, m, r);
    DivModHundredThousand(us, m / 100, 1000 * (m % 100) + r);
    DivModTenThousand(us, m / 10, 1000 * (m % 10) + r);
  }

  lemma DivModTenThousand(a: int, q: int, r: int)
    requires a == 10_000 * q + r && 0 <= r < 10_000
    ensures a / 10_000 == q
  {
  }

  lemma DivModHundredThousand(a: int, q: int, r: int)
    requires a == 100_000 * q + r && 0 <= r < 100_000
    ensures a / 100_000 == q
  {
  }

  lemma ThreeDigitsOf(t: string, i: nat, n: int)
    requires 0 <= n <= 999 && i + 2 < |t|
    requires t[i] == DigitChar(n / 100) && t[i + 1] == DigitChar(n / 10 % 10)
    requires t[i + 2] == DigitChar(n % 10)
    ensures 100 * DigitValue(t[i]) + TwoDigits(t, i + 1) == n
  {
    var q := n / 10;
    assert n == 10 * q + n % 10;
    assert q == 10 * (q / 10) + q % 10;
    DivModHundred(n, q / 10, 10 * (q % 10) + n % 10);
  }

  lemma TwoDigitsOf(t: string, i: nat, n: int)
    requires 0 <= n <= 99 && i + 1 < |t|
    requires t[i] == DigitChar(n / 10) && t[i + 1] == DigitChar(n % 10)
    ensures TwoDigits(t, i) == n
  {
  }
}

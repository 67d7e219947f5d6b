/**
 * Timezone-aware timestamps, as `datetime.strptime` with a `%z` directive
 * produces them: local calendar fields plus a UTC offset. Two such values are
 * ordered by the instant they denote; the report prints the local fields.
 */
module Timestamps {
  import opened Wrappers

  /** A timestamp within the ranges `datetime` enforces, the only kind `strptime` returns. */
  type ValidTimestamp = t: Timestamp | Valid(t) witness Timestamp(1, 1, 1, 0, 0, 0, 0, 0)

  /** Local date and time of day, and the offset east of UTC in seconds. */
  datatype Timestamp = Timestamp(
    year: nat, month: nat, day: nat,
    hour: nat, minute: nat, second: nat, microsecond: nat,
    utcOffset: int)

  predicate IsLeapYear(y: int) {
    y % 4 == 0 && (y % 100 != 0 || y % 400 == 0)
  }

  function DaysInMonth(y: int, m: int): int {
    if m == 2 then (if IsLeapYear(y) then 29 else 28)
    else if m == 4 || m == 6 || m == 9 || m == 11 then 30
    else 31
  }

  /** The ranges a `datetime` enforces on its fields (a `timezone` offset lies strictly within a day). */
  predicate Valid(t: Timestamp) {
    && 1 <= t.year <= 9999
    && 1 <= t.month <= 12
    && 1 <= t.day <= DaysInMonth(t.year, t.month)
    && t.hour < 24 && t.minute < 60 && t.second < 60
    && t.microsecond < 1000000
    && -86400 < t.utcOffset < 86400
  }

  /** Days in the months of year `y` before month `m`. */
  function DaysBeforeMonth(y: int, m: int): int
    decreases m
  {
    if m <= 1 then 0 else DaysBeforeMonth(y, m - 1) + DaysInMonth(y, m - 1)
  }

  /** Days in the years before year `y` of the proleptic Gregorian calendar. */
  function DaysBeforeYear(y: int): int {
    var p := y - 1;
    p * 365 + p / 4 - p / 100 + p / 400
  }

  /** Day number of a date, 0001-01-01 being day 1. */
  function Ordinal(y: int, m: int, d: int): int {
    DaysBeforeYear(y) + DaysBeforeMonth(y, m) + d
  }

  /** Microseconds within the local day. */
  function TimeOfDay(t: Timestamp): int {
    ((t.hour * 60 + t.minute) * 60 + t.second) * 1000000 + t.microsecond
  }

  /** The instant `t` denotes, in microseconds on the UTC time line. */
  function Instant(t: Timestamp): int {
    (Ordinal(t.year, t.month, t.day) * 86400 - t.utcOffset) * 1000000 + TimeOfDay(t)
  }

  /** Lexicographic order of the local fields, the order a wall clock shows. */
  predicate LocalBefore(a: Timestamp, b: Timestamp) {
    || a.year < b.year
    || (a.year == b.year && a.month < b.month)
    || (a.year == b.year && a.month == b.month && a.day < b.day)
    || (a.year == b.year && a.month == b.month && a.day == b.day && TimeOfDay(a) < TimeOfDay(b))
  }

  lemma {:induction false} DaysBeforeMonthGrows(y: int, m: int, m': int)
    requires 1 <= m <= m' <= 13
    ensures DaysBeforeMonth(y, m') - DaysBeforeMonth(y, m) >= 28 * (m' - m)
    decreases m' - m
  {
    if m < m' {
      DaysBeforeMonthGrows(y, m + 1, m');
    }
  }

  lemma DaysBeforeMonthYearEnd(y: int)
    ensures DaysBeforeMonth(y, 13) == if IsLeapYear(y) then 366 else 365
  {
    assert DaysBeforeMonth(y, 2) == 31;
    assert DaysBeforeMonth(y, 3) == 59 + (if IsLeapYear(y) then 1 else 0);
    assert DaysBeforeMonth(y, 4) == 90 + (if IsLeapYear(y) then 1 else 0);
    assert DaysBeforeMonth(y, 5) == 120 + (if IsLeapYear(y) then 1 else 0);
    assert DaysBeforeMonth(y, 6) == 151 + (if IsLeapYear(y) then 1 else 0);
    assert DaysBeforeMonth(y, 7) == 181 + (if IsLeapYear(y) then 1 else 0);
    assert DaysBeforeMonth(y, 8) == 212 + (if IsLeapYear(y) then 1 else 0);
    assert DaysBeforeMonth(y, 9) == 243 + (if IsLeapYear(y) then 1 else 0);
    assert DaysBeforeMonth(y, 10) == 273 + (if IsLeapYear(y) then 1 else 0);
    assert DaysBeforeMonth(y, 11) == 304 + (if IsLeapYear(y) then 1 else 0);
    assert DaysBeforeMonth(y, 12) == 334 + (if IsLeapYear(y) then 1 else 0);
  }

  /** Consecutive years are as far apart as the earlier one is long. */
  lemma DaysBeforeNextYear(y: int)
    ensures DaysBeforeYear(y + 1) == DaysBeforeYear(y) + DaysBeforeMonth(y, 13)
  {
    DaysBeforeMonthYearEnd(y);
    var p := y - 1;
    assert (p + 1) / 4 == p / 4 + (if y % 4 == 0 then 1 else 0);
    assert (p + 1) / 100 == p / 100 + (if y % 100 == 0 then 1 else 0);
    assert (p + 1) / 400 == p / 400 + (if y % 400 == 0 then 1 else 0);
  }

  lemma {:induction false} OrdinalOfLaterYear(a: Timestamp, b: Timestamp)
    requires Valid(a) && Valid(b) && a.year < b.year
    ensures Ordinal(a.year, a.month, a.day) < Ordinal(b.year, b.month, b.day)
    decreases b.year - a.year
  {
    DaysBeforeMonthGrows(a.year, a.month + 1, 13);
    DaysBeforeNextYear(a.year);
    assert Ordinal(a.year, a.month, a.day) <= DaysBeforeYear(a.year) + DaysBeforeMonth(a.year, a.month + 1);
    var next := Timestamp(a.year + 1, 1, 1, 0, 0, 0, 0, 0);
    assert Ordinal(a.year, a.month, a.day) < Ordinal(next.year, 1, 1);
    if next.year < b.year {
      OrdinalOfLaterYear(next, b);
    } else {
      DaysBeforeMonthGrows(b.year, 1, b.month);
    }
  }

  /** Earlier dates, in calendar order, have smaller day numbers. */
  lemma DateOrder(a: Timestamp, b: Timestamp)
    requires Valid(a) && Valid(b)
    requires a.year < b.year || (a.year == b.year && (a.month < b.month || (a.month == b.month && a.day < b.day)))
    ensures Ordinal(a.year, a.month, a.day) < Ordinal(b.year, b.month, b.day)
  {
    if a.year < b.year {
      OrdinalOfLaterYear(a, b);
    } else if a.month < b.month {
      DaysBeforeMonthGrows(a.year, a.month + 1, b.month);
    }
  }

  lemma TimeOfDayInjective(a: Timestamp, b: Timestamp)
    requires Valid(a) && Valid(b) && TimeOfDay(a) == TimeOfDay(b)
    ensures a.hour == b.hour && a.minute == b.minute && a.second == b.second && a.microsecond == b.microsecond
  {
    var sa, sb := (a.hour * 60 + a.minute) * 60 + a.second, (b.hour * 60 + b.minute) * 60 + b.second;
    assert TimeOfDay(a) == sa * 1000000 + a.microsecond;
    assert TimeOfDay(b) == sb * 1000000 + b.microsecond;
    assert sa == sb && a.microsecond == b.microsecond;
    assert a.second == b.second;
    assert a.hour * 60 + a.minute == b.hour * 60 + b.minute;
  }

  /** At one offset the instant compares as the day number, then the time of day. */
  lemma InstantByDayThenTime(a: Timestamp, b: Timestamp)
    requires Valid(a) && Valid(b) && a.utcOffset == b.utcOffset
    ensures var oa, ob := Ordinal(a.year, a.month, a.day), Ordinal(b.year, b.month, b.day);
      && (Instant(a) < Instant(b) <==> oa < ob || (oa == ob && TimeOfDay(a) < TimeOfDay(b)))
      && (Instant(a) == Instant(b) <==> oa == ob && TimeOfDay(a) == TimeOfDay(b))
  {
    var oa, ob := Ordinal(a.year, a.month, a.day), Ordinal(b.year, b.month, b.day);
    var ta, tb := TimeOfDay(a), TimeOfDay(b);
    assert 0 <= ta < 86400000000 && 0 <= tb < 86400000000;
    assert Instant(a) == oa * 86400000000 - a.utcOffset * 1000000 + ta;
    assert Instant(b) == ob * 86400000000 - a.utcOffset * 1000000 + tb;
    if oa < ob {
      assert oa * 86400000000 + 86400000000 <= ob * 86400000000;
    } else if ob < oa {
      assert ob * 86400000000 + 86400000000 <= oa * 86400000000;
    }
  }

  /**
   * Python orders aware datetimes by instant; for two timestamps with the
   * same offset this is exactly the order of their local fields.
   */
  lemma InstantOrdersByLocalFields(a: Timestamp, b: Timestamp)
    requires Valid(a) && Valid(b) && a.utcOffset == b.utcOffset
    ensures Instant(a) < Instant(b) <==> LocalBefore(a, b)
    ensures Instant(a) == Instant(b) <==> a == b
  {
    InstantByDayThenTime(a, b);
    var sameDate := a.year == b.year && a.month == b.month && a.day == b.day;
    if !sameDate {
      if a.year < b.year || (a.year == b.year && (a.month < b.month || (a.month == b.month && a.day < b.day))) {
        DateOrder(a, b);
      } else {
        DateOrder(b, a);
      }
    } else if TimeOfDay(a) == TimeOfDay(b) {
      TimeOfDayInjective(a, b);
    }
  }

  // Formatting with the pattern `%Y/%m/%d %H:%M:%S`.

  function Digit(n: nat): char
    requires n < 10
  {
    ('0' as int + n) as char
  }

  predicate IsDigit(c: char) {
    '0' <= c <= '9'
  }

  predicate AllDigits(s: string) {
    forall k :: 0 <= k < |s| ==> IsDigit(s[k])
  }

  /** Decimal digits of `n` without padding, as `%Y` prints a year. */
  function Decimal(n: nat): string
    decreases n
  {
    if n < 10 then [Digit(n)] else Decimal(n / 10) + [Digit(n % 10)]
  }

  /** Decimal digits of `n`, zero-padded to width two, as `%m`, `%d`, `%H`, `%M`, `%S` print. */
  function TwoDigits(n: nat): string {
    [Digit(n / 10 % 10), Digit(n % 10)]
  }

  /** The report's rendering of a timestamp: its local fields; the offset is not printed. */
  function FormatDate(t: Timestamp): string {
    Decimal(t.year) + FormatTail(t)
  }

  /** Everything `FormatDate` prints after the year. */
  function FormatTail(t: Timestamp): string {
    "/" + TwoDigits(t.month) + "/" + TwoDigits(t.day) + " "
      + TwoDigits(t.hour) + ":" + TwoDigits(t.minute) + ":" + TwoDigits(t.second)
  }

  // Reading a rendered date back: the inverse of FormatDate.

  /** The fields a rendered date shows. */
  datatype WallClock = WallClock(year: nat, month: nat, day: nat, hour: nat, minute: nat, second: nat)

  function Shown(t: Timestamp): WallClock {
    WallClock(t.year, t.month, t.day, t.hour, t.minute, t.second)
  }

  function DecimalValue(s: string): nat
    requires AllDigits(s)
  {
    if s == [] then 0
    else DecimalValue(s[..|s| - 1]) * 10 + (s[|s| - 1] as int - '0' as int)
  }

  /** Parses `Y/MM/DD HH:MM:SS` with a year of one or more digits. */
  function ReadDate(s: string): Option<WallClock> {
    if |s| < 16 then None
    else
      var y, r := s[..|s| - 15], s[|s| - 15..];
      if r[0] == '/' && r[3] == '/' && r[6] == ' ' && r[9] == ':' && r[12] == ':'
        && AllDigits(y) && AllDigits(r[1..3]) && AllDigits(r[4..6]) && AllDigits(r[7..9])
        && AllDigits(r[10..12]) && AllDigits(r[13..15])
      then
        Some(WallClock(DecimalValue(y), DecimalValue(r[1..3]), DecimalValue(r[4..6]),
                       DecimalValue(r[7..9]), DecimalValue(r[10..12]), DecimalValue(r[13..15])))
      else None
  }

  lemma {:induction false} DecimalRoundTrip(n: nat)
    ensures |Decimal(n)| >= 1 && AllDigits(Decimal(n))
    ensures DecimalValue(Decimal(n)) == n
    decreases n
  {
    if n >= 10 {
      DecimalRoundTrip(n / 10);
      var s := Decimal(n);
      assert s[..|s| - 1] == Decimal(n / 10);
    }
  }

  lemma TwoDigitsRoundTrip(n: nat)
    requires n < 100
    ensures |TwoDigits(n)| == 2 && AllDigits(TwoDigits(n))
    ensures DecimalValue(TwoDigits(n)) == n
  {
    var s := TwoDigits(n);
    assert s[..1] == [Digit(n / 10)];
    assert s[..1][..0] == [];
    assert DecimalValue(s[..1]) == n / 10;
  }

  lemma FormatTailLayout(t: Timestamp)
    requires Valid(t)
    ensures var r := FormatTail(t);
      && |r| == 15
      && r[0] == '/' && r[3] == '/' && r[6] == ' ' && r[9] == ':' && r[12] == ':'
      && r[1..3] == TwoDigits(t.month) && r[4..6] == TwoDigits(t.day) && r[7..9] == TwoDigits(t.hour)
      && r[10..12] == TwoDigits(t.minute) && r[13..15] == TwoDigits(t.second)
  {
    TwoDigitsRoundTrip(t.month);
    TwoDigitsRoundTrip(t.day);
    TwoDigitsRoundTrip(t.hour);
    TwoDigitsRoundTrip(t.minute);
    TwoDigitsRoundTrip(t.second);
  }

  /** Reading a rendered date gives back the local fields it was rendered from. */
  lemma FormatDateRoundTrip(t: Timestamp)
    requires Valid(t)
    ensures ReadDate(FormatDate(t)) == Some(Shown(t))
  {
    var s, y, r := FormatDate(t), Decimal(t.year), FormatTail(t);
    DecimalRoundTrip(t.year);
    FormatTailLayout(t);
    TwoDigitsRoundTrip(t.month);
    TwoDigitsRoundTrip(t.day);
    TwoDigitsRoundTrip(t.hour);
    TwoDigitsRoundTrip(t.minute);
    TwoDigitsRoundTrip(t.second);
    assert s[..|s| - 15] == y;
    assert s[|s| - 15..] == r;
  }
}

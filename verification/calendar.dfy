/**
 Calendar dates as the availability handler reads them: an ISO `YYYY-MM-DD` string,
 parsed the way `new Date(date + 'T12:00:00')` does, and its day of the week in the
 proleptic Gregorian calendar with Sunday as 0, as `getDay()` returns it.
 */
module Calendar {
  import opened JsText

  datatype Date = Date(year: int, month: int, day: int)

  predicate IsLeap(y: int) {
    y % 4 == 0 && (y % 100 != 0 || y % 400 == 0)
  }

  function YearLength(y: int): int {
    if IsLeap(y) then 366 else 365
  }

  function DaysInMonth(y: int, m: int): (n: int)
    requires 1 <= m <= 12
    ensures 28 <= n <= 31
  {
    if m == 2 then (if IsLeap(y) then 29 else 28)
    else if m == 4 || m == 6 || m == 9 || m == 11 then 30
    else 31
  }

  /** What the date parser accepts: a four-digit year, month 1..12 and day 1..31.
      A day past the end of its month (`2026-02-30`) is accepted and counts forward into the next month. */
  predicate Parsable(d: Date) {
    0 <= d.year <= 9999 && 1 <= d.month <= 12 && 1 <= d.day <= 31
  }

  /** A real calendar day. */
  predicate ValidDate(d: Date) {
    0 <= d.year && 1 <= d.month <= 12 && 1 <= d.day <= DaysInMonth(d.year, d.month)
  }

  /** Days from 0001-01-01 to January 1st of year y (negative for year 0). */
  function DaysBeforeYear(y: int): int {
    var p := y - 1;
    365 * p + p / 4 - p / 100 + p / 400
  }

  function DaysBeforeMonth(y: int, m: int): int
    requires 1 <= m <= 12
  {
    var cumulative := [0, 31, 59, 90, 120, 151, 181, 212, 243, 273, 304, 334];
    cumulative[m - 1] + (if IsLeap(y) && m > 2 then 1 else 0)
  }

  /** Serial day number, 0001-01-01 being day 0; a day past its month's end is simply counted on. */
  function DayNumber(d: Date): int
    requires 1 <= d.month <= 12
  {
    DaysBeforeYear(d.year) + DaysBeforeMonth(d.year, d.month) + d.day - 1
  }

  /** `getDay()`: 0 for Sunday through 6 for Saturday (0001-01-01 was a Monday). */
  function Weekday(d: Date): (w: int)
    requires 1 <= d.month <= 12
    ensures 0 <= w < 7
  {
    (DayNumber(d) + 1) % 7
  }

  function NextDate(d: Date): (n: Date)
    requires ValidDate(d)
    ensures ValidDate(n)
  {
    if d.day < DaysInMonth(d.year, d.month) then Date(d.year, d.month, d.day + 1)
    else if d.month < 12 then Date(d.year, d.month + 1, 1)
    else Date(d.year + 1, 1, 1)
  }

  lemma YearStep(y: int)
    ensures DaysBeforeYear(y + 1) == DaysBeforeYear(y) + YearLength(y)
  {
    StepFour(y);
    StepHundred(y);
    StepFourHundred(y);
    LeapDays(y);
    assert DaysBeforeYear(y + 1) == 365 * y + y / 4 - y / 100 + y / 400;
    assert DaysBeforeYear(y) == 365 * (y - 1) + (y - 1) / 4 - (y - 1) / 100 + (y - 1) / 400;
  }

  /** The leap rule as the three counted divisibilities: every fourth year, less every hundredth, plus every four-hundredth. */
  lemma LeapDays(y: int)
    ensures YearLength(y) - 365
         == (if y % 4 == 0 then 1 else 0) - (if y % 100 == 0 then 1 else 0) + (if y % 400 == 0 then 1 else 0)
  {
    if y % 100 == 0 {
      var k := y / 100;
      assert y == 4 * (25 * k);
    }
    if y % 400 == 0 {
      var k := y / 400;
      assert y == 100 * (4 * k);
    }
  }

  lemma StepFour(y: int)
    ensures y / 4 - (y - 1) / 4 == (if y % 4 == 0 then 1 else 0)
  {
  }

  lemma StepHundred(y: int)
    ensures y / 100 - (y - 1) / 100 == (if y % 100 == 0 then 1 else 0)
  {
  }

  lemma StepFourHundred(y: int)
    ensures y / 400 - (y - 1) / 400 == (if y % 400 == 0 then 1 else 0)
  {
  }

  lemma DayNumberNext(d: Date)
    requires ValidDate(d)
    ensures DayNumber(NextDate(d)) == DayNumber(d) + 1
  {
    if d.day == DaysInMonth(d.year, d.month) && d.month == 12 {
      YearStep(d.year);
    }
  }

  /** Consecutive days have consecutive weekdays, Saturday (6) wrapping to Sunday (0). */
  lemma WeekdayNext(d: Date)
    requires ValidDate(d)
    ensures Weekday(NextDate(d)) == (Weekday(d) + 1) % 7
  {
    var n := DayNumber(d);
    DayNumberNext(d);
    assert Weekday(NextDate(d)) == (n + 2) % 7;
    SevenStep(n + 1);
  }

  lemma SevenStep(x: int)
    ensures (x + 1) % 7 == (x % 7 + 1) % 7
  {
    var q, r := x / 7, x % 7;
    assert x == 7 * q + r;
    if r < 6 {
      assert x + 1 == 7 * q + (r + 1);
    } else {
      assert x + 1 == 7 * (q + 1);
    }
  }

  /** A day written past its month's end falls on the weekday of the day it rolls over to. */
  lemma WeekdayRollover(d: Date)
    requires Parsable(d) && d.month < 12 && d.day > DaysInMonth(d.year, d.month)
    ensures Weekday(d) == Weekday(Date(d.year, d.month + 1, d.day - DaysInMonth(d.year, d.month)))
  {
  }

  /** Fixed points of the calendar: 1970-01-01 was a Thursday, 2026-05-04 a Monday, 2026-10-10 a Saturday. */
  lemma KnownWeekdays()
    ensures Weekday(Date(1970, 1, 1)) == 4
    ensures Weekday(Date(2026, 5, 4)) == 1
    ensures Weekday(Date(2026, 10, 10)) == 6
  {
  }

  predicate IsoShaped(s: string) {
    && |s| == 10 && s[4] == '-' && s[7] == '-'
    && AllDigits(s[..4]) && AllDigits(s[5..7]) && AllDigits(s[8..])
  }

  /** `new Date(s + 'T12:00:00')` for the `YYYY-MM-DD` shape; None is an Invalid Date. */
  function ParseIsoDate(s: string): (r: Option<Date>)
    ensures r.Some? ==> Parsable(r.value) && IsoShaped(s)
    ensures r.Some? ==> r.value == Date(ValueOf(s[..4]), ValueOf(s[5..7]), ValueOf(s[8..]))
  {
    if !IsoShaped(s) then None
    else
      var d := Date(ValueOf(s[..4]), ValueOf(s[5..7]), ValueOf(s[8..]));
      if Parsable(d) then Some(d) else None
  }
}

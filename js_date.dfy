/**
 * The part of a JavaScript `Date` (as read through date-fns) that the pipeline
 * uses: a local date and time to the minute, or an Invalid Date; the weekday
 * `getDay` gives (0 = Sunday) in the proleptic Gregorian calendar; the start of
 * the day; and the minute of the day that "HH:mm" names.
 */
module JsDate {

  /** Local wall-clock fields of a date; no time zone. */
  datatype DateTime = DateTime(year: int, month: int, day: int, hour: int, minute: int)

  /** A date and time that exists in the calendar. */
  type Timestamp = d: DateTime | IsValid(d) witness DateTime(1970, 1, 1, 0, 0)

  /** What date-fns `parse` produces: a date, or an Invalid Date. */
  datatype Date = InvalidDate | ValidDate(dt: Timestamp)

  /** A minute of the day, as the "HH:mm" text names it. */
  datatype ClockTime = ClockTime(hour: int, minute: int)

  predicate IsLeapYear(y: int)
  {
    y % 4 == 0 && (y % 100 != 0 || y % 400 == 0)
  }

  function DaysInMonth(y: int, m: int): (n: int)
    requires 1 <= m <= 12
    ensures 28 <= n <= 31
    ensures n == 29 <==> m == 2 && IsLeapYear(y)
  {
    if m == 2 then (if IsLeapYear(y) then 29 else 28)
    else if m == 4 || m == 6 || m == 9 || m == 11 then 30
    else 31
  }

  predicate IsValidClock(hour: int, minute: int)
  {
    0 <= hour <= 23 && 0 <= minute <= 59
  }

  /** A real calendar date with a real time of day. */
  predicate IsValid(d: DateTime)
  {
    1 <= d.month <= 12 && 1 <= d.day <= DaysInMonth(d.year, d.month) &&
    IsValidClock(d.hour, d.minute)
  }

  /** Days from 1 January of year 1 to 1 January of year `y`. */
  function DaysBeforeYear(y: int): int
  {
    365 * (y - 1) + (y - 1) / 4 - (y - 1) / 100 + (y - 1) / 400
  }

  /** Days from 1 January to the first of month `m` of year `y`. */
  function DaysBeforeMonth(y: int, m: int): int
    requires 1 <= m <= 12
  {
    var common :=
      if m == 1 then 0 else if m == 2 then 31 else if m == 3 then 59
      else if m == 4 then 90 else if m == 5 then 120 else if m == 6 then 151
      else if m == 7 then 181 else if m == 8 then 212 else if m == 9 then 243
      else if m == 10 then 273 else if m == 11 then 304 else 334;
    if m > 2 && IsLeapYear(y) then common + 1 else common
  }

  /** Days elapsed since 1 January of year 1 (day number 0), proleptic Gregorian. */
  function DayNumber(y: int, m: int, d: int): int
    requires 1 <= m <= 12
  {
    DaysBeforeYear(y) + DaysBeforeMonth(y, m) + d - 1
  }

  /** `getDay`: 0 = Sunday .. 6 = Saturday. Day number 0, 1 January of year 1, was a Monday. */
  function Weekday(d: DateTime): (w: int)
    requires 1 <= d.month <= 12
    ensures 0 <= w < 7
  {
    (DayNumber(d.year, d.month, d.day) + 1) % 7
  }

  /** `startOfDay`: the same date at midnight. */
  function StartOfDay(d: DateTime): (s: DateTime)
    ensures s.year == d.year && s.month == d.month && s.day == d.day
    ensures s.hour == 0 && s.minute == 0
  {
    d.(hour := 0, minute := 0)
  }

  /** Two dates have the same start of day exactly when they fall on the same calendar
      day; taking the start of day twice changes nothing, and it keeps a date valid. */
  lemma SameStartOfDay(a: DateTime, b: DateTime)
    ensures StartOfDay(a) == StartOfDay(b) <==> (a.year == b.year && a.month == b.month && a.day == b.day)
    ensures StartOfDay(StartOfDay(a)) == StartOfDay(a)
    ensures IsValid(a) ==> IsValid(StartOfDay(a))
  {
  }

  /** The minute of the day of a date, the value its "HH:mm" rendering names. */
  function ClockOf(d: DateTime): (c: ClockTime)
    ensures c.hour == d.hour && c.minute == d.minute
  {
    ClockTime(d.hour, d.minute)
  }

  /** The calendar day after `d`, at the same time of day. */
  function NextDay(d: DateTime): (n: DateTime)
    requires IsValid(d)
    ensures IsValid(n)
  {
    if d.day < DaysInMonth(d.year, d.month) then d.(day := d.day + 1)
    else if d.month < 12 then d.(month := d.month + 1, day := 1)
    else d.(year := d.year + 1, month := 1, day := 1)
  }

  lemma MulSign(t: int, k: int)
    requires k > 0
    ensures t >= 1 ==> k * t >= k
    ensures t <= -1 ==> k * t <= -k
  {
  }

  /** Floor division and remainder are the unique quotient and remainder. */
  lemma DivUnique(a: int, k: int, m: int, s: int)
    requires k > 0 && a == k * m + s && 0 <= s < k
    ensures a / k == m && a % k == s
  {
    var q, r := a / k, a % k;
    assert k * (q - m) == s - r;
    MulSign(q - m, k);
  }

  lemma FloorDivStep(y: int, k: int)
    requires k > 0
    ensures y / k - (y - 1) / k == if y % k == 0 then 1 else 0
  {
    var q := y / k;
    var r := y % k;
    if r == 0 {
      DivUnique(y - 1, k, q - 1, k - 1);
    } else {
      DivUnique(y - 1, k, q, r - 1);
    }
  }

  lemma DaysInYear(y: int)
    ensures DaysBeforeYear(y + 1) - DaysBeforeYear(y) == if IsLeapYear(y) then 366 else 365
  {
    FloorDivStep(y, 4);
    FloorDivStep(y, 100);
    FloorDivStep(y, 400);
    if y % 400 == 0 {
      DivisibleBy400(y);
    } else if y % 100 == 0 {
      DivisibleBy100(y);
    }
  }

  lemma DivisibleBy400(y: int)
    requires y % 400 == 0
    ensures y % 100 == 0 && y % 4 == 0
  {
    var q := y / 400;
    DivUnique(y, 100, 4 * q, 0);
    DivUnique(y, 4, 100 * q, 0);
  }

  lemma DivisibleBy100(y: int)
    requires y % 100 == 0
    ensures y % 4 == 0
  {
    var q := y / 100;
    DivUnique(y, 4, 25 * q, 0);
  }

  /** The day number advances by one from each calendar day to the next. */
  lemma NextDayNumber(d: DateTime)
    requires IsValid(d)
    ensures DayNumber(NextDay(d).year, NextDay(d).month, NextDay(d).day)
            == DayNumber(d.year, d.month, d.day) + 1
  {
    var y, m := d.year, d.month;
    if d.day < DaysInMonth(y, m) {
      assert NextDay(d) == d.(day := d.day + 1);
    } else if m < 12 {
      assert NextDay(d) == d.(month := m + 1, day := 1);
      MonthAfter(y, m);
    } else {
      assert NextDay(d) == d.(year := y + 1, month := 1, day := 1);
      assert DaysBeforeMonth(y, 12) + 31 == if IsLeapYear(y) then 366 else 365;
      DaysInYear(y);
    }
  }

  /** The first of the next month comes right after the last day of this one. */
  lemma MonthAfter(y: int, m: int)
    requires 1 <= m < 12
    ensures DaysBeforeMonth(y, m + 1) == DaysBeforeMonth(y, m) + DaysInMonth(y, m)
  {
  }

  /** `getDay` advances by one, modulo 7, from each calendar day to the next. */
  lemma WeekdayOfNextDay(d: DateTime)
    requires IsValid(d)
    ensures Weekday(NextDay(d)) == (Weekday(d) + 1) % 7
  {
    NextDayNumber(d);
    var x := DayNumber(d.year, d.month, d.day) + 1;
    ModSuccessor(x);
  }

  lemma ModSuccessor(x: int)
    ensures (x + 1) % 7 == (x % 7 + 1) % 7
  {
    DivUnique(x, 7, x / 7, x % 7);
    if x % 7 == 6 {
      DivUnique(x + 1, 7, x / 7 + 1, 0);
    } else {
      DivUnique(x + 1, 7, x / 7, x % 7 + 1);
    }
  }
}

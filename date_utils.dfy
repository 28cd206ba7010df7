/**
 * The opening-hours calendar of src/utils/dateUtils.ts: a fixed table from
 * weekday (0 = Sunday) to the opening and closing hour, and the test whether a
 * date falls inside it, which looks at the weekday and the hour only.
 */
module DateUtils {
  import opened JsDate

  datatype Hours = Hours(open: int, close: int)

  /** OPENING_HOURS, keyed by `getDay`. */
  const OpeningHours: map<int, Hours> :=
    map[0 := Hours(8, 16), 1 := Hours(7, 20), 2 := Hours(7, 20), 3 := Hours(7, 20),
        4 := Hours(7, 20), 5 := Hours(7, 20), 6 := Hours(8, 20)]

  /** Every weekday has an entry, nothing else does, and each entry opens before it closes. */
  lemma OpeningHoursTable()
    ensures forall w :: w in OpeningHours <==> 0 <= w < 7
    ensures forall w :: w in OpeningHours ==> OpeningHours[w].open < OpeningHours[w].close
  {
  }

  /** `isWithinOpeningHours`: look up the weekday's entry and test `open <= hour < close`. */
  function IsWithinOpeningHours(d: Timestamp): bool
  {
    var day := Weekday(d);
    assert day in OpeningHours by { OpeningHoursTable(); }
    var hours := OpeningHours[day];
    d.hour >= hours.open && d.hour < hours.close
  }

  /** The open hour of each weekday is inside, its close hour outside, for any date on that weekday. */
  lemma OpenIncludedCloseExcluded(d: Timestamp)
    ensures d.hour == OpeningHours[Weekday(d)].open ==> IsWithinOpeningHours(d)
    ensures d.hour == OpeningHours[Weekday(d)].close ==> !IsWithinOpeningHours(d)
  {
    OpeningHoursTable();
  }

  /** Sunday: open from 8:00, closed from 16:00, so 7:xx and 16:xx are both out. */
  lemma SundayHours(d: Timestamp)
    requires Weekday(d) == 0
    ensures IsWithinOpeningHours(d) <==> 8 <= d.hour <= 15
  {
  }

  /** Monday to Friday: hours 7 through 19. */
  lemma WorkdayHours(d: Timestamp)
    requires 1 <= Weekday(d) <= 5
    ensures IsWithinOpeningHours(d) <==> 7 <= d.hour <= 19
  {
  }

  /** Saturday: hours 8 through 19. */
  lemma SaturdayHours(d: Timestamp)
    requires Weekday(d) == 6
    ensures IsWithinOpeningHours(d) <==> 8 <= d.hour <= 19
  {
  }

  /** Only the weekday and the hour matter: minutes, and the date within the same weekday, do not. */
  lemma OnlyWeekdayAndHourMatter(a: Timestamp, b: Timestamp)
    requires Weekday(a) == Weekday(b) && a.hour == b.hour
    ensures IsWithinOpeningHours(a) == IsWithinOpeningHours(b)
  {
  }

  /** The answer repeats week after week: a date and the date seven days later agree. */
  lemma {:induction false} SameAnswerAWeekLater(d: Timestamp)
    ensures IsWithinOpeningHours(NextDays(d, 7)) == IsWithinOpeningHours(d)
  {
    var week := 7;
    WeekdayAfterDays(d, week);
    assert (Weekday(d) + week) % 7 == Weekday(d);
    OnlyWeekdayAndHourMatter(d, NextDays(d, week));
  }

  function NextDays(d: Timestamp, n: nat): (r: Timestamp)
    ensures r.hour == d.hour && r.minute == d.minute
    decreases n
  {
    if n == 0 then d else NextDays(NextDay(d), n - 1)
  }

  lemma {:induction false} WeekdayAfterDays(d: Timestamp, n: nat)
    ensures Weekday(NextDays(d, n)) == (Weekday(d) + n) % 7
  {
    DayNumberAfterDays(d, n);
    ModShift(DayNumber(d.year, d.month, d.day) + 1, n);
  }

  /** n days on, the day number has grown by n. */
  lemma {:induction false} DayNumberAfterDays(d: Timestamp, n: nat)
    ensures var e := NextDays(d, n);
            DayNumber(e.year, e.month, e.day) == DayNumber(d.year, d.month, d.day) + n
    decreases n
  {
    if n > 0 {
      var d1 := NextDay(d);
      assert NextDays(d, n) == NextDays(d1, n - 1);
      NextDayNumber(d);
      DayNumberAfterDays(d1, n - 1);
    }
  }

  lemma ModShift(x: int, n: nat)
    ensures ((x % 7) + n) % 7 == (x + n) % 7
  {
    DivUnique(x, 7, x / 7, x % 7);
    var y := x % 7 + n;
    DivUnique(x + n, 7, x / 7 + y / 7, y % 7);
  }

  /** 15 March 2024 was a Friday and 17 March 2024 a Sunday: on that Sunday 7:00 is
      closed and 8:00 open, while 9:00 on the Friday is open. */
  lemma CalendarExamples()
    ensures Weekday(DateTime(2024, 3, 15, 9, 0)) == 5
    ensures Weekday(DateTime(2024, 3, 17, 7, 0)) == 0
    ensures !IsWithinOpeningHours(DateTime(2024, 3, 17, 7, 0))
    ensures IsWithinOpeningHours(DateTime(2024, 3, 17, 8, 0))
    ensures IsWithinOpeningHours(DateTime(2024, 3, 15, 9, 0))
  {
  }
}

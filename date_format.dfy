/**
 * The date-fns `parse` and `format` patterns the pipeline uses, for those patterns
 * only: reading a row's "dd/MM/yyyy H:mm" timestamp, the "yyyy-MM-dd" day key,
 * the "HH:mm" minute key, and the "h:mm a" label of a peak hour.
 */
module DateFormat {
  import opened JsRuntime
  import opened JsDate

  function Pow10(n: nat): (p: nat)
    ensures p >= 1
  {
    if n == 0 then 1 else 10 * Pow10(n - 1)
  }

  function Zeros(n: nat): (s: string)
    ensures |s| == n && forall i :: 0 <= i < n ==> s[i] == '0'
  {
    if n == 0 then [] else Zeros(n - 1) + ['0']
  }

  /** `addLeadingZeros(n, width)` for a non-negative n: its decimal numeral, padded
      on the left with zeros to at least `width` characters. */
  function Pad(n: nat, width: nat): (s: string)
    ensures |s| >= width && |s| >= 1
    ensures forall i :: 0 <= i < |s| ==> IsDecimalDigit(s[i])
  {
    var d := Decimal(n);
    if |d| >= width then d else Zeros(width - |d|) + d
  }

  predicate AllDigits(s: string)
  {
    forall i :: 0 <= i < |s| ==> DigitValue(s[i], 10).Some?
  }

  lemma DigitsAreDigits(s: string)
    requires forall i :: 0 <= i < |s| ==> IsDecimalDigit(s[i])
    ensures AllDigits(s)
  {
    forall i | 0 <= i < |s| ensures DigitValue(s[i], 10).Some? {
      assert IsDecimalDigit(s[i]);
    }
  }

  lemma {:induction false} LeadingZeros(n: nat, s: string)
    requires AllDigits(s)
    ensures AllDigits(Zeros(n) + s)
    ensures DigitsValue(Zeros(n) + s, 10) == DigitsValue(s, 10)
    decreases |s|, n
  {
    var z := Zeros(n);
    DigitsAreDigits(z + s);
    if s == [] {
      assert z + s == z;
      if n > 0 {
        LeadingZeros(n - 1, []);
        assert Zeros(n - 1) + [] == Zeros(n - 1);
        assert z[..|z| - 1] == Zeros(n - 1);
      }
    } else {
      var init := s[..|s| - 1];
      LeadingZeros(n, init);
      assert (z + s)[..|z + s| - 1] == z + init;
      assert (z + s)[|z + s| - 1] == s[|s| - 1];
    }
  }

  lemma {:induction false} DecimalLength(n: nat, k: nat)
    requires k >= 1 && n < Pow10(k)
    ensures |Decimal(n)| <= k
    decreases k
  {
    if n >= 10 {
      DecimalLength(n / 10, k - 1);
    }
  }

  /** A padded numeral below 10^width has exactly `width` digits and stands for n. */
  lemma PadValue(n: nat, width: nat)
    requires width >= 1 && n < Pow10(width)
    ensures |Pad(n, width)| == width
    ensures AllDigits(Pad(n, width))
    ensures DigitsValue(Pad(n, width), 10) == n
  {
    DecimalLength(n, width);
    DecimalValue(n);
    var d := Decimal(n);
    DigitsAreDigits(d);
    if |d| < width {
      var z := Zeros(width - |d|);
      assert Pad(n, width) == z + d;
      assert |z + d| == width;
      LeadingZeros(width - |d|, d);
    } else {
      assert Pad(n, width) == d;
    }
  }

  /** Two padded numerals of one width followed by text agree only when both parts do. */
  lemma PadPrefix(a: nat, b: nat, width: nat, x: string, y: string)
    requires width >= 1 && a < Pow10(width) && b < Pow10(width)
    requires Pad(a, width) + x == Pad(b, width) + y
    ensures a == b && x == y
  {
    PadValue(a, width);
    PadValue(b, width);
    assert Pad(a, width) == (Pad(a, width) + x)[..width];
    assert Pad(b, width) == (Pad(b, width) + y)[..width];
    assert x == (Pad(a, width) + x)[width..];
    assert y == (Pad(b, width) + y)[width..];
  }

  // ---------------------------------------------------------------------------
  // Reading: the pieces of date-fns `parse` for the patterns used

  function Min(a: nat, b: nat): nat
  {
    if a <= b then a else b
  }

  /** The regex `^\d{1,max}`: one to `max` decimal digits, as many as there are. */
  function TakeDigits(s: string, max: nat): Option<(nat, string)>
    requires max >= 1
  {
    var n := Min(DigitPrefixLength(s, 10), max);
    if n == 0 then None else Some((DigitsValue(s[..n], 10), s[n..]))
  }

  /** The hour pattern of `H`, the regex `^(2[0-3]|[0-1]?\d)`. */
  function TakeHour(s: string): (r: Option<(nat, string)>)
    ensures r.Some? ==> r.value.0 <= 23
  {
    if |s| >= 2 && s[0] == '2' && '0' <= s[1] <= '3' then
      Some((20 + (s[1] as nat - '0' as nat), s[2..]))
    else if |s| >= 2 && (s[0] == '0' || s[0] == '1') && IsDecimalDigit(s[1]) then
      Some((10 * (s[0] as nat - '0' as nat) + (s[1] as nat - '0' as nat), s[2..]))
    else if |s| >= 1 && IsDecimalDigit(s[0]) then
      Some((s[0] as nat - '0' as nat, s[1..]))
    else None
  }

  /** A literal character of the pattern. */
  function Literal(s: string, c: char): Option<string>
  {
    if s != [] && s[0] == c then Some(s[1..]) else None
  }

  /** The fields `parse(s, 'dd/MM/yyyy H:mm')` reads, before validation; text after
      the minutes must be white space. */
  function ReadTimestampFields(s: string): Option<DateTime>
  {
    var day :- TakeDigits(s, 2);
    var r1 :- Literal(day.1, '/');
    var month :- TakeDigits(r1, 2);
    var r2 :- Literal(month.1, '/');
    var year :- TakeDigits(r2, 4);
    var r3 :- Literal(year.1, ' ');
    var hour :- TakeHour(r3);
    var r4 :- Literal(hour.1, ':');
    var minute :- TakeDigits(r4, 2);
    if IsBlank(minute.1) then Some(DateTime(year.0, month.0, day.0, hour.0, minute.0)) else None
  }

  /** `parse(s, 'dd/MM/yyyy H:mm', new Date())`: the fields read, kept only if the year
      is positive and the day, month, hour and minute exist; otherwise an Invalid Date. */
  function ParseTimestamp(s: string): (d: Date)
    ensures d.ValidDate? ==> d.dt.year >= 1
    ensures d.ValidDate? <==> ReadTimestampFields(s).Some? &&
                              ReadTimestampFields(s).value.year >= 1 &&
                              IsValid(ReadTimestampFields(s).value)
  {
    match ReadTimestampFields(s)
    case Some(d) => if d.year >= 1 && IsValid(d) then ValidDate(d) else InvalidDate
    case None => InvalidDate
  }

  /** The fields `parse(s, 'HH:mm', ...)` reads: two-digit hour 0..23, minute 0..59,
      then only white space; None stands for an Invalid Date. */
  function ParseHHmm(s: string): (c: Option<ClockTime>)
    ensures c.Some? ==> IsValidClock(c.value.hour, c.value.minute)
  {
    var hour :- TakeDigits(s, 2);
    var r1 :- Literal(hour.1, ':');
    var minute :- TakeDigits(r1, 2);
    if IsBlank(minute.1) && hour.0 <= 23 && minute.0 <= 59 then
      Some(ClockTime(hour.0, minute.0))
    else None
  }

  // ---------------------------------------------------------------------------
  // Writing: date-fns `format` for the patterns used

  /** `format(d, 'dd/MM/yyyy H:mm')`, the shape of a row's timestamp. */
  function FormatTimestamp(d: Timestamp): string
    requires d.year >= 0
  {
    Pad(d.day, 2) + ("/" + (Pad(d.month, 2) + ("/" + (Pad(d.year, 4) +
      (" " + (Decimal(d.hour) + (":" + Pad(d.minute, 2))))))))
  }

  /** `format(d, 'yyyy-MM-dd')`, the key of a day. */
  function FormatDay(d: DateTime): string
    requires d.year >= 0 && d.month >= 0 && d.day >= 0
  {
    Pad(d.year, 4) + ("-" + (Pad(d.month, 2) + ("-" + Pad(d.day, 2))))
  }

  /** `format(d, 'HH:mm')`, the key of a minute of the day. */
  function FormatHHmm(c: ClockTime): string
    requires IsValidClock(c.hour, c.minute)
  {
    Pad(c.hour, 2) + (":" + Pad(c.minute, 2))
  }

  /** `format(d, 'h:mm a')`: the hour on a 12-hour clock (12 for 0 and 12), the minutes
      in two digits, then AM before noon and PM from noon on (helpers Hour12, Suffix12). */
  function Label12(c: ClockTime): string
    requires IsValidClock(c.hour, c.minute)
  {
    Decimal(Hour12(c.hour)) + (":" + (Pad(c.minute, 2) + Suffix12(c.hour)))
  }

  // ---------------------------------------------------------------------------
  // Round trips and injectivity

  lemma TakeDigitsPad(n: nat, width: nat, rest: string)
    requires width >= 1 && n < Pow10(width)
    requires rest == [] || !IsDecimalDigit(rest[0])
    ensures TakeDigits(Pad(n, width) + rest, width) == Some((n, rest))
  {
    PadValue(n, width);
    var p := Pad(n, width);
    assert rest == [] || DigitValue(rest[0], 10).None?;
    DigitPrefixOfDigits(p, rest, 10);
    assert (p + rest)[width..] == rest;
  }

  lemma TakeHourDecimal(h: nat, rest: string)
    requires h <= 23
    ensures TakeHour(Decimal(h) + (":" + rest)) == Some((h, ":" + rest))
  {
    if h >= 10 {
      TakeHourTwoDigits(h, ":" + rest);
    } else {
      var s := Decimal(h) + (":" + rest);
      assert s[0] == ('0' as int + h) as char;
      assert s[1] == ':';
      assert s[1..] == ":" + rest;
    }
  }

  lemma TakeHourTwoDigits(h: nat, rest: string)
    requires 10 <= h <= 23
    ensures TakeHour(Decimal(h) + rest) == Some((h, rest))
  {
    var t, u := h / 10, h % 10;
    assert h == 10 * t + u && (t == 1 || t == 2) && u < 10;
    var s := Decimal(h) + rest;
    assert Decimal(h) == Decimal(t) + [('0' as int + u) as char];
    assert Decimal(t) == [('0' as int + t) as char];
    assert s[0] == ('0' as int + t) as char;
    assert s[1] == ('0' as int + u) as char;
    assert s[2..] == rest;
    if t == 2 {
      assert u <= 3;
    }
  }

  /** The fields of a timestamp read one after the other, each followed by its
      separator. */
  lemma ReadFieldsInTurn(s: string, t2: string, t3: string, t4: string, t5: string,
                         ws: string, y: nat, mo: nat, dd: nat, h: nat, mi: nat)
    requires TakeDigits(s, 2) == Some((dd, "/" + t2))
    requires TakeDigits(t2, 2) == Some((mo, "/" + t3))
    requires TakeDigits(t3, 4) == Some((y, " " + t4))
    requires TakeHour(t4) == Some((h, ":" + t5))
    requires TakeDigits(t5, 2) == Some((mi, ws))
    requires IsBlank(ws)
    ensures ReadTimestampFields(s) == Some(DateTime(y, mo, dd, h, mi))
  {
    assert Literal("/" + t2, '/') == Some(t2);
    assert Literal("/" + t3, '/') == Some(t3);
    assert Literal(" " + t4, ' ') == Some(t4);
    assert Literal(":" + t5, ':') == Some(t5);
  }

  /** Reading a timestamp written as "dd/MM/yyyy H:mm", with any trailing white space
      (a carriage return, say), gives that timestamp back. */
  lemma ParseFormatTimestamp(d: Timestamp, ws: string)
    requires 1 <= d.year <= 9999
    requires IsBlank(ws)
    ensures ParseTimestamp(FormatTimestamp(d) + ws) == ValidDate(d)
  {
    FormattedFields(d, ws);
  }

  /** The fields of a written timestamp read back as its own. */
  lemma FormattedFields(d: Timestamp, ws: string)
    requires 1 <= d.year <= 9999
    requires IsBlank(ws)
    ensures ReadTimestampFields(FormatTimestamp(d) + ws) == Some(d)
  {
    var tail5 := Pad(d.minute, 2) + ws;
    var tail4 := Decimal(d.hour) + (":" + tail5);
    var tail3 := Pad(d.year, 4) + (" " + tail4);
    var tail2 := Pad(d.month, 2) + ("/" + tail3);
    var s := Pad(d.day, 2) + ("/" + tail2);
    assert FormatTimestamp(d) + ws == s;
    ReadEachField(d, ws, tail2, tail3, tail4, tail5);
    ReadFieldsInTurn(s, tail2, tail3, tail4, tail5, ws, d.year, d.month, d.day, d.hour, d.minute);
  }

  lemma ReadEachField(d: Timestamp, ws: string, tail2: string, tail3: string, tail4: string,
                      tail5: string)
    requires 1 <= d.year <= 9999
    requires IsBlank(ws)
    ensures TakeDigits(Pad(d.day, 2) + ("/" + tail2), 2) == Some((d.day, "/" + tail2))
    ensures TakeDigits(Pad(d.month, 2) + ("/" + tail3), 2) == Some((d.month, "/" + tail3))
    ensures TakeDigits(Pad(d.year, 4) + (" " + tail4), 4) == Some((d.year, " " + tail4))
    ensures TakeHour(Decimal(d.hour) + (":" + tail5)) == Some((d.hour, ":" + tail5))
    ensures TakeDigits(Pad(d.minute, 2) + ws, 2) == Some((d.minute, ws))
  {
    assert Pow10(2) == 100 && Pow10(4) == 10000;
    assert d.day < 100 by { assert DaysInMonth(d.year, d.month) <= 31; }
    TakeDigitsPad(d.day, 2, "/" + tail2);
    TakeDigitsPad(d.month, 2, "/" + tail3);
    TakeDigitsPad(d.year, 4, " " + tail4);
    TakeHourDecimal(d.hour, tail5);
    assert ws == [] || !IsDecimalDigit(ws[0]) by {
      if ws != [] { assert IsWhitespace(ws[0]); }
    }
    TakeDigitsPad(d.minute, 2, ws);
  }

  /** Reading an "HH:mm" key back gives the minute it was written from, so formatting
      the parsed key as "h:mm a" is the label of that minute. */
  lemma ParseFormatHHmm(c: ClockTime)
    requires IsValidClock(c.hour, c.minute)
    ensures ParseHHmm(FormatHHmm(c)) == Some(c)
  {
    TakeDigitsPad(c.hour, 2, ":" + Pad(c.minute, 2));
    TakeDigitsPad(c.minute, 2, []);
    assert Pad(c.minute, 2) + [] == Pad(c.minute, 2);
  }

  /** Two "HH:mm" keys are equal exactly when the minutes of the day are. */
  lemma FormatHHmmInjective(a: ClockTime, b: ClockTime)
    requires IsValidClock(a.hour, a.minute) && IsValidClock(b.hour, b.minute)
    ensures FormatHHmm(a) == FormatHHmm(b) <==> a == b
  {
    if FormatHHmm(a) == FormatHHmm(b) {
      PadPrefix(a.hour, b.hour, 2, ":" + Pad(a.minute, 2), ":" + Pad(b.minute, 2));
      assert Pad(a.minute, 2) == (":" + Pad(a.minute, 2))[1..];
      assert Pad(b.minute, 2) == (":" + Pad(b.minute, 2))[1..];
      PadPrefix(a.minute, b.minute, 2, [], []);
    }
  }

  /** Two "yyyy-MM-dd" keys are equal exactly when the dates fall on the same day. */
  lemma FormatDayInjective(a: Timestamp, b: Timestamp)
    requires 0 <= a.year <= 9999 && 0 <= b.year <= 9999
    ensures FormatDay(a) == FormatDay(b) <==> StartOfDay(a) == StartOfDay(b)
  {
    if FormatDay(a) == FormatDay(b) {
      var ta := "-" + (Pad(a.month, 2) + ("-" + Pad(a.day, 2)));
      var tb := "-" + (Pad(b.month, 2) + ("-" + Pad(b.day, 2)));
      PadPrefix(a.year, b.year, 4, ta, tb);
      assert ta[1..] == Pad(a.month, 2) + ("-" + Pad(a.day, 2));
      assert tb[1..] == Pad(b.month, 2) + ("-" + Pad(b.day, 2));
      PadPrefix(a.month, b.month, 2, "-" + Pad(a.day, 2), "-" + Pad(b.day, 2));
      assert ("-" + Pad(a.day, 2))[1..] == Pad(a.day, 2);
      assert ("-" + Pad(b.day, 2))[1..] == Pad(b.day, 2);
      PadPrefix(a.day, b.day, 2, [], []);
    }
  }

  /** Text split at its first colon: the parts before it and from it on are determined. */
  lemma SplitAtColon(da: string, ra: string, db: string, rb: string)
    requires ':' !in da && ':' !in db
    requires ra != [] && ra[0] == ':' && rb != [] && rb[0] == ':'
    requires da + ra == db + rb
    ensures da == db && ra == rb
  {
    var s := da + ra;
    assert s[|da|] == ':' && s[..|da|] == da;
    assert s[|db|] == ':' && s[..|db|] == db;
    IndexOfFirst(s, ':', |da|);
    IndexOfFirst(s, ':', |db|);
    assert ra == s[|da|..] && rb == s[|db|..];
  }

  function Suffix12(hour: int): string
  {
    if hour < 12 then " AM" else " PM"
  }

  function Hour12(hour: int): nat
  {
    if hour % 12 == 0 then 12 else hour % 12
  }

  /** Different minutes of the day get different "h:mm a" labels. */
  lemma Label12Injective(a: ClockTime, b: ClockTime)
    requires IsValidClock(a.hour, a.minute) && IsValidClock(b.hour, b.minute)
    requires Label12(a) == Label12(b)
    ensures a == b
  {
    var da, db := Decimal(Hour12(a.hour)), Decimal(Hour12(b.hour));
    var ma := Pad(a.minute, 2) + Suffix12(a.hour);
    var mb := Pad(b.minute, 2) + Suffix12(b.hour);
    assert da + (":" + ma) == db + (":" + mb);
    assert ':' !in da && ':' !in db by {
      assert forall i :: 0 <= i < |da| ==> IsDecimalDigit(da[i]);
      assert forall i :: 0 <= i < |db| ==> IsDecimalDigit(db[i]);
    }
    SplitAtColon(da, ":" + ma, db, ":" + mb);
    assert Hour12(a.hour) == Hour12(b.hour) by {
      DecimalValue(Hour12(a.hour));
      DecimalValue(Hour12(b.hour));
    }
    assert ma == (":" + ma)[1..] && mb == (":" + mb)[1..];
    PadPrefix(a.minute, b.minute, 2, Suffix12(a.hour), Suffix12(b.hour));
    HourFrom12(a.hour, b.hour);
  }

  /** The 12-hour number and the AM/PM suffix together give back the hour. */
  lemma HourFrom12(h1: int, h2: int)
    requires 0 <= h1 <= 23 && 0 <= h2 <= 23
    requires Hour12(h1) == Hour12(h2) && Suffix12(h1) == Suffix12(h2)
    ensures h1 == h2
  {
    assert Suffix12(h1)[1] == (if h1 < 12 then 'A' else 'P');
    assert Suffix12(h2)[1] == (if h2 < 12 then 'A' else 'P');
    assert h1 % 12 == (if h1 < 12 then h1 else h1 - 12);
    assert h2 % 12 == (if h2 < 12 then h2 else h2 - 12);
  }

  lemma Label1430()
    ensures Label12(ClockTime(14, 30)) == "2:30 PM"
  {
    assert Decimal(2) == "2" && Decimal(3) == "3";
    assert Pad(30, 2) == "30" by { assert Decimal(30) == Decimal(3) + "0"; }
  }

  lemma Label0800()
    ensures Label12(ClockTime(8, 0)) == "8:00 AM"
  {
    assert Decimal(8) == "8" && Decimal(0) == "0";
    assert Pad(0, 2) == "00";
  }

  lemma Label0900()
    ensures Label12(ClockTime(9, 0)) == "9:00 AM"
  {
    assert Decimal(9) == "9" && Decimal(0) == "0";
    assert Pad(0, 2) == "00";
  }

  lemma Label0005()
    ensures Label12(ClockTime(0, 5)) == "12:05 AM"
  {
    assert Decimal(12) == "12" by { assert Decimal(1) == "1"; }
    assert Decimal(5) == "5" && Pad(5, 2) == "05";
  }

  lemma Label1200()
    ensures Label12(ClockTime(12, 0)) == "12:00 PM"
  {
    assert Decimal(12) == "12" by { assert Decimal(1) == "1"; }
    assert Decimal(0) == "0" && Pad(0, 2) == "00";
  }

  /** The label of 14:30 is "2:30 PM", of 08:00 "8:00 AM", of 00:05 "12:05 AM" and of 12:00 "12:00 PM". */
  lemma Label12Examples()
    ensures Label12(ClockTime(14, 30)) == "2:30 PM"
    ensures Label12(ClockTime(8, 0)) == "8:00 AM"
    ensures Label12(ClockTime(9, 0)) == "9:00 AM"
    ensures Label12(ClockTime(0, 5)) == "12:05 AM"
    ensures Label12(ClockTime(12, 0)) == "12:00 PM"
  {
    Label1430();
    Label0800();
    Label0900();
    Label0005();
    Label1200();
  }
}

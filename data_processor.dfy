/**
 * The dashboard's data pipeline, from the text of the sensor export to the
 * figures the dashboard shows: the records inside opening hours, the total of
 * entering visitors, the overall capture rate, the per-day rollup, the fixed
 * average visit duration and the three peak hours.
 */
module DataProcessor {
  import opened JsRuntime
  import opened JsDate
  import opened Visitor
  import opened DateUtils
  import opened DateFormat
  import opened RowParsing
  import opened DailyRollup
  import opened PeakHours

  /** The TypeError the opening-hours test raises on an Invalid Date (the weekday is NaN,
      so there is no table entry to read `open` from); the pipeline rejects with it.
      `recordIndex` is the position of the first such record among the parsed rows. */
  datatype PipelineError = InvalidTimestamp(recordIndex: nat)

  /** The dashboard shows this fixed figure, in minutes. */
  const AverageVisitDuration: int := 45

  /** The opening-hours test of one record that carries a real date. */
  predicate IsOpen(r: VisitorData)
  {
    r.timestamp.ValidDate? && IsWithinOpeningHours(r.timestamp.dt)
  }

  /** The first record whose timestamp is an Invalid Date, if any. */
  function FirstUndated(records: seq<VisitorData>): (i: Option<nat>)
    ensures i.None? <==> AllDated(records)
    ensures i.Some? ==> i.value < |records| && records[i.value].timestamp.InvalidDate? &&
                        AllDated(records[..i.value])
  {
    if records == [] then None
    else if records[0].timestamp.InvalidDate? then Some(0)
    else
      match FirstUndated(records[1..])
      case None => None
      case Some(i) =>
        assert records[..i + 1] == [records[0]] + records[1..][..i];
        Some(i + 1)
  }

  /** The `isWithinOpeningHours` filter: keep the records inside opening hours, in order.
      The test runs on every record in turn, so the first Invalid Date aborts the filter. */
  function OpeningHoursFilter(records: seq<VisitorData>): (r: Result<seq<VisitorData>, PipelineError>)
  {
    match FirstUndated(records)
    case Some(i) => Failure(InvalidTimestamp(i))
    case None => Success(Filter(records, IsOpen))
  }

  /** `fetchAndProcessData` of src/utils/dataProcessor.ts without the download: what the
      pipeline resolves to for the export `text`. */
  function Process(text: string): Result<ProcessedData, PipelineError>
  {
    match OpeningHoursFilter(ParseExport(text))
    case Failure(e) => Failure(e)
    case Success(open) =>
      assert AllDated(open) by { OpenRecordsDated(ParseExport(text)); }
      var totalVisitors := SumNums(Entering(open));
      var totalPassersby := SumNums(Passersby(open));
      TrafficTimesValid(open);
      Success(ProcessedData(
        open,
        Daily(open),
        totalVisitors,
        CaptureRate(totalVisitors, totalPassersby),
        AverageVisitDuration,
        PeakHoursOf(HourlyTraffic(open))))
  }

  /** `fetchAndProcessData` given the downloaded text: each stage in the source's order,
      the dictionary reductions done in place. */
  method FetchAndProcessData(text: string) returns (result: Result<ProcessedData, PipelineError>)
    ensures result == Process(text)
  {
    var data := ParseExport(text);
    var filtered := OpeningHoursFilter(data);
    if filtered.Failure? {
      return Failure(filtered.error);
    }
    var openingHoursData := filtered.value;
    OpenRecordsDated(data);
    var totalVisitors := SumNums(Entering(openingHoursData));
    var totalPassersby := SumNums(Passersby(openingHoursData));
    var captureRate := CaptureRate(totalVisitors, totalPassersby);
    var dailyData := RollupDays(openingHoursData);
    var hourlyTraffic := TallyTraffic(openingHoursData);
    TrafficTimesValid(openingHoursData);
    var peakHours := PeakHoursOf(hourlyTraffic);
    result := Success(ProcessedData(openingHoursData, dailyData, totalVisitors, captureRate,
                                    AverageVisitDuration, peakHours));
  }

  // ---------------------------------------------------------------------------
  // Properties

  /** The filter succeeds exactly when every record has a real date; then it keeps the
      records inside opening hours and only those, every one dated. */
  lemma OpenRecordsDated(records: seq<VisitorData>)
    ensures OpeningHoursFilter(records).Failure? <==>
            exists i :: 0 <= i < |records| && records[i].timestamp.InvalidDate?
    ensures OpeningHoursFilter(records).Success? ==>
              AllDated(OpeningHoursFilter(records).value) &&
              forall r :: r in OpeningHoursFilter(records).value <==> r in records && IsOpen(r)
  {
    var open := Filter(records, IsOpen);
    if AllDated(records) {
      assert forall j :: 0 <= j < |open| ==> open[j] in open;
    }
  }

  /** The filter keeps the records' order: filtering two runs of records is filtering
      each, one after the other. */
  lemma FilterKeepsOrder(a: seq<VisitorData>, b: seq<VisitorData>)
    requires AllDated(a) && AllDated(b)
    ensures AllDated(a + b)
    ensures OpeningHoursFilter(a + b).Success?
    ensures OpeningHoursFilter(a + b).value ==
            OpeningHoursFilter(a).value + OpeningHoursFilter(b).value
  {
    FilterConcat(a, b, IsOpen);
  }

  /** What the dashboard receives: the total of entering visitors is also the sum of
      the daily bars (and likewise for passers-by), the overall capture rate is taken
      from those totals, the daily list and the peak hours are built from the kept
      records only, there are at most three peaks, and the visit duration is 45. */
  lemma ProcessedFigures(text: string)
    requires Process(text).Success?
    ensures var p := Process(text).value;
            AllDated(p.hourlyData) &&
            p.hourlyData == OpeningHoursFilter(ParseExport(text)).value &&
            (forall r :: r in p.hourlyData <==> r in ParseExport(text) && IsOpen(r)) &&
            p.totalVisitors == SumNums(Entering(p.hourlyData)) &&
            p.totalVisitors == SumNums(Visitors(p.dailyData)) &&
            SumNums(DayPassersby(p.dailyData)) == SumNums(Passersby(p.hourlyData)) &&
            p.captureRate == CaptureRate(p.totalVisitors, SumNums(DayPassersby(p.dailyData))) &&
            p.dailyData == Daily(p.hourlyData) &&
            |p.peakHours| == Min(3, |HourlyTraffic(p.hourlyData)|) &&
            p.averageVisitDuration == 45
  {
    var records := ParseExport(text);
    OpenRecordsDated(records);
    var open := OpeningHoursFilter(records).value;
    DailySums(open);
    TrafficTimesValid(open);
    PeakLabels(HourlyTraffic(open));
  }

  /** With non-negative counts the overall capture rate is a percentage between 0 and
      100, and NaN only when nobody at all entered or passed (0 / 0). */
  lemma OverallCaptureRate(text: string)
    requires Process(text).Success?
    requires CountsNonNegative(Process(text).value.hourlyData)
    ensures var p := Process(text).value;
            var passed := SumNums(Passersby(p.hourlyData));
            p.totalVisitors.Int? && passed.Int? &&
            (p.totalVisitors.value + passed.value == 0 <==> p.captureRate == RateNaN) &&
            (p.totalVisitors.value + passed.value > 0 ==>
               p.captureRate.RateValue? && 0 <= p.captureRate.hundredths <= 10000)
  {
    var p := Process(text).value;
    assert p.totalVisitors == SumNums(Entering(p.hourlyData));
    assert p.captureRate == CaptureRate(p.totalVisitors, SumNums(Passersby(p.hourlyData)));
    TotalsRate(p.hourlyData);
  }

  /** With non-negative counts and at least one reading inside opening hours, the peak
      percentages are all NaN when nobody entered (every tally is 0 / 0); otherwise the
      first is exactly 100 and each lies between 0 and 100. */
  lemma PeakPercentagesOfExport(text: string)
    requires Process(text).Success?
    requires CountsNonNegative(Process(text).value.hourlyData)
    requires Process(text).value.hourlyData != []
    ensures var p := Process(text).value;
            p.totalVisitors == Int(0) ==>
              forall i :: 0 <= i < |p.peakHours| ==> p.peakHours[i].percentage == RateNaN
    ensures var p := Process(text).value;
            p.totalVisitors != Int(0) ==>
              |p.peakHours| >= 1 && p.peakHours[0].percentage == RateValue(10000) &&
              forall i :: 0 <= i < |p.peakHours| ==>
                p.peakHours[i].percentage.RateValue? && 0 <= p.peakHours[i].percentage.hundredths <= 10000
  {
    ProcessedParts(text);
    PeakPercentagesOfRecords(Process(text).value.hourlyData);
  }

  /** The figures of a successful run, each from the kept records. */
  lemma ProcessedParts(text: string)
    requires Process(text).Success?
    ensures var p := Process(text).value;
            AllDated(p.hourlyData) &&
            p.totalVisitors == SumNums(Entering(p.hourlyData)) &&
            ValidTimes(HourlyTraffic(p.hourlyData)) &&
            p.peakHours == PeakHoursOf(HourlyTraffic(p.hourlyData))
  {
    OpenRecordsDated(ParseExport(text));
    TrafficTimesValid(Process(text).value.hourlyData);
  }

  /** The peak percentages of non-empty records with non-negative counts: all NaN when
      nobody entered, otherwise the first is 100 and each lies between 0 and 100. */
  lemma PeakPercentagesOfRecords(open: seq<VisitorData>)
    requires AllDated(open) && CountsNonNegative(open) && open != []
    ensures ValidTimes(HourlyTraffic(open))
    ensures var peaks := PeakHoursOf(HourlyTraffic(open));
            SumNums(Entering(open)) == Int(0) ==>
              forall i :: 0 <= i < |peaks| ==> peaks[i].percentage == RateNaN
    ensures var peaks := PeakHoursOf(HourlyTraffic(open));
            SumNums(Entering(open)) != Int(0) ==>
              |peaks| >= 1 && peaks[0].percentage == RateValue(10000) &&
              forall i :: 0 <= i < |peaks| ==>
                peaks[i].percentage.RateValue? && 0 <= peaks[i].percentage.hundredths <= 10000
  {
    var slots := HourlyTraffic(open);
    TrafficTimesValid(open);
    TrafficNonEmpty(open);
    TalliesOfRecords(open);
    TalliesZero(open);
    SumNumsZero(Entering(open));
    MaxNumZero(Counts(slots));
    PeakPercentages(slots);
  }

  /** The capture rate of the totals of records with non-negative counts. */
  lemma TotalsRate(open: seq<VisitorData>)
    requires CountsNonNegative(open)
    ensures var v, q := SumNums(Entering(open)), SumNums(Passersby(open));
            var rate := CaptureRate(v, q);
            v.Int? && q.Int? && v.value >= 0 && q.value >= 0 &&
            (v.value + q.value == 0 <==> rate == RateNaN) &&
            (v.value + q.value > 0 ==> rate.RateValue? && 0 <= rate.hundredths <= 10000)
  {
    SumNumsNonNegative(Entering(open));
    SumNumsNonNegative(Passersby(open));
    var v, q := SumNums(Entering(open)).value, SumNums(Passersby(open)).value;
    if v + q > 0 {
      Ratio100Bounds(v, v + q);
    }
  }

  /** The pipeline rejects exactly when some data row's timestamp does not read as a
      date, wherever that row is and whatever the opening hours are. */
  lemma RejectsOnInvalidDate(text: string)
    ensures Process(text).Failure? <==>
            exists i :: 0 <= i < |ParseExport(text)| && ParseExport(text)[i].timestamp.InvalidDate?
  {
    OpenRecordsDated(ParseExport(text));
  }

  /** Filtering the kept records again keeps them all: the dashboard's `hourlyData`
      is already exactly the opening-hours set. */
  lemma FilterIdempotentOnOutput(records: seq<VisitorData>)
    requires OpeningHoursFilter(records).Success?
    ensures OpeningHoursFilter(OpeningHoursFilter(records).value) == OpeningHoursFilter(records)
  {
    OpenRecordsDated(records);
    FilterIdempotent(records, IsOpen);
  }

  /** Two readings at 9:00 on Friday 15 March 2024, one of 10 visitors and 5 passers-by
      and one of zeros: both are kept, they make one day with 10 visitors, 5 passers-by
      and a 66.67 capture rate, and one peak, "9:00 AM" at 100.00. */
  lemma TwoReadingsAtNine(a: VisitorData, b: VisitorData)
    requires a.timestamp == ValidDate(DateTime(2024, 3, 15, 9, 0)) && b.timestamp == a.timestamp
    requires a.visitorsEntering == Int(10) && a.passersby == Int(5)
    requires b.visitorsEntering == Int(0) && b.passersby == Int(0)
    ensures OpeningHoursFilter([a, b]) == Success([a, b])
    ensures Daily([a, b]) == [DailyData(DateTime(2024, 3, 15, 0, 0), Int(10), Int(5), RateValue(6667))]
    ensures ValidTimes(HourlyTraffic([a, b])) &&
            PeakHoursOf(HourlyTraffic([a, b])) == [PeakHour("9:00 AM", RateValue(10000))]
  {
    TwoReadingsKept(a, b);
    TwoReadingsDaily(a, b);
    TwoReadingsPeak(a, b);
  }

  lemma TwoReadingsKept(a: VisitorData, b: VisitorData)
    requires a.timestamp == ValidDate(DateTime(2024, 3, 15, 9, 0)) && b.timestamp == a.timestamp
    ensures OpeningHoursFilter([a, b]) == Success([a, b])
  {
    CalendarExamples();
    assert [a, b][1..] == [b];
    assert [b][1..] == [];
    assert Filter([a, b], IsOpen) == [a, b];
  }

  /** Two records of one day make one entry holding both records' counts. */
  lemma SameDayTwice(a: VisitorData, b: VisitorData)
    requires a.timestamp.ValidDate? && b.timestamp.ValidDate? && DayOf(a) == DayOf(b)
    ensures GroupByDay([a, b]) ==
            [DailyData(DayOf(a), Add(Add(Int(0), a.visitorsEntering), b.visitorsEntering),
                       Add(Add(Int(0), a.passersby), b.passersby), RateValue(0))]
  {
    var day := DayOf(a);
    var first := [DailyData(day, Add(Int(0), a.visitorsEntering), Add(Int(0), a.passersby), RateValue(0))];
    assert GroupByDay([a]) == first by {
      assert [a][..0] == [];
      assert AddToDay([], a) == first;
    }
    assert [a, b][..1] == [a];
    assert DayIndex(first, day) == 0;
  }

  lemma TwoReadingsDaily(a: VisitorData, b: VisitorData)
    requires a.timestamp == ValidDate(DateTime(2024, 3, 15, 9, 0)) && b.timestamp == a.timestamp
    requires a.visitorsEntering == Int(10) && a.passersby == Int(5)
    requires b.visitorsEntering == Int(0) && b.passersby == Int(0)
    ensures Daily([a, b]) == [DailyData(DateTime(2024, 3, 15, 0, 0), Int(10), Int(5), RateValue(6667))]
  {
    var day: Timestamp := DateTime(2024, 3, 15, 0, 0);
    TwoReadingsGrouped(a, b);
    RateOfOneDay(DailyData(day, Int(10), Int(5), RateValue(0)));
    CaptureRateExamples();
  }

  lemma TwoReadingsGrouped(a: VisitorData, b: VisitorData)
    requires a.timestamp == ValidDate(DateTime(2024, 3, 15, 9, 0)) && b.timestamp == a.timestamp
    requires a.visitorsEntering == Int(10) && a.passersby == Int(5)
    requires b.visitorsEntering == Int(0) && b.passersby == Int(0)
    ensures GroupByDay([a, b]) == [DailyData(DateTime(2024, 3, 15, 0, 0), Int(10), Int(5), RateValue(0))]
  {
    assert DayOf(a) == DateTime(2024, 3, 15, 0, 0) == DayOf(b);
    SameDayTwice(a, b);
  }

  /** A single day gets the capture rate of its own sums. */
  lemma RateOfOneDay(d: DailyData)
    ensures WithCaptureRates([d]) == [d.(captureRate := CaptureRate(d.visitors, d.passersby))]
  {
  }

  lemma TwoReadingsPeak(a: VisitorData, b: VisitorData)
    requires a.timestamp == ValidDate(DateTime(2024, 3, 15, 9, 0)) && b.timestamp == a.timestamp
    requires a.visitorsEntering == Int(10) && b.visitorsEntering == Int(0)
    ensures ValidTimes(HourlyTraffic([a, b])) &&
            PeakHoursOf(HourlyTraffic([a, b])) == [PeakHour("9:00 AM", RateValue(10000))]
  {
    var t := ClockTime(9, 0);
    TwoReadingsTally(a, b);
    SinglePeak(t, 10);
    Label0900();
  }

  /** Two records of one minute make one tally of both records' visitors. */
  lemma SameMinuteTwice(a: VisitorData, b: VisitorData)
    requires a.timestamp.ValidDate? && b.timestamp.ValidDate? && SlotOf(a) == SlotOf(b)
    ensures HourlyTraffic([a, b]) ==
            [Slot(SlotOf(a), Add(Or0(Some(Add(Or0(None), a.visitorsEntering))), b.visitorsEntering))]
  {
    var t := SlotOf(a);
    var first := [Slot(t, Add(Or0(None), a.visitorsEntering))];
    assert HourlyTraffic([a]) == first by {
      assert [a][..0] == [];
      assert AddToSlot([], a) == first;
    }
    assert [a, b][..1] == [a];
    assert SlotIndex(first, t) == 0;
  }

  lemma TwoReadingsTally(a: VisitorData, b: VisitorData)
    requires a.timestamp == ValidDate(DateTime(2024, 3, 15, 9, 0)) && b.timestamp == a.timestamp
    requires a.visitorsEntering == Int(10) && b.visitorsEntering == Int(0)
    ensures HourlyTraffic([a, b]) == [Slot(ClockTime(9, 0), Int(10))]
  {
    assert SlotOf(a) == ClockTime(9, 0) == SlotOf(b);
    SameMinuteTwice(a, b);
    assert Add(Or0(None), Int(10)) == Int(10);
    assert Add(Or0(Some(Int(10))), Int(0)) == Int(10);
  }

  /** A single tally is the one peak, at 100.00. */
  lemma SinglePeak(t: ClockTime, n: nat)
    requires IsValidClock(t.hour, t.minute) && n > 0
    ensures ValidTimes([Slot(t, Int(n))])
    ensures PeakHoursOf([Slot(t, Int(n))]) == [PeakHour(Label12(t), RateValue(10000))]
  {
    var slots := [Slot(t, Int(n))];
    assert SortByCount(slots) == slots by {
      assert slots[1..] == [];
    }
    assert Peaks(slots) == slots;
    assert MaxNum(Counts(slots)) == Int(n) by {
      assert Counts(slots) == [Int(n)];
    }
    Ratio100Bounds(n, n);
  }
}

/**
 * The records the dashboard works with: one sensor reading per CSV row, one
 * rolled-up day, one peak time slot, and the result handed to the dashboard.
 */
module Visitor {
  import opened JsRuntime
  import opened JsDate

  /** One row of the sensor export. Counts are whatever `parseInt` made of the cells. */
  datatype VisitorData = VisitorData(
    timestamp: Date,
    visitorsEntering: Num,
    visitorsLeaving: Num,
    menEntering: Num,
    menLeaving: Num,
    womenEntering: Num,
    womenLeaving: Num,
    groupEntering: Num,
    groupLeaving: Num,
    passersby: Num)

  /** One calendar day: its midnight, the sums of entering visitors and passers-by,
      and the capture rate as a percentage. */
  datatype DailyData = DailyData(date: Timestamp, visitors: Num, passersby: Num, captureRate: Rate)

  /** A busy time slot, labelled "h:mm a", and its traffic as a percentage of the busiest. */
  datatype PeakHour = PeakHour(time: string, percentage: Rate)

  datatype ProcessedData = ProcessedData(
    hourlyData: seq<VisitorData>,
    dailyData: seq<DailyData>,
    totalVisitors: Num,
    captureRate: Rate,
    averageVisitDuration: int,
    peakHours: seq<PeakHour>)

  /** Every record carries a real date (as after the opening-hours filter succeeded). */
  predicate AllDated(records: seq<VisitorData>)
  {
    forall i :: 0 <= i < |records| ==> records[i].timestamp.ValidDate?
  }

  /** Every entering and passer-by count read as a number that is not negative. */
  predicate CountsNonNegative(records: seq<VisitorData>)
  {
    forall i :: 0 <= i < |records| ==>
      records[i].visitorsEntering.Int? && records[i].visitorsEntering.value >= 0 &&
      records[i].passersby.Int? && records[i].passersby.value >= 0
  }

  /** The `visitorsEntering` column, in record order. */
  function Entering(records: seq<VisitorData>): (r: seq<Num>)
    ensures |r| == |records|
    ensures forall i :: 0 <= i < |records| ==> r[i] == records[i].visitorsEntering
  {
    seq(|records|, i requires 0 <= i < |records| => records[i].visitorsEntering)
  }

  /** The `passersby` column, in record order. */
  function Passersby(records: seq<VisitorData>): (r: seq<Num>)
    ensures |r| == |records|
    ensures forall i :: 0 <= i < |records| ==> r[i] == records[i].passersby
  {
    seq(|records|, i requires 0 <= i < |records| => records[i].passersby)
  }

  /** `visitors / (visitors + passersby) * 100` rounded by `toFixed(2)`. */
  function CaptureRate(visitors: Num, passersby: Num): Rate
  {
    Ratio100(visitors, Add(visitors, passersby))
  }

  /** 80 entering and 20 passing give 80.00; 10 and 5 give 66.67; 1 and 2 give 33.33;
      nobody at all gives NaN (0 / 0), as does an unreadable count. */
  lemma CaptureRateExamples()
    ensures CaptureRate(Int(80), Int(20)) == RateValue(8000)
    ensures CaptureRate(Int(10), Int(5)) == RateValue(6667)
    ensures CaptureRate(Int(1), Int(2)) == RateValue(3333)
    ensures CaptureRate(Int(0), Int(0)) == RateNaN
    ensures CaptureRate(NaN, Int(5)) == RateNaN
  {
    assert RoundHundredths(80, 100) == 1600100 / 200 == 8000;
    assert RoundHundredths(10, 15) == 200015 / 30 == 6667;
    assert RoundHundredths(1, 3) == 20003 / 6 == 3333;
  }
}

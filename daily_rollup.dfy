/**
 * The per-day rollup of the dashboard: records are grouped by the calendar day
 * of their timestamp (the "yyyy-MM-dd" key, which names the day's midnight
 * exactly, see DateFormat.FormatDayInjective); each day sums its entering
 * visitors and its passers-by, days are listed in the order their first record
 * appeared, and each day then gets its own capture rate.
 */
module DailyRollup {
  import opened JsRuntime
  import opened JsDate
  import opened Visitor
  import opened KeyOrder

  /** The day a record is counted under: its date at midnight. */
  function DayOf(r: VisitorData): Timestamp
    requires r.timestamp.ValidDate?
  {
    StartOfDay(r.timestamp.dt)
  }

  /** The day of every record, in record order. */
  function DayKeys(records: seq<VisitorData>): (keys: seq<Timestamp>)
    requires AllDated(records)
    ensures |keys| == |records|
    ensures forall i :: 0 <= i < |records| ==> keys[i] == DayOf(records[i])
  {
    seq(|records|, i requires 0 <= i < |records| => DayOf(records[i]))
  }

  function Dates(days: seq<DailyData>): (dates: seq<Timestamp>)
    ensures |dates| == |days|
    ensures forall i :: 0 <= i < |days| ==> dates[i] == days[i].date
  {
    seq(|days|, i requires 0 <= i < |days| => days[i].date)
  }

  function Visitors(days: seq<DailyData>): (r: seq<Num>)
    ensures |r| == |days|
    ensures forall i :: 0 <= i < |days| ==> r[i] == days[i].visitors
  {
    seq(|days|, i requires 0 <= i < |days| => days[i].visitors)
  }

  function DayPassersby(days: seq<DailyData>): (r: seq<Num>)
    ensures |r| == |days|
    ensures forall i :: 0 <= i < |days| ==> r[i] == days[i].passersby
  {
    seq(|days|, i requires 0 <= i < |days| => days[i].passersby)
  }

  /** Where `day` sits in `days`, or |days| when it is absent. */
  function DayIndex(days: seq<DailyData>, day: Timestamp): (i: nat)
    ensures i <= |days|
    ensures i < |days| ==> days[i].date == day
    ensures forall j :: 0 <= j < i ==> days[j].date != day
  {
    if days == [] then 0
    else if days[0].date == day then 0
    else 1 + DayIndex(days[1..], day)
  }

  /** One step of the reduce: open the record's day with zero counts if it has no entry
      yet, then add the record's entering visitors and passers-by to it. */
  function AddToDay(days: seq<DailyData>, r: VisitorData): seq<DailyData>
    requires r.timestamp.ValidDate?
  {
    var day := DayOf(r);
    var i := DayIndex(days, day);
    var present := if i < |days| then days else days + [DailyData(day, Int(0), Int(0), RateValue(0))];
    present[i := present[i].(visitors := Add(present[i].visitors, r.visitorsEntering),
                             passersby := Add(present[i].passersby, r.passersby))]
  }

  /** The reduce over all records, before capture rates are set. */
  function GroupByDay(records: seq<VisitorData>): seq<DailyData>
    requires AllDated(records)
  {
    if records == [] then []
    else AddToDay(GroupByDay(records[..|records| - 1]), records[|records| - 1])
  }

  /** The forEach that sets each day's capture rate from its own sums. */
  function WithCaptureRates(days: seq<DailyData>): (rated: seq<DailyData>)
    ensures |rated| == |days|
    ensures forall i :: 0 <= i < |days| ==>
              rated[i] == days[i].(captureRate := CaptureRate(days[i].visitors, days[i].passersby))
  {
    seq(|days|, i requires 0 <= i < |days| =>
      days[i].(captureRate := CaptureRate(days[i].visitors, days[i].passersby)))
  }

  /** `Object.values(dailyData)` after the rates are set. */
  function Daily(records: seq<VisitorData>): seq<DailyData>
    requires AllDated(records)
  {
    WithCaptureRates(GroupByDay(records))
  }

  /** The records of one day, in record order. */
  function RecordsOn(records: seq<VisitorData>, day: Timestamp): (on: seq<VisitorData>)
    requires AllDated(records)
    ensures AllDated(on)
    ensures forall i :: 0 <= i < |on| ==> DayOf(on[i]) == day
    ensures forall r :: r in on ==> r in records
  {
    if records == [] then []
    else
      var last := records[|records| - 1];
      RecordsOn(records[..|records| - 1], day) + (if DayOf(last) == day then [last] else [])
  }

  // ---------------------------------------------------------------------------
  // The imperative rollup

  /** The dictionary `acc`, whose keys were stored in the order `order`, holds the
      entries `days`, in that order. */
  ghost predicate Mirrors(acc: map<Timestamp, DailyData>, order: seq<Timestamp>, days: seq<DailyData>)
  {
    |order| == |days| && Distinct(order) &&
    (forall k :: k in acc <==> k in order) &&
    (forall i :: 0 <= i < |order| ==> days[i].date == order[i] && acc[order[i]] == days[i])
  }

  /** Grouping one more record of a prefix is one more step of the reduce. */
  lemma GroupPrefixStep(records: seq<VisitorData>, n: nat)
    requires AllDated(records) && n < |records|
    ensures AllDated(records[..n]) && AllDated(records[..n + 1])
    ensures GroupByDay(records[..n + 1]) == AddToDay(GroupByDay(records[..n]), records[n])
  {
    assert records[..n + 1][..n] == records[..n];
  }

  /** One step of the reduce on the dictionary keeps it in step with `AddToDay`. */
  lemma MirrorStep(acc: map<Timestamp, DailyData>, order: seq<Timestamp>, days: seq<DailyData>,
                   r: VisitorData, acc2: map<Timestamp, DailyData>, order2: seq<Timestamp>)
    requires r.timestamp.ValidDate? && Mirrors(acc, order, days)
    requires var day := DayOf(r);
             var base := if day in acc then acc else acc[day := DailyData(day, Int(0), Int(0), RateValue(0))];
             order2 == (if day in acc then order else order + [day]) &&
             acc2 == base[day := base[day].(visitors := Add(base[day].visitors, r.visitorsEntering),
                                            passersby := Add(base[day].passersby, r.passersby))]
    ensures Mirrors(acc2, order2, AddToDay(days, r))
  {
    var day := DayOf(r);
    var i := DayIndex(days, day);
    var next := AddToDay(days, r);
    if i < |days| {
      assert order[i] == day && day in acc;
      assert forall j :: 0 <= j < |order| && j != i ==> order[j] != day;
      assert forall j :: 0 <= j < |next| && j != i ==> next[j] == days[j];
    } else {
      assert day !in order by {
        assert forall j :: 0 <= j < |order| ==> order[j] == days[j].date;
      }
      assert forall j :: 0 <= j < |days| ==> next[j] == days[j];
    }
  }

  /** The `dailyData` reduce of src/utils/dataProcessor.ts: reduce the records into a
      dictionary keyed by day; `order` is the order in which the keys were stored. */
  method ReduceByDay(records: seq<VisitorData>) returns (acc: map<Timestamp, DailyData>, order: seq<Timestamp>)
    requires AllDated(records)
    ensures Mirrors(acc, order, GroupByDay(records))
  {
    acc, order := map[], [];
    ghost var grouped: seq<DailyData> := [];
    for n := 0 to |records|
      invariant grouped == GroupByDay(records[..n])
      invariant Mirrors(acc, order, grouped)
    {
      var entry := records[n];
      var day := StartOfDay(entry.timestamp.dt);
      ghost var acc0, order0 := acc, order;
      if day !in acc {
        acc := acc[day := DailyData(day, Int(0), Int(0), RateValue(0))];
        order := order + [day];
      }
      acc := acc[day := acc[day].(visitors := Add(acc[day].visitors, entry.visitorsEntering),
                                  passersby := Add(acc[day].passersby, entry.passersby))];
      MirrorStep(acc0, order0, grouped, entry, acc, order);
      GroupPrefixStep(records, n);
      grouped := AddToDay(grouped, entry);
    }
    assert records[..|records|] == records;
  }

  /** The `forEach` over `Object.values(dailyData)`: set every day's capture rate from
      its own sums, then list the dictionary's values in key order. */
  method SetCaptureRates(acc: map<Timestamp, DailyData>, order: seq<Timestamp>, ghost grouped: seq<DailyData>)
    returns (days: seq<DailyData>)
    requires Mirrors(acc, order, grouped)
    ensures days == WithCaptureRates(grouped)
  {
    var rates := acc;
    ghost var rated := WithCaptureRates(grouped);
    for n := 0 to |order|
      invariant forall k :: k in rates <==> k in order
      invariant forall i :: 0 <= i < n ==> rates[order[i]] == rated[i]
      invariant forall i :: n <= i < |order| ==> rates[order[i]] == grouped[i]
    {
      var day := order[n];
      rates := rates[day := rates[day].(captureRate := CaptureRate(rates[day].visitors, rates[day].passersby))];
    }
    days := seq(|order|, i requires 0 <= i < |order| => rates[order[i]]);
    KeyOrderValues(rates, order, rated, days);
  }

  /** The `dailyData` reduce and its rates: the daily list the dashboard shows. */
  method RollupDays(records: seq<VisitorData>) returns (days: seq<DailyData>)
    requires AllDated(records)
    ensures days == Daily(records)
  {
    var acc, order := ReduceByDay(records);
    days := SetCaptureRates(acc, order, GroupByDay(records));
  }

  /** Listing a dictionary's values in key order gives the entries it mirrors. */
  lemma KeyOrderValues(acc: map<Timestamp, DailyData>, order: seq<Timestamp>,
                       entries: seq<DailyData>, values: seq<DailyData>)
    requires |order| == |entries| == |values|
    requires forall k :: k in order ==> k in acc
    requires forall i :: 0 <= i < |order| ==> acc[order[i]] == entries[i]
    requires forall i :: 0 <= i < |order| ==> values[i] == acc[order[i]]
    ensures values == entries
  {
  }

  // ---------------------------------------------------------------------------
  // Properties of the rollup

  lemma GroupStep(records: seq<VisitorData>)
    requires AllDated(records) && records != []
    ensures AllDated(records[..|records| - 1])
    ensures DayKeys(records) == DayKeys(records[..|records| - 1]) + [DayOf(records[|records| - 1])]
    ensures Entering(records) == Entering(records[..|records| - 1]) + [records[|records| - 1].visitorsEntering]
    ensures Passersby(records) == Passersby(records[..|records| - 1]) + [records[|records| - 1].passersby]
  {
  }

  /** Adding one term at the end of a column adds it to the column's sum. */
  lemma SumSnoc(xs: seq<Num>, x: Num)
    ensures SumNums(xs + [x]) == Add(SumNums(xs), x)
  {
    assert (xs + [x])[..|xs|] == xs;
  }

  /** Adding `v` to one term adds `v` to the sum. */
  lemma {:induction false} SumUpdate(xs: seq<Num>, i: nat, v: Num)
    requires i < |xs|
    ensures SumNums(xs[i := Add(xs[i], v)]) == Add(SumNums(xs), v)
    decreases |xs|
  {
    var n := |xs| - 1;
    var ys := xs[i := Add(xs[i], v)];
    assert ys[..n] == if i == n then xs[..n] else xs[..n][i := Add(xs[i], v)];
    if i == n {
      AddAssociative(SumNums(xs[..n]), xs[n], v);
    } else {
      SumUpdate(xs[..n], i, v);
      AddAssociative(SumNums(xs[..n]), v, xs[n]);
      AddCommutative(v, xs[n]);
      AddAssociative(SumNums(xs[..n]), xs[n], v);
    }
  }

  lemma RecordsOnNone(records: seq<VisitorData>, day: Timestamp)
    requires AllDated(records) && day !in DayKeys(records)
    ensures RecordsOn(records, day) == []
    decreases |records|
  {
    if records != [] {
      GroupStep(records);
      RecordsOnNone(records[..|records| - 1], day);
    }
  }

  /** The days are listed once each, in the order in which their first record came:
      exactly the distinct days of the records, by first appearance. */
  lemma {:induction false} GroupedDates(records: seq<VisitorData>)
    requires AllDated(records)
    ensures Dates(GroupByDay(records)) == FirstSeen(DayKeys(records))
  {
    if records != [] {
      var init := records[..|records| - 1];
      var last := records[|records| - 1];
      GroupStep(records);
      GroupedDates(init);
      var day := DayOf(last);
      AddToDayDates(GroupByDay(init), last);
      assert FirstSeen(DayKeys(records)) ==
             if day in FirstSeen(DayKeys(init)) then FirstSeen(DayKeys(init))
             else FirstSeen(DayKeys(init)) + [day];
    }
  }

  /** One step of the reduce lists the record's day at the end when it is new and
      leaves the dates alone otherwise. */
  lemma AddToDayDates(days: seq<DailyData>, r: VisitorData)
    requires r.timestamp.ValidDate?
    ensures Dates(AddToDay(days, r)) ==
            if DayOf(r) in Dates(days) then Dates(days) else Dates(days) + [DayOf(r)]
  {
    var k := DayIndex(days, DayOf(r));
    AddToDayShape(days, r);
    if k < |days| {
      assert Dates(days)[k] == DayOf(r);
      assert Dates(AddToDay(days, r)) == Dates(days);
    } else {
      assert DayOf(r) !in Dates(days);
      assert Dates(AddToDay(days, r)) == Dates(days) + [DayOf(r)];
    }
  }

  /** Setting capture rates leaves the days and their sums alone. */
  lemma DailyDates(records: seq<VisitorData>)
    requires AllDated(records)
    ensures Dates(Daily(records)) == FirstSeen(DayKeys(records))
    ensures Distinct(Dates(Daily(records)))
    ensures forall day :: day in Dates(Daily(records)) <==> day in DayKeys(records)
  {
    GroupedDates(records);
    assert Dates(Daily(records)) == Dates(GroupByDay(records));
    FirstSeenProperties(DayKeys(records));
  }

  /** A day's entry holds the sums over that day's records. */
  predicate SumsMatch(records: seq<VisitorData>, d: DailyData)
    requires AllDated(records)
  {
    d.visitors == SumNums(Entering(RecordsOn(records, d.date))) &&
    d.passersby == SumNums(Passersby(RecordsOn(records, d.date)))
  }

  /** The inductive step of `GroupedSums` at the last record's day. */
  lemma SumsOfLastDay(records: seq<VisitorData>)
    requires AllDated(records) && records != []
    requires var init := records[..|records| - 1];
             AllDated(init) &&
             forall j :: 0 <= j < |GroupByDay(init)| ==> SumsMatch(init, GroupByDay(init)[j])
    ensures var init := records[..|records| - 1];
            var k := DayIndex(GroupByDay(init), DayOf(records[|records| - 1]));
            k < |GroupByDay(records)| && SumsMatch(records, GroupByDay(records)[k])
  {
    var init := records[..|records| - 1];
    var last := records[|records| - 1];
    GroupStep(records);
    var g := GroupByDay(init);
    var day := DayOf(last);
    var k := DayIndex(g, day);
    AddToDayShape(g, last);
    var before := RecordsOn(init, day);
    assert RecordsOn(records, day) == before + [last];
    assert Entering(before + [last]) == Entering(before) + [last.visitorsEntering];
    assert Passersby(before + [last]) == Passersby(before) + [last.passersby];
    SumSnoc(Entering(before), last.visitorsEntering);
    SumSnoc(Passersby(before), last.passersby);
    if k == |g| {
      GroupedDates(init);
      assert day !in Dates(g) by {
        assert forall j :: 0 <= j < |g| ==> Dates(g)[j] != day;
      }
      FirstSeenMember(DayKeys(init), day);
      RecordsOnNone(init, day);
    } else {
      assert SumsMatch(init, g[k]);
    }
  }

  /** The inductive step of `GroupedSums` at any other day: nothing changes there. */
  lemma SumsOfOtherDay(records: seq<VisitorData>, i: nat)
    requires AllDated(records) && records != []
    requires var init := records[..|records| - 1];
             AllDated(init) &&
             forall j :: 0 <= j < |GroupByDay(init)| ==> SumsMatch(init, GroupByDay(init)[j])
    requires i < |GroupByDay(records)|
    requires i != DayIndex(GroupByDay(records[..|records| - 1]), DayOf(records[|records| - 1]))
    ensures SumsMatch(records, GroupByDay(records)[i])
  {
    var init := records[..|records| - 1];
    var last := records[|records| - 1];
    GroupStep(records);
    var g := GroupByDay(init);
    var day := DayOf(last);
    var k := DayIndex(g, day);
    AddToDayShape(g, last);
    var d := GroupByDay(records)[i];
    assert i < |g| && d == g[i];
    assert d.date != day by {
      if k < |g| && k < i {
        GroupedDates(init);
        FirstSeenProperties(DayKeys(init));
        assert Dates(g)[k] == day && Dates(g)[i] == d.date;
      }
    }
    assert RecordsOn(records, d.date) == RecordsOn(init, d.date);
    assert SumsMatch(init, g[i]);
  }

  /** Each day's visitors and passers-by are the sums over that day's records. */
  lemma {:induction false} GroupedSums(records: seq<VisitorData>)
    requires AllDated(records)
    ensures forall i :: 0 <= i < |GroupByDay(records)| ==>
              var d := GroupByDay(records)[i];
              d.visitors == SumNums(Entering(RecordsOn(records, d.date))) &&
              d.passersby == SumNums(Passersby(RecordsOn(records, d.date)))
  {
    if records != [] {
      var init := records[..|records| - 1];
      GroupStep(records);
      GroupedSums(init);
      forall i | 0 <= i < |GroupByDay(records)| ensures SumsMatch(records, GroupByDay(records)[i]) {
        if i == DayIndex(GroupByDay(init), DayOf(records[|records| - 1])) {
          SumsOfLastDay(records);
        } else {
          SumsOfOtherDay(records, i);
        }
      }
    }
  }

  /** One step of the reduce: the record's day is updated in place when it is already
      listed, and appended with the record's counts when it is new. */
  lemma AddToDayShape(days: seq<DailyData>, r: VisitorData)
    requires r.timestamp.ValidDate?
    ensures var k := DayIndex(days, DayOf(r));
            var next := AddToDay(days, r);
            var v, p := r.visitorsEntering, r.passersby;
            (k < |days| ==> |next| == |days| &&
                            next[k] == days[k].(visitors := Add(days[k].visitors, v),
                                                passersby := Add(days[k].passersby, p))) &&
            (k == |days| ==> |next| == |days| + 1 &&
                             next[k] == DailyData(DayOf(r), Add(Int(0), v), Add(Int(0), p), RateValue(0))) &&
            (forall j :: 0 <= j < |days| && j != k ==> next[j] == days[j])
  {
  }

  /** One step of the reduce, seen column by column: the record's counts are added at
      its day's position, which is a new last position when the day is new. */
  lemma AddToDayColumns(days: seq<DailyData>, r: VisitorData)
    requires r.timestamp.ValidDate?
    ensures var k := DayIndex(days, DayOf(r));
            var v, p := r.visitorsEntering, r.passersby;
            if k < |days| then
              Visitors(AddToDay(days, r)) == Visitors(days)[k := Add(Visitors(days)[k], v)] &&
              DayPassersby(AddToDay(days, r)) == DayPassersby(days)[k := Add(DayPassersby(days)[k], p)]
            else
              Visitors(AddToDay(days, r)) == Visitors(days) + [Add(Int(0), v)] &&
              DayPassersby(AddToDay(days, r)) == DayPassersby(days) + [Add(Int(0), p)]
  {
    AddToDayVisitors(days, r);
    AddToDayPassersby(days, r);
  }

  /** The record's day is listed: its entry is updated in place. */
  lemma AddToDayListed(days: seq<DailyData>, r: VisitorData)
    requires r.timestamp.ValidDate?
    requires DayIndex(days, DayOf(r)) < |days|
    ensures var k := DayIndex(days, DayOf(r));
            AddToDay(days, r) ==
              days[k := days[k].(visitors := Add(days[k].visitors, r.visitorsEntering),
                                 passersby := Add(days[k].passersby, r.passersby))]
  {
  }

  /** The record's day is new: an entry holding its counts is appended. */
  lemma AddToDayNew(days: seq<DailyData>, r: VisitorData)
    requires r.timestamp.ValidDate?
    requires DayIndex(days, DayOf(r)) == |days|
    ensures AddToDay(days, r) ==
              days + [DailyData(DayOf(r), Add(Int(0), r.visitorsEntering),
                                Add(Int(0), r.passersby), RateValue(0))]
  {
    var zero := DailyData(DayOf(r), Int(0), Int(0), RateValue(0));
    assert AddToDay(days, r) == (days + [zero])[|days| := AddToDay(days, r)[|days|]];
  }

  lemma VisitorsUpdate(days: seq<DailyData>, k: nat, d: DailyData)
    requires k < |days|
    ensures Visitors(days[k := d]) == Visitors(days)[k := d.visitors]
  {
  }

  lemma VisitorsSnoc(days: seq<DailyData>, d: DailyData)
    ensures Visitors(days + [d]) == Visitors(days) + [d.visitors]
  {
  }

  lemma DayPassersbyUpdate(days: seq<DailyData>, k: nat, d: DailyData)
    requires k < |days|
    ensures DayPassersby(days[k := d]) == DayPassersby(days)[k := d.passersby]
  {
  }

  lemma DayPassersbySnoc(days: seq<DailyData>, d: DailyData)
    ensures DayPassersby(days + [d]) == DayPassersby(days) + [d.passersby]
  {
  }

  lemma AddToDayVisitors(days: seq<DailyData>, r: VisitorData)
    requires r.timestamp.ValidDate?
    ensures var k := DayIndex(days, DayOf(r));
            var v := r.visitorsEntering;
            Visitors(AddToDay(days, r)) ==
              if k < |days| then Visitors(days)[k := Add(Visitors(days)[k], v)]
              else Visitors(days) + [Add(Int(0), v)]
  {
    if DayIndex(days, DayOf(r)) < |days| {
      AddToDayListed(days, r);
      VisitorsUpdate(days, DayIndex(days, DayOf(r)), AddToDay(days, r)[DayIndex(days, DayOf(r))]);
    } else {
      AddToDayNew(days, r);
      VisitorsSnoc(days, AddToDay(days, r)[|days|]);
    }
  }

  lemma AddToDayPassersby(days: seq<DailyData>, r: VisitorData)
    requires r.timestamp.ValidDate?
    ensures var k := DayIndex(days, DayOf(r));
            var p := r.passersby;
            DayPassersby(AddToDay(days, r)) ==
              if k < |days| then DayPassersby(days)[k := Add(DayPassersby(days)[k], p)]
              else DayPassersby(days) + [Add(Int(0), p)]
  {
    if DayIndex(days, DayOf(r)) < |days| {
      AddToDayListed(days, r);
      DayPassersbyUpdate(days, DayIndex(days, DayOf(r)), AddToDay(days, r)[DayIndex(days, DayOf(r))]);
    } else {
      AddToDayNew(days, r);
      DayPassersbySnoc(days, AddToDay(days, r)[|days|]);
    }
  }

  /** The days' visitors add up to all records' entering visitors, and the days'
      passers-by to all records' passers-by: grouping loses and invents nothing. */
  lemma {:induction false} GroupedVisitors(records: seq<VisitorData>)
    requires AllDated(records)
    ensures SumNums(Visitors(GroupByDay(records))) == SumNums(Entering(records))
  {
    if records != [] {
      var init := records[..|records| - 1];
      var last := records[|records| - 1];
      GroupStep(records);
      GroupedVisitors(init);
      var g := GroupByDay(init);
      var k := DayIndex(g, DayOf(last));
      var v := last.visitorsEntering;
      SumSnoc(Entering(init), v);
      AddToDayColumns(g, last);
      if k < |g| {
        SumUpdate(Visitors(g), k, v);
      } else {
        SumSnoc(Visitors(g), Add(Int(0), v));
      }
    }
  }

  lemma {:induction false} GroupedPassersby(records: seq<VisitorData>)
    requires AllDated(records)
    ensures SumNums(DayPassersby(GroupByDay(records))) == SumNums(Passersby(records))
  {
    if records != [] {
      var init := records[..|records| - 1];
      var last := records[|records| - 1];
      GroupStep(records);
      GroupedPassersby(init);
      var g := GroupByDay(init);
      var k := DayIndex(g, DayOf(last));
      var p := last.passersby;
      SumSnoc(Passersby(init), p);
      AddToDayColumns(g, last);
      if k < |g| {
        SumUpdate(DayPassersby(g), k, p);
      } else {
        SumSnoc(DayPassersby(g), Add(Int(0), p));
      }
    }
  }

  /** What the dashboard's daily list holds: each listed day sums its own records,
      and all days together account for every record. */
  lemma DailySums(records: seq<VisitorData>)
    requires AllDated(records)
    ensures forall i :: 0 <= i < |Daily(records)| ==>
              var d := Daily(records)[i];
              d.visitors == SumNums(Entering(RecordsOn(records, d.date))) &&
              d.passersby == SumNums(Passersby(RecordsOn(records, d.date)))
    ensures SumNums(Visitors(Daily(records))) == SumNums(Entering(records))
    ensures SumNums(DayPassersby(Daily(records))) == SumNums(Passersby(records))
  {
    GroupedSums(records);
    GroupedVisitors(records);
    GroupedPassersby(records);
    assert Visitors(Daily(records)) == Visitors(GroupByDay(records));
    assert DayPassersby(Daily(records)) == DayPassersby(GroupByDay(records));
  }

  /** A day's records are among the records, so they keep non-negative counts. */
  lemma {:induction false} DayCountsNonNegative(records: seq<VisitorData>, day: Timestamp)
    requires AllDated(records) && CountsNonNegative(records)
    ensures CountsNonNegative(RecordsOn(records, day))
  {
    if records != [] {
      var init := records[..|records| - 1];
      assert CountsNonNegative(init) by {
        assert forall j :: 0 <= j < |init| ==> init[j] == records[j];
      }
      DayCountsNonNegative(init, day);
    }
  }

  /** With well-formed counts, a day's capture rate is a percentage between 0 and 100,
      or NaN for a day that saw nobody at all (0 / 0). */
  lemma DailyCaptureRate(records: seq<VisitorData>, i: nat)
    requires AllDated(records) && CountsNonNegative(records)
    requires i < |Daily(records)|
    ensures var d := Daily(records)[i];
            d.visitors.Int? && d.passersby.Int? && d.visitors.value >= 0 && d.passersby.value >= 0 &&
            (d.visitors.value + d.passersby.value == 0 <==> d.captureRate == RateNaN) &&
            (d.visitors.value + d.passersby.value > 0 ==>
               d.captureRate.RateValue? && 0 <= d.captureRate.hundredths <= 10000)
  {
    var g := GroupByDay(records);
    GroupedSums(records);
    var d := g[i];
    assert Daily(records)[i] == d.(captureRate := CaptureRate(d.visitors, d.passersby));
    var on := RecordsOn(records, d.date);
    DayCountsNonNegative(records, d.date);
    SumNumsNonNegative(Entering(on));
    SumNumsNonNegative(Passersby(on));
    var v, p := d.visitors.value, d.passersby.value;
    if v + p > 0 {
      Ratio100Bounds(v, v + p);
    }
  }
}

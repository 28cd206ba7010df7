/**
 * The peak hours of the dashboard: entering visitors are tallied per minute of
 * the day ("HH:mm"), the tallies are sorted by count, largest first, the first
 * three are kept, and each is labelled "h:mm a" and given its count as a
 * percentage of the largest tally.
 */
module PeakHours {
  import opened JsRuntime
  import opened JsDate
  import opened Visitor
  import opened KeyOrder
  import opened DateFormat

  /** One entry of `hourlyTraffic`: a minute of the day and its tally. */
  datatype Slot = Slot(time: ClockTime, count: Num)

  /** The minute a record is tallied under. */
  function SlotOf(r: VisitorData): (t: ClockTime)
    requires r.timestamp.ValidDate?
    ensures IsValidClock(t.hour, t.minute)
  {
    ClockOf(r.timestamp.dt)
  }

  function SlotKeys(records: seq<VisitorData>): (keys: seq<ClockTime>)
    requires AllDated(records)
    ensures |keys| == |records|
    ensures forall i :: 0 <= i < |records| ==> keys[i] == SlotOf(records[i])
  {
    seq(|records|, i requires 0 <= i < |records| => SlotOf(records[i]))
  }

  function Times(slots: seq<Slot>): (times: seq<ClockTime>)
    ensures |times| == |slots|
    ensures forall i :: 0 <= i < |slots| ==> times[i] == slots[i].time
  {
    seq(|slots|, i requires 0 <= i < |slots| => slots[i].time)
  }

  function Counts(slots: seq<Slot>): (counts: seq<Num>)
    ensures |counts| == |slots|
    ensures forall i :: 0 <= i < |slots| ==> counts[i] == slots[i].count
  {
    seq(|slots|, i requires 0 <= i < |slots| => slots[i].count)
  }

  /** Where the tally of `t` sits, or |slots| when there is none yet. */
  function SlotIndex(slots: seq<Slot>, t: ClockTime): (i: nat)
    ensures i <= |slots|
    ensures i < |slots| ==> slots[i].time == t
    ensures forall j :: 0 <= j < i ==> slots[j].time != t
  {
    if slots == [] then 0
    else if slots[0].time == t then 0
    else 1 + SlotIndex(slots[1..], t)
  }

  /** One step of the reduce: the tally so far, or 0 when there is none or it is NaN,
      plus the record's entering visitors. */
  function AddToSlot(slots: seq<Slot>, r: VisitorData): seq<Slot>
    requires r.timestamp.ValidDate?
  {
    var t := SlotOf(r);
    var i := SlotIndex(slots, t);
    var count := Add(Or0(if i < |slots| then Some(slots[i].count) else None), r.visitorsEntering);
    if i < |slots| then slots[i := Slot(t, count)] else slots + [Slot(t, count)]
  }

  /** `Object.entries(hourlyTraffic)`: the tallies in the order their minutes first appeared. */
  function HourlyTraffic(records: seq<VisitorData>): seq<Slot>
    requires AllDated(records)
  {
    if records == [] then []
    else AddToSlot(HourlyTraffic(records[..|records| - 1]), records[|records| - 1])
  }

  /** The records of one minute of the day, in record order. */
  function RecordsAt(records: seq<VisitorData>, t: ClockTime): (at: seq<VisitorData>)
    requires AllDated(records)
    ensures AllDated(at)
    ensures forall r :: r in at ==> r in records
  {
    if records == [] then []
    else
      var last := records[|records| - 1];
      RecordsAt(records[..|records| - 1], t) + (if SlotOf(last) == t then [last] else [])
  }

  // ---------------------------------------------------------------------------
  // The imperative tally

  /** The dictionary `acc`, whose keys were stored in the order `order`, holds `slots`. */
  ghost predicate SlotsMirror(acc: map<ClockTime, Num>, order: seq<ClockTime>, slots: seq<Slot>)
  {
    |order| == |slots| && Distinct(order) &&
    (forall t :: t in acc <==> t in order) &&
    (forall i :: 0 <= i < |order| ==> slots[i] == Slot(order[i], acc[order[i]]))
  }

  /** Tallying one more record of a prefix is one more step of the reduce. */
  lemma TrafficPrefixStep(records: seq<VisitorData>, n: nat)
    requires AllDated(records) && n < |records|
    ensures AllDated(records[..n]) && AllDated(records[..n + 1])
    ensures HourlyTraffic(records[..n + 1]) == AddToSlot(HourlyTraffic(records[..n]), records[n])
  {
    assert records[..n + 1][..n] == records[..n];
  }

  /** One step of the reduce on the dictionary keeps it in step with `AddToSlot`. */
  lemma SlotsMirrorStep(acc: map<ClockTime, Num>, order: seq<ClockTime>, slots: seq<Slot>,
                        r: VisitorData, acc2: map<ClockTime, Num>, order2: seq<ClockTime>)
    requires r.timestamp.ValidDate? && SlotsMirror(acc, order, slots)
    requires var t := SlotOf(r);
             var previous := if t in acc then Some(acc[t]) else None;
             order2 == (if t in acc then order else order + [t]) &&
             acc2 == acc[t := Add(Or0(previous), r.visitorsEntering)]
    ensures SlotsMirror(acc2, order2, AddToSlot(slots, r))
  {
    var t := SlotOf(r);
    var i := SlotIndex(slots, t);
    var next := AddToSlot(slots, r);
    if i < |slots| {
      assert order[i] == t && t in acc;
      assert forall j :: 0 <= j < |order| && j != i ==> order[j] != t;
    } else {
      assert t !in order by {
        assert forall j :: 0 <= j < |order| ==> order[j] == slots[j].time;
      }
      assert forall j :: 0 <= j < |slots| ==> next[j] == slots[j];
    }
  }

  /** The `hourlyTraffic` reduce: tally the entering visitors per "HH:mm" key. */
  method TallyTraffic(records: seq<VisitorData>) returns (slots: seq<Slot>)
    requires AllDated(records)
    ensures slots == HourlyTraffic(records)
  {
    var acc: map<ClockTime, Num> := map[];
    var order: seq<ClockTime> := [];
    ghost var tally: seq<Slot> := [];
    for n := 0 to |records|
      invariant tally == HourlyTraffic(records[..n])
      invariant SlotsMirror(acc, order, tally)
    {
      var entry := records[n];
      var hour := ClockOf(entry.timestamp.dt);
      ghost var acc0, order0 := acc, order;
      var previous := if hour in acc then Some(acc[hour]) else None;
      if hour !in acc {
        order := order + [hour];
      }
      acc := acc[hour := Add(Or0(previous), entry.visitorsEntering)];
      SlotsMirrorStep(acc0, order0, tally, entry, acc, order);
      TrafficPrefixStep(records, n);
      tally := AddToSlot(tally, entry);
    }
    assert records[..|records|] == records;
    slots := seq(|order|, i requires 0 <= i < |order| => Slot(order[i], acc[order[i]]));
  }

  // ---------------------------------------------------------------------------
  // Ranking

  /** The comparator `(a, b) => b - a` is negative, so `a` goes first, exactly when both
      counts are numbers and `a`'s is larger. */
  predicate Outranks(a: Num, b: Num)
  {
    a.Int? && b.Int? && a.value > b.value
  }

  /** Place `s` before the first entry that does not outrank it. */
  function Insert(s: Slot, sorted: seq<Slot>): (r: seq<Slot>)
    ensures |r| == |sorted| + 1
  {
    if sorted == [] || !Outranks(sorted[0].count, s.count) then [s] + sorted
    else [sorted[0]] + Insert(s, sorted[1..])
  }

  /** Inserting adds `s` and loses nothing. */
  lemma {:induction false} InsertPermutes(s: Slot, sorted: seq<Slot>)
    ensures multiset(Insert(s, sorted)) == multiset(sorted) + multiset{s}
  {
    if sorted != [] && Outranks(sorted[0].count, s.count) {
      InsertPermutes(s, sorted[1..]);
      assert sorted == [sorted[0]] + sorted[1..];
    }
  }

  /** `.sort(([, a], [, b]) => b - a)`: a stable sort by count, largest first. */
  function SortByCount(slots: seq<Slot>): (r: seq<Slot>)
    ensures |r| == |slots|
    ensures multiset(r) == multiset(slots)
  {
    if slots == [] then []
    else
      assert slots == [slots[0]] + slots[1..];
      InsertPermutes(slots[0], SortByCount(slots[1..]));
      Insert(slots[0], SortByCount(slots[1..]))
  }

  /** `.slice(0, 3)`. */
  function Top3(s: seq<Slot>): (r: seq<Slot>)
    ensures |r| == Min(3, |s|) && r == s[..|r|]
  {
    s[..Min(3, |s|)]
  }

  predicate ValidTimes(slots: seq<Slot>)
  {
    forall s :: s in slots ==> IsValidClock(s.time.hour, s.time.minute)
  }

  predicate NoNaN(slots: seq<Slot>)
  {
    forall i :: 0 <= i < |slots| ==> slots[i].count.Int?
  }

  /** `format(parse(time, 'HH:mm', new Date()), 'h:mm a')` for the key of `t`. */
  function SlotLabel(t: ClockTime): (text: string)
    requires IsValidClock(t.hour, t.minute)
    ensures text == Label12(t)
  {
    ParseFormatHHmm(t);
    Label12(ParseHHmm(FormatHHmm(t)).value)
  }

  /** The three busiest minutes, as listed. */
  function Peaks(slots: seq<Slot>): (top: seq<Slot>)
    ensures |top| == Min(3, |slots|)
    ensures ValidTimes(slots) ==> ValidTimes(top)
  {
    assert ValidTimes(slots) ==> ValidTimes(SortByCount(slots)[..Min(3, |slots|)]) by {
      var sorted := SortByCount(slots);
      forall x | x in sorted[..Min(3, |slots|)] ensures x in multiset(slots) {
        assert x in multiset(sorted);
      }
    }
    Top3(SortByCount(slots))
  }

  /** The `peakHours` chain: label the busiest minutes and give each count as a percentage of
      `Math.max` of all tallies. */
  function PeakHoursOf(slots: seq<Slot>): (peaks: seq<PeakHour>)
    requires ValidTimes(slots)
  {
    var top := Peaks(slots);
    assert forall i :: 0 <= i < |top| ==> top[i] in top;
    seq(|top|, i requires 0 <= i < |top| =>
      PeakHour(SlotLabel(top[i].time), Ratio100(top[i].count, MaxNum(Counts(slots)))))
  }

  // ---------------------------------------------------------------------------
  // Properties of the ranking

  /** Largest count first, all counts numbers. */
  predicate Descending(q: seq<Slot>)
  {
    NoNaN(q) && forall i, j :: 0 <= i < j < |q| ==> q[i].count.value >= q[j].count.value
  }

  lemma {:induction false} InsertDescending(s: Slot, sorted: seq<Slot>)
    requires s.count.Int? && Descending(sorted)
    ensures Descending(Insert(s, sorted))
  {
    if sorted != [] && Outranks(sorted[0].count, s.count) {
      InsertDescending(s, sorted[1..]);
      var rest := Insert(s, sorted[1..]);
      InsertPermutes(s, sorted[1..]);
      assert multiset(rest) == multiset(sorted[1..]) + multiset{s};
      forall j | 0 <= j < |rest| ensures sorted[0].count.value >= rest[j].count.value {
        assert rest[j] in multiset(rest);
        if rest[j] != s {
          assert rest[j] in multiset(sorted[1..]);
          var k :| 0 <= k < |sorted[1..]| && sorted[1..][k] == rest[j];
          assert sorted[k + 1] == rest[j];
        }
      }
    }
  }

  /** With no NaN tally the sort puts the counts in non-increasing order. */
  lemma {:induction false} SortDescending(slots: seq<Slot>)
    requires NoNaN(slots)
    ensures Descending(SortByCount(slots))
  {
    if slots != [] {
      SortDescending(slots[1..]);
      InsertDescending(slots[0], SortByCount(slots[1..]));
    }
  }

  /** The entries with count `c`, in order. */
  function WithCount(q: seq<Slot>, c: Num): seq<Slot>
  {
    if q == [] then [] else (if q[0].count == c then [q[0]] else []) + WithCount(q[1..], c)
  }

  lemma WithCountCons(x: Slot, q: seq<Slot>, c: Num)
    ensures WithCount([x] + q, c) == (if x.count == c then [x] else []) + WithCount(q, c)
  {
    assert ([x] + q)[0] == x && ([x] + q)[1..] == q;
  }

  lemma {:induction false} InsertWithCount(s: Slot, sorted: seq<Slot>, c: Num)
    ensures WithCount(Insert(s, sorted), c) ==
            (if s.count == c then [s] else []) + WithCount(sorted, c)
  {
    if sorted == [] || !Outranks(sorted[0].count, s.count) {
      assert Insert(s, sorted) == [s] + sorted;
      WithCountCons(s, sorted, c);
    } else {
      var x, tail := sorted[0], sorted[1..];
      assert sorted == [x] + tail;
      InsertWithCount(s, tail, c);
      InsertWithCountStep(s, x, tail, c);
    }
  }

  lemma InsertWithCountStep(s: Slot, x: Slot, tail: seq<Slot>, c: Num)
    requires Outranks(x.count, s.count)
    requires WithCount(Insert(s, tail), c) == (if s.count == c then [s] else []) + WithCount(tail, c)
    ensures WithCount(Insert(s, [x] + tail), c) ==
            (if s.count == c then [s] else []) + WithCount([x] + tail, c)
  {
    var ins := Insert(s, tail);
    var hx := if x.count == c then [x] else [];
    var hs := if s.count == c then [s] else [];
    var w := WithCount(tail, c);
    assert ([x] + tail)[0] == x && ([x] + tail)[1..] == tail;
    assert Insert(s, [x] + tail) == [x] + ins;
    WithCountCons(x, ins, c);
    WithCountCons(x, tail, c);
    if x.count == c {
      assert hs == [] && hx + (hs + w) == hx + w;
    } else {
      assert hx == [] && hx + (hs + w) == hs + w;
    }
  }

  /** The sort is stable: entries with equal counts keep the order of their minutes'
      first appearance. */
  lemma {:induction false} SortStable(slots: seq<Slot>, c: Num)
    ensures WithCount(SortByCount(slots), c) == WithCount(slots, c)
  {
    if slots != [] {
      SortStable(slots[1..], c);
      InsertWithCount(slots[0], SortByCount(slots[1..]), c);
    }
  }

  /** The entries the slice drops. */
  function Rest(slots: seq<Slot>): seq<Slot>
  {
    SortByCount(slots)[|Peaks(slots)|..]
  }

  /** In a list in non-increasing order, everything before a cut is at least as large as
      everything after it. */
  lemma CutDescending(q: seq<Slot>, m: nat)
    requires Descending(q) && m <= |q|
    ensures Descending(q[..m])
    ensures multiset(q[..m]) + multiset(q[m..]) == multiset(q)
    ensures forall a, b :: a in q[..m] && b in q[m..] ==>
              a.count.Int? && b.count.Int? && a.count.value >= b.count.value
  {
    assert q[..m] + q[m..] == q;
    forall a, b | a in q[..m] && b in q[m..]
      ensures a.count.Int? && b.count.Int? && a.count.value >= b.count.value
    {
      var i :| 0 <= i < m && q[..m][i] == a;
      var j :| 0 <= j < |q| - m && q[m..][j] == b;
      assert q[i] == a && q[m + j] == b;
    }
  }

  /** With no NaN tally the peaks are the busiest minutes: at most three, in
      non-increasing order, and every tally left out is no larger than any kept one;
      together the kept and the left-out tallies are all the tallies. */
  lemma PeaksAreBusiest(slots: seq<Slot>)
    requires NoNaN(slots)
    ensures |Peaks(slots)| == Min(3, |slots|)
    ensures Descending(Peaks(slots))
    ensures multiset(Peaks(slots)) + multiset(Rest(slots)) == multiset(slots)
    ensures forall a, b :: a in Peaks(slots) && b in Rest(slots) ==>
              a.count.Int? && b.count.Int? && a.count.value >= b.count.value
  {
    var sorted := SortByCount(slots);
    SortDescending(slots);
    var m := |Peaks(slots)|;
    assert Peaks(slots) == sorted[..m] && Rest(slots) == sorted[m..];
    CutDescending(sorted, m);
  }

  /** The largest tally comes first in the sorted list. */
  lemma FirstIsLargest(slots: seq<Slot>)
    requires slots != [] && NoNaN(slots)
    ensures SortByCount(slots)[0].count == MaxNum(Counts(slots))
  {
    var sorted := SortByCount(slots);
    SortDescending(slots);
    HeadIsLargest(sorted);
    MaxOfCounts(slots);
    var top := MaxNum(Counts(slots));
    var x :| x in slots && x.count == top;
    assert x in multiset(sorted);
    assert sorted[0] in multiset(slots);
  }

  /** With no NaN tally, `Math.max` of the tallies is the count of one of them and no
      smaller than any. */
  lemma MaxOfCounts(slots: seq<Slot>)
    requires slots != [] && NoNaN(slots)
    ensures var top := MaxNum(Counts(slots));
            top.Int? && (exists x :: x in slots && x.count == top) &&
            forall x :: x in slots ==> x.count.Int? && x.count.value <= top.value
  {
    var counts := Counts(slots);
    var top := MaxNum(counts);
    assert forall i :: 0 <= i < |counts| ==> counts[i].Int?;
    var k :| 0 <= k < |counts| && counts[k] == top;
    assert slots[k] in slots;
    forall x | x in slots ensures x.count.Int? && x.count.value <= top.value {
      var i :| 0 <= i < |slots| && slots[i] == x;
      assert counts[i] == x.count;
    }
  }

  /** A list in non-increasing order starts with its largest count. */
  lemma HeadIsLargest(q: seq<Slot>)
    requires Descending(q) && q != []
    ensures forall x :: x in q ==> q[0].count.value >= x.count.value
  {
    forall x | x in q ensures q[0].count.value >= x.count.value {
      var j :| 0 <= j < |q| && q[j] == x;
      if j > 0 {
        assert q[0].count.value >= q[j].count.value;
      }
    }
  }

  predicate TalliesNonNegative(slots: seq<Slot>)
  {
    forall i :: 0 <= i < |slots| ==> slots[i].count.Int? && slots[i].count.value >= 0
  }

  /** At most three peaks, each labelled by its minute on a 12-hour clock. */
  lemma PeakLabels(slots: seq<Slot>)
    requires ValidTimes(slots)
    ensures |PeakHoursOf(slots)| == Min(3, |slots|)
    ensures forall i :: 0 <= i < |PeakHoursOf(slots)| ==>
              i < |Peaks(slots)| && IsValidClock(Peaks(slots)[i].time.hour, Peaks(slots)[i].time.minute) &&
              PeakHoursOf(slots)[i].time == Label12(Peaks(slots)[i].time)
  {
    var top := Peaks(slots);
    assert forall i :: 0 <= i < |top| ==> top[i] in top;
  }

  /** Each kept tally lies between 0 and the largest, and the first is the largest. */
  lemma PeakCountsBounded(slots: seq<Slot>)
    requires slots != [] && TalliesNonNegative(slots)
    ensures MaxNum(Counts(slots)).Int?
    ensures Peaks(slots)[0].count == MaxNum(Counts(slots))
    ensures forall i :: 0 <= i < |Peaks(slots)| ==>
              Peaks(slots)[i].count.Int? &&
              0 <= Peaks(slots)[i].count.value <= MaxNum(Counts(slots)).value
  {
    FirstIsLargest(slots);
    var top := MaxNum(Counts(slots));
    var peaks := Peaks(slots);
    var sorted := SortByCount(slots);
    forall i | 0 <= i < |peaks|
      ensures peaks[i].count.Int? && 0 <= peaks[i].count.value <= top.value
    {
      assert peaks[i] == sorted[i] && sorted[i] in multiset(slots);
      var k :| 0 <= k < |slots| && slots[k] == peaks[i];
      assert Counts(slots)[k] == peaks[i].count;
    }
  }

  lemma PeakPercentageAt(slots: seq<Slot>, i: nat)
    requires ValidTimes(slots) && i < |PeakHoursOf(slots)|
    ensures i < |Peaks(slots)|
    ensures PeakHoursOf(slots)[i].percentage == Ratio100(Peaks(slots)[i].count, MaxNum(Counts(slots)))
  {
  }

  /** With non-negative tallies every percentage lies between 0 and 100 and the first
      is exactly 100, unless every tally is 0, when every percentage is NaN (0 / 0). */
  lemma PeakPercentages(slots: seq<Slot>)
    requires ValidTimes(slots) && TalliesNonNegative(slots) && slots != []
    ensures MaxNum(Counts(slots)) == Int(0) ==>
              forall i :: 0 <= i < |PeakHoursOf(slots)| ==> PeakHoursOf(slots)[i].percentage == RateNaN
    ensures MaxNum(Counts(slots)) != Int(0) ==>
              PeakHoursOf(slots)[0].percentage == RateValue(10000) &&
              forall i :: 0 <= i < |PeakHoursOf(slots)| ==>
                PeakHoursOf(slots)[i].percentage.RateValue? &&
                0 <= PeakHoursOf(slots)[i].percentage.hundredths <= 10000
  {
    PeakCountsBounded(slots);
    var top := MaxNum(Counts(slots));
    var peaks := Peaks(slots);
    var hours := PeakHoursOf(slots);
    forall i | 0 <= i < |hours|
      ensures top == Int(0) ==> hours[i].percentage == RateNaN
      ensures top != Int(0) ==> hours[i].percentage.RateValue? && 0 <= hours[i].percentage.hundredths <= 10000
    {
      PeakPercentageAt(slots, i);
      if top.value != 0 {
        Ratio100Bounds(peaks[i].count.value, top.value);
      }
    }
    if top.value != 0 {
      PeakPercentageAt(slots, 0);
      Ratio100Bounds(top.value, top.value);
    }
  }

  // ---------------------------------------------------------------------------
  // Properties of the tally

  lemma TallyStep(records: seq<VisitorData>)
    requires AllDated(records) && records != []
    ensures AllDated(records[..|records| - 1])
    ensures SlotKeys(records) == SlotKeys(records[..|records| - 1]) + [SlotOf(records[|records| - 1])]
    ensures Entering(records) == Entering(records[..|records| - 1]) + [records[|records| - 1].visitorsEntering]
  {
  }

  /** Every tally is for a real minute of the day. */
  lemma {:induction false} TrafficTimesValid(records: seq<VisitorData>)
    requires AllDated(records)
    ensures ValidTimes(HourlyTraffic(records))
  {
    if records != [] {
      var init := records[..|records| - 1];
      TallyStep(records);
      TrafficTimesValid(init);
      var g := HourlyTraffic(init);
      var last := records[|records| - 1];
      var next := HourlyTraffic(records);
      forall x | x in next ensures IsValidClock(x.time.hour, x.time.minute) {
        var j :| 0 <= j < |next| && next[j] == x;
        if j < |g| && next[j] == g[j] {
          assert g[j] in g;
        } else {
          assert x.time == SlotOf(last);
        }
      }
    }
  }

  /** The minutes are listed once each, in the order of their first record. */
  lemma {:induction false} TrafficTimes(records: seq<VisitorData>)
    requires AllDated(records)
    ensures Times(HourlyTraffic(records)) == FirstSeen(SlotKeys(records))
  {
    if records != [] {
      var init := records[..|records| - 1];
      var last := records[|records| - 1];
      TallyStep(records);
      TrafficTimes(init);
      var t := SlotOf(last);
      AddToSlotTimes(HourlyTraffic(init), last);
      assert FirstSeen(SlotKeys(records)) ==
             if t in FirstSeen(SlotKeys(init)) then FirstSeen(SlotKeys(init))
             else FirstSeen(SlotKeys(init)) + [t];
    }
  }

  /** One step of the tally lists the record's minute at the end when it is new and
      leaves the minutes alone otherwise. */
  lemma AddToSlotTimes(slots: seq<Slot>, r: VisitorData)
    requires r.timestamp.ValidDate?
    ensures Times(AddToSlot(slots, r)) ==
            if SlotOf(r) in Times(slots) then Times(slots) else Times(slots) + [SlotOf(r)]
  {
    var k := SlotIndex(slots, SlotOf(r));
    AddToSlotShape(slots, r);
    if k < |slots| {
      assert Times(slots)[k] == SlotOf(r);
      assert Times(AddToSlot(slots, r)) == Times(slots);
    } else {
      assert SlotOf(r) !in Times(slots);
      assert Times(AddToSlot(slots, r)) == Times(slots) + [SlotOf(r)];
    }
  }

  predicate EnteringIsNumber(records: seq<VisitorData>)
  {
    forall i :: 0 <= i < |records| ==> records[i].visitorsEntering.Int?
  }

  lemma RecordsAtNone(records: seq<VisitorData>, t: ClockTime)
    requires AllDated(records) && t !in SlotKeys(records)
    ensures RecordsAt(records, t) == []
    decreases |records|
  {
    if records != [] {
      TallyStep(records);
      RecordsAtNone(records[..|records| - 1], t);
    }
  }

  /** When every entering count is a number, each minute's tally is the sum of its
      records' entering visitors. */
  lemma {:induction false} TrafficSums(records: seq<VisitorData>)
    requires AllDated(records) && EnteringIsNumber(records)
    ensures NoNaN(HourlyTraffic(records))
    ensures forall i :: 0 <= i < |HourlyTraffic(records)| ==>
              HourlyTraffic(records)[i].count ==
              SumNums(Entering(RecordsAt(records, HourlyTraffic(records)[i].time)))
  {
    if records != [] {
      var init := records[..|records| - 1];
      TallyStep(records);
      assert EnteringIsNumber(init) by {
        assert forall j :: 0 <= j < |init| ==> init[j] == records[j];
      }
      TrafficSums(init);
      var k := SlotIndex(HourlyTraffic(init), SlotOf(records[|records| - 1]));
      forall i | 0 <= i < |HourlyTraffic(records)| ensures TallyMatches(records, HourlyTraffic(records)[i]) {
        if i == k {
          TallyOfLastMinute(records);
        } else {
          TallyOfOtherMinute(records, i);
        }
      }
    }
  }

  /** A tally that is a number and sums the entering visitors of its minute's records. */
  predicate TallyMatches(records: seq<VisitorData>, s: Slot)
    requires AllDated(records)
  {
    s.count.Int? && s.count == SumNums(Entering(RecordsAt(records, s.time)))
  }

  /** One step of the tally: the record's minute is updated in place when it is already
      listed, and appended when it is new. */
  lemma AddToSlotShape(slots: seq<Slot>, r: VisitorData)
    requires r.timestamp.ValidDate?
    ensures var k := SlotIndex(slots, SlotOf(r));
            var next := AddToSlot(slots, r);
            var v := r.visitorsEntering;
            (k < |slots| ==> |next| == |slots| && next[k] == Slot(SlotOf(r), Add(Or0(Some(slots[k].count)), v))) &&
            (k == |slots| ==> |next| == |slots| + 1 && next[k] == Slot(SlotOf(r), Add(Or0(None), v))) &&
            (forall j :: 0 <= j < |slots| && j != k ==> next[j] == slots[j])
  {
  }

  /** The inductive step of `TrafficSums` at the last record's minute. */
  lemma TallyOfLastMinute(records: seq<VisitorData>)
    requires AllDated(records) && records != [] && EnteringIsNumber(records)
    requires var init := records[..|records| - 1];
             AllDated(init) &&
             forall j :: 0 <= j < |HourlyTraffic(init)| ==> TallyMatches(init, HourlyTraffic(init)[j])
    ensures var init := records[..|records| - 1];
            var k := SlotIndex(HourlyTraffic(init), SlotOf(records[|records| - 1]));
            k < |HourlyTraffic(records)| && TallyMatches(records, HourlyTraffic(records)[k])
  {
    var init := records[..|records| - 1];
    var last := records[|records| - 1];
    TallyStep(records);
    var g := HourlyTraffic(init);
    var t := SlotOf(last);
    var k := SlotIndex(g, t);
    AddToSlotShape(g, last);
    assert last.visitorsEntering.Int?;
    var before := RecordsAt(init, t);
    assert RecordsAt(records, t) == before + [last];
    assert Entering(before + [last]) == Entering(before) + [last.visitorsEntering];
    assert (Entering(before) + [last.visitorsEntering])[..|before|] == Entering(before);
    if k == |g| {
      TrafficTimes(init);
      assert t !in Times(g) by {
        assert forall j :: 0 <= j < |g| ==> Times(g)[j] != t;
      }
      FirstSeenMember(SlotKeys(init), t);
      RecordsAtNone(init, t);
    } else {
      assert TallyMatches(init, g[k]);
    }
  }

  /** The inductive step of `TrafficSums` at any other minute: nothing changes there. */
  lemma TallyOfOtherMinute(records: seq<VisitorData>, i: nat)
    requires AllDated(records) && records != [] && EnteringIsNumber(records)
    requires var init := records[..|records| - 1];
             AllDated(init) &&
             forall j :: 0 <= j < |HourlyTraffic(init)| ==> TallyMatches(init, HourlyTraffic(init)[j])
    requires i < |HourlyTraffic(records)|
    requires i != SlotIndex(HourlyTraffic(records[..|records| - 1]), SlotOf(records[|records| - 1]))
    ensures TallyMatches(records, HourlyTraffic(records)[i])
  {
    var init := records[..|records| - 1];
    var last := records[|records| - 1];
    TallyStep(records);
    var g := HourlyTraffic(init);
    var t := SlotOf(last);
    var k := SlotIndex(g, t);
    AddToSlotShape(g, last);
    var d := HourlyTraffic(records)[i];
    assert i < |g| && d == g[i];
    assert d.time != t by {
      if k < |g| && k < i {
        TrafficTimes(init);
        FirstSeenProperties(SlotKeys(init));
        assert Times(g)[k] == t && Times(g)[i] == d.time;
      }
    }
    assert RecordsAt(records, d.time) == RecordsAt(init, d.time);
    assert TallyMatches(init, g[i]);
  }

  /** A minute's records are among the records, so they keep non-negative counts. */
  lemma {:induction false} MinuteCountsNonNegative(records: seq<VisitorData>, t: ClockTime)
    requires AllDated(records) && CountsNonNegative(records)
    ensures CountsNonNegative(RecordsAt(records, t))
  {
    if records != [] {
      var init := records[..|records| - 1];
      assert CountsNonNegative(init) by {
        assert forall j :: 0 <= j < |init| ==> init[j] == records[j];
      }
      MinuteCountsNonNegative(init, t);
    }
  }

  /** With non-negative counts every tally of the records is a non-negative number. */
  lemma TalliesOfRecords(records: seq<VisitorData>)
    requires AllDated(records) && CountsNonNegative(records)
    ensures TalliesNonNegative(HourlyTraffic(records))
  {
    TrafficSums(records);
    var slots := HourlyTraffic(records);
    forall i | 0 <= i < |slots| ensures slots[i].count.Int? && slots[i].count.value >= 0 {
      MinuteCountsNonNegative(records, slots[i].time);
      SumNumsNonNegative(Entering(RecordsAt(records, slots[i].time)));
    }
  }

  /** Some record gives some tally. */
  lemma TrafficNonEmpty(records: seq<VisitorData>)
    requires AllDated(records) && records != []
    ensures HourlyTraffic(records) != []
  {
    AddToSlotShape(HourlyTraffic(records[..|records| - 1]), records[|records| - 1]);
  }

  /** With non-negative counts every tally is 0 exactly when every record's entering
      count is 0. */
  lemma {:induction false} TalliesZero(records: seq<VisitorData>)
    requires AllDated(records) && CountsNonNegative(records)
    ensures AllZero(Counts(HourlyTraffic(records))) <==> AllZero(Entering(records))
  {
    if records != [] {
      var init := records[..|records| - 1];
      assert CountsNonNegative(init) by {
        assert forall j :: 0 <= j < |init| ==> init[j] == records[j];
      }
      TalliesZero(init);
      TalliesOfRecords(init);
      TalliesZeroStep(records);
    }
  }

  /** The inductive step of `TalliesZero`. */
  lemma TalliesZeroStep(records: seq<VisitorData>)
    requires AllDated(records) && records != [] && CountsNonNegative(records)
    requires var init := records[..|records| - 1];
             AllDated(init) && TalliesNonNegative(HourlyTraffic(init)) &&
             (AllZero(Counts(HourlyTraffic(init))) <==> AllZero(Entering(init)))
    ensures AllZero(Counts(HourlyTraffic(records))) <==> AllZero(Entering(records))
  {
    var init := records[..|records| - 1];
    var r := records[|records| - 1];
    TallyStep(records);
    AllZeroSnoc(Entering(init), r.visitorsEntering);
    AllZeroAfterSlot(HourlyTraffic(init), r);
  }

  /** A non-negative count joins its minute's tally or opens a new one; either way the
      tallies are all zeros exactly when the old ones were and the count is 0. */
  lemma AllZeroAfterSlot(g: seq<Slot>, r: VisitorData)
    requires r.timestamp.ValidDate? && TalliesNonNegative(g)
    requires r.visitorsEntering.Int? && r.visitorsEntering.value >= 0
    ensures AllZero(Counts(AddToSlot(g, r))) <==> AllZero(Counts(g)) && r.visitorsEntering == Int(0)
  {
    var k := SlotIndex(g, SlotOf(r));
    var v := r.visitorsEntering;
    if k < |g| {
      var y := Add(g[k].count, v);
      CountsUpdate(g, k, Slot(SlotOf(r), y));
      AllZeroUpdate(Counts(g), k, y);
      AllZeroUpdate(Counts(g), k, g[k].count);
      assert Counts(g)[k := g[k].count] == Counts(g);
    } else {
      CountsSnoc(g, Slot(SlotOf(r), Add(Int(0), v)));
      AllZeroSnoc(Counts(g), Add(Int(0), v));
    }
  }

  lemma CountsUpdate(g: seq<Slot>, k: nat, s: Slot)
    requires k < |g|
    ensures Counts(g[k := s]) == Counts(g)[k := s.count]
  {
  }

  lemma CountsSnoc(g: seq<Slot>, s: Slot)
    ensures Counts(g + [s]) == Counts(g) + [s.count]
  {
  }

  /** The readings after the last NaN one, in order. */
  function AfterLastNaN(xs: seq<Num>): (after: seq<Num>)
    ensures forall i :: 0 <= i < |after| ==> after[i].Int?
  {
    if xs == [] || xs[|xs| - 1].NaN? then []
    else AfterLastNaN(xs[..|xs| - 1]) + [xs[|xs| - 1]]
  }

  /** What `(acc[hour] || 0) + n` leaves after the readings `xs` of one minute: NaN when
      the last reading is NaN, otherwise the sum of the readings since the last NaN. */
  function TallyAfterReset(xs: seq<Num>): Num
  {
    if xs != [] && xs[|xs| - 1].NaN? then NaN else SumNums(AfterLastNaN(xs))
  }

  /** One more reading is one more step of `(acc[hour] || 0) + n` from the tally so far. */
  lemma TallyAfterResetStep(xs: seq<Num>, x: Num)
    ensures TallyAfterReset(xs + [x]) == Add(Or0(Some(TallyAfterReset(xs))), x)
  {
    var ys := xs + [x];
    assert ys[..|ys| - 1] == xs;
    if x.Int? {
      var a := AfterLastNaN(xs);
      assert AfterLastNaN(ys) == a + [x];
      assert (a + [x])[..|a|] == a;
      SumNumsNaN(a);
      assert SumNums(a).Int?;
    }
  }

  /** Without a NaN reading nothing is reset: the tally is the plain sum. */
  lemma {:induction false} TallyAfterResetNoNaN(xs: seq<Num>)
    requires forall i :: 0 <= i < |xs| ==> xs[i].Int?
    ensures AfterLastNaN(xs) == xs
    ensures TallyAfterReset(xs) == SumNums(xs)
  {
    if xs != [] {
      var init := xs[..|xs| - 1];
      assert forall i :: 0 <= i < |init| ==> init[i] == xs[i];
      TallyAfterResetNoNaN(init);
      assert xs == init + [xs[|xs| - 1]];
    }
  }

  /** A tally that is what `|| 0` and `+` leave after its minute's entering counts. */
  predicate ResetMatches(records: seq<VisitorData>, s: Slot)
    requires AllDated(records)
  {
    s.count == TallyAfterReset(Entering(RecordsAt(records, s.time)))
  }

  /** For any records, unreadable counts included, each minute's tally is NaN when that
      minute's last reading is NaN, and otherwise the sum of its entering visitors since
      its last NaN reading. */
  lemma {:induction false} TrafficResets(records: seq<VisitorData>)
    requires AllDated(records)
    ensures forall i :: 0 <= i < |HourlyTraffic(records)| ==>
              HourlyTraffic(records)[i].count ==
              TallyAfterReset(Entering(RecordsAt(records, HourlyTraffic(records)[i].time)))
  {
    if records != [] {
      var init := records[..|records| - 1];
      TallyStep(records);
      TrafficResets(init);
      var k := SlotIndex(HourlyTraffic(init), SlotOf(records[|records| - 1]));
      forall i | 0 <= i < |HourlyTraffic(records)| ensures ResetMatches(records, HourlyTraffic(records)[i]) {
        if i == k {
          ResetOfLastMinute(records);
        } else {
          ResetOfOtherMinute(records, i);
        }
      }
    }
  }

  /** The inductive step of `TrafficResets` at the last record's minute. */
  lemma ResetOfLastMinute(records: seq<VisitorData>)
    requires AllDated(records) && records != []
    requires var init := records[..|records| - 1];
             AllDated(init) &&
             forall j :: 0 <= j < |HourlyTraffic(init)| ==> ResetMatches(init, HourlyTraffic(init)[j])
    ensures var init := records[..|records| - 1];
            var k := SlotIndex(HourlyTraffic(init), SlotOf(records[|records| - 1]));
            k < |HourlyTraffic(records)| && ResetMatches(records, HourlyTraffic(records)[k])
  {
    var init := records[..|records| - 1];
    var last := records[|records| - 1];
    TallyStep(records);
    var g := HourlyTraffic(init);
    var t := SlotOf(last);
    var k := SlotIndex(g, t);
    AddToSlotShape(g, last);
    var before := RecordsAt(init, t);
    assert RecordsAt(records, t) == before + [last];
    assert Entering(before + [last]) == Entering(before) + [last.visitorsEntering];
    TallyAfterResetStep(Entering(before), last.visitorsEntering);
    if k == |g| {
      TrafficTimes(init);
      assert t !in Times(g) by {
        assert forall j :: 0 <= j < |g| ==> Times(g)[j] != t;
      }
      FirstSeenMember(SlotKeys(init), t);
      RecordsAtNone(init, t);
      assert Entering(before) == [];
    } else {
      assert ResetMatches(init, g[k]);
    }
  }

  /** The inductive step of `TrafficResets` at any other minute: nothing changes there. */
  lemma ResetOfOtherMinute(records: seq<VisitorData>, i: nat)
    requires AllDated(records) && records != []
    requires var init := records[..|records| - 1];
             AllDated(init) &&
             forall j :: 0 <= j < |HourlyTraffic(init)| ==> ResetMatches(init, HourlyTraffic(init)[j])
    requires i < |HourlyTraffic(records)|
    requires i != SlotIndex(HourlyTraffic(records[..|records| - 1]), SlotOf(records[|records| - 1]))
    ensures ResetMatches(records, HourlyTraffic(records)[i])
  {
    var init := records[..|records| - 1];
    var last := records[|records| - 1];
    TallyStep(records);
    var g := HourlyTraffic(init);
    var t := SlotOf(last);
    var k := SlotIndex(g, t);
    AddToSlotShape(g, last);
    var d := HourlyTraffic(records)[i];
    assert i < |g| && d == g[i];
    assert d.time != t by {
      if k < |g| && k < i {
        TrafficTimes(init);
        FirstSeenProperties(SlotKeys(init));
        assert Times(g)[k] == t && Times(g)[i] == d.time;
      }
    }
    assert RecordsAt(records, d.time) == RecordsAt(init, d.time);
    assert ResetMatches(init, g[i]);
  }

  /** The tally's `|| 0` treats a NaN tally as 0: a minute whose first record has an
      unreadable entering count and whose second reads `n` ends with tally `n`,
      where a plain sum would stay NaN. */
  lemma NaNTallyResets(a: VisitorData, b: VisitorData, n: int)
    requires a.timestamp.ValidDate? && b.timestamp.ValidDate? && SlotOf(a) == SlotOf(b)
    requires a.visitorsEntering == NaN && b.visitorsEntering == Int(n)
    ensures HourlyTraffic([a, b]) == [Slot(SlotOf(a), Int(n))]
    ensures SumNums(Entering([a, b])) == NaN
  {
    assert HourlyTraffic([a]) == [Slot(SlotOf(a), NaN)] by {
      assert [a][..0] == [];
    }
    assert Add(Or0(Some(NaN)), Int(n)) == Int(n);
    assert [a, b][..1] == [a];
    assert [a][..0] == [];
    assert Entering([a, b])[..1] == [NaN];
    assert Entering([a, b])[..1][..0] == [];
  }
}

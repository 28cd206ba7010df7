# Visitor analytics pipeline, modelled in Dafny

The dashboard loads a CSV export from a storefront people counter. Each row holds:
- a timestamp `dd/MM/yyyy H:mm`;
- nine counts: visitors entering and leaving, men, women and groups entering and leaving, and passers-by.

From that export it computes:
- the readings taken inside opening hours;
- the total of entering visitors;
- the overall capture rate (entering / (entering + passers-by), as a percentage with two decimals);
- one rollup per calendar day, with its own capture rate;
- a fixed average visit duration of 45 minutes;
- the three busiest minutes of the day ("HH:mm" tallies summed across days), labelled on a 12-hour clock, each as a percentage of the busiest tally.

The opening-hours calendar is a fixed table:
- Sunday 8–16;
- Monday to Friday 7–20;
- Saturday 8–20.

The opening hour is included and the closing hour excluded.

The model follows the JavaScript semantics the code relies on:
- **Numbers:** `parseInt` yields an integer or NaN, and NaN absorbs every sum (`Num`).
- **Rates:** `Number(x.toFixed(2))` becomes a `Rate` in hundredths, NaN or an infinity.
- **Object key order:** keys like "yyyy-MM-dd" and "HH:mm" are listed in insertion order (`KeyOrder.FirstSeen`).
- **Dates:** `getDay` is computed on the proleptic Gregorian calendar.
- **Date parsing and formatting:** only the date-fns patterns the code uses are modelled.

Modules:
- `JsRuntime`: numbers, `parseInt`, `split`, `filter`, `reduce`, `Math.max`, `toFixed`.
- `JsDate`: calendar arithmetic.
- `DateFormat`: `parse` and `format` for the patterns used.
- `DateUtils`: opening hours.
- `Visitor`: the record types.
- `RowParsing`: CSV text to records.
- `DailyRollup`: the per-day dictionary, including the imperative `RollupDays`.
- `PeakHours`: the per-minute dictionary (the imperative `TallyTraffic`), the ranking and the percentages.
- `DataProcessor`: the whole pipeline, including the imperative `FetchAndProcessData`.

The two dictionary reductions are methods whose loops run over the records and update a `map`, keeping its key-insertion order. Each is proved equal to a fold function (`Daily`, `HourlyTraffic`), and the lemmas then state what those folds compute.

Three behaviours of the code worth knowing:
- a day or a total with no visitors and no passers-by gets a NaN capture rate (0 / 0), not 0;
- an unreadable count becomes NaN and contaminates the totals and the daily sums; a per-minute tally that became NaN restarts from 0 at that minute's next reading;
- a row whose timestamp does not read as a date makes the opening-hours test throw, so the whole pipeline rejects (`PipelineError`).

## Model

| member | source | states |
|---|---|---|
| JsRuntime.Add | src/utils/dataProcessor.ts:34-35 | `+` on numbers, NaN absorbing; SumNumsConcat, SumNumsNaN and SumNumsNonNegative state what the sums built from it compute |
| JsRuntime.Split | src/utils/dataProcessor.ts:9 | `split` gives at least one piece and no piece contains the separator |
| JsRuntime.JoinSplit | src/utils/dataProcessor.ts:9 | splitting loses nothing: joining the pieces gives the text back |
| JsRuntime.SplitJoin | src/utils/dataProcessor.ts:14 | pieces without the separator come back unchanged from splitting their join |
| JsRuntime.ParseInt | src/utils/dataProcessor.ts:18-26 | `parseInt` with no radix: white space, an optional sign, an optional `0x` prefix, then the longest digit run; ParseIntSkipsBlank, ParseIntDecimal and ParseIntNegativeDecimal state what it reads |
| JsRuntime.ParseIntField | src/utils/dataProcessor.ts:18-26 | a missing cell is `undefined`, read as the text "undefined", and that reads as NaN |
| JsRuntime.ParseIntSkipsBlank | src/utils/dataProcessor.ts:18-26 | leading white space does not change what `parseInt` reads |
| JsRuntime.ParseIntDecimal | src/utils/dataProcessor.ts:18-26 | a decimal numeral after white space reads as its value whatever non-digit follows (a trailing `\r`, say) |
| JsRuntime.ParseIntNegativeDecimal | src/utils/dataProcessor.ts:18-26 | a minus sign before the numeral negates it |
| JsRuntime.MaxNum | src/utils/dataProcessor.ts:71 | `Math.max` is NaN exactly when some argument is; otherwise it is one of them and no smaller than any |
| JsRuntime.RoundHundredths | src/utils/dataProcessor.ts:36 | `toFixed(2)` picks the nearest hundredth, an exact half rounding away from zero |
| JsRuntime.Ratio100 | src/utils/dataProcessor.ts:36 | the percentage is NaN exactly for a NaN operand or 0/0, infinite exactly for a non-zero over 0, else finite |
| JsRuntime.Ratio100Bounds | src/utils/dataProcessor.ts:36 | a part of a positive whole is a percentage between 0 and 100, and the whole is exactly 100 |
| JsRuntime.Filter | src/utils/dataProcessor.ts:31 | `filter` keeps exactly the elements that pass the test |
| JsRuntime.FilterConcat | src/utils/dataProcessor.ts:31 | `filter` keeps order: filtering a concatenation filters each part |
| JsRuntime.MapConcat | src/utils/dataProcessor.ts:12 | `map` keeps order: mapping a concatenation maps each part |
| JsRuntime.FilterIdempotent | src/utils/dataProcessor.ts:31 | filtering twice with one test is filtering once |
| JsRuntime.SumNums | src/utils/dataProcessor.ts:34-35 | the `reduce` sum from 0, left to right; the three lemmas below state its splitting, NaN and sign behaviour |
| JsRuntime.SumNumsConcat | src/utils/dataProcessor.ts:34-35 | the `reduce` sum of a concatenation is the sum of the parts' sums |
| JsRuntime.SumNumsNaN | src/utils/dataProcessor.ts:34-35 | a sum is NaN exactly when one of its terms is |
| JsRuntime.SumNumsNonNegative | src/utils/dataProcessor.ts:34-35 | a sum of non-negative numbers is a non-negative number |
| JsRuntime.SumNumsZero | src/utils/dataProcessor.ts:34 | a sum of non-negative numbers is 0 exactly when every term is 0 |
| JsRuntime.MaxNumZero | src/utils/dataProcessor.ts:71 | `Math.max` of non-negative numbers is 0 exactly when every one of them is 0 |
| JsDate.DaysInMonth | src/utils/dataProcessor.ts:17 | months have 28 to 31 days, and 29 only for February of a leap year |
| JsDate.Weekday | src/utils/dateUtils.ts:14 | `getDay` is between 0 and 6 |
| JsDate.WeekdayOfNextDay | src/utils/dateUtils.ts:14 | `getDay` advances by one, modulo 7, from each calendar day to the next |
| JsDate.SameStartOfDay | src/utils/dataProcessor.ts:43 | two dates share their `startOfDay` exactly when they fall on the same calendar day; taking it twice changes nothing; it keeps a real date real |
| KeyOrder.FirstSeenProperties | src/utils/dataProcessor.ts:76 | object keys are listed once each, exactly the keys stored, in order of first storage |
| KeyOrder.FirstSeenMember | src/utils/dataProcessor.ts:76 | a key is listed exactly when it was stored |
| Visitor.CaptureRateExamples | src/utils/dataProcessor.ts:36 | 80 and 20 give 80.00, 10 and 5 give 66.67, 0 and 0 give NaN |
| DateUtils.IsWithinOpeningHours | src/utils/dateUtils.ts:13-19 | the weekday's entry of the table, open hour included and close hour excluded; the lemmas below give the answer for each weekday |
| DateUtils.OpeningHoursTable | src/utils/dateUtils.ts:3-11 | the constant `OpeningHours` has an entry for each weekday 0..6 and only those, each opening before it closes |
| DateUtils.OpenIncludedCloseExcluded | src/utils/dateUtils.ts:18 | the opening hour is inside and the closing hour outside |
| DateUtils.SundayHours | src/utils/dateUtils.ts:4 | on Sunday a time is inside exactly for hours 8 to 15 |
| DateUtils.WorkdayHours | src/utils/dateUtils.ts:5-9 | Monday to Friday a time is inside exactly for hours 7 to 19 |
| DateUtils.SaturdayHours | src/utils/dateUtils.ts:10 | on Saturday a time is inside exactly for hours 8 to 19 |
| DateUtils.OnlyWeekdayAndHourMatter | src/utils/dateUtils.ts:13-19 | two dates with the same weekday and hour get the same answer |
| DateUtils.WeekdayAfterDays | src/utils/dateUtils.ts:14 | n days later the weekday has advanced by n modulo 7 |
| DateUtils.SameAnswerAWeekLater | src/utils/dateUtils.ts:13-19 | a date and the date seven days later get the same answer |
| DateUtils.CalendarExamples | src/utils/dateUtils.ts:13-19 | 15 March 2024 is a Friday and open at 9:00; Sunday 17 March is closed at 7:00 and open at 8:00 |
| DateFormat.TakeHour | src/utils/dataProcessor.ts:17 | the `H` field reads an hour of at most 23 |
| DateFormat.ParseFormatTimestamp | src/utils/dataProcessor.ts:17 | a timestamp written as "dd/MM/yyyy H:mm", with trailing white space, reads back as itself |
| DateFormat.FormatDay | src/utils/dataProcessor.ts:40 | the "yyyy-MM-dd" key; FormatDayInjective states that it tells days apart |
| DateFormat.FormatHHmm | src/utils/dataProcessor.ts:61 | the "HH:mm" key; FormatHHmmInjective and ParseFormatHHmm state that it tells minutes apart and reads back |
| DateFormat.Label12 | src/utils/dataProcessor.ts:70 | the "h:mm a" label; Label12Injective and Label12Examples state that it tells minutes apart and what it writes |
| DateFormat.PadValue | src/utils/dataProcessor.ts:40 | a zero-padded field has exactly its width and stands for its value |
| DateFormat.FormatDayInjective | src/utils/dataProcessor.ts:40 | two "yyyy-MM-dd" keys are equal exactly when the dates share their midnight |
| DateFormat.FormatHHmmInjective | src/utils/dataProcessor.ts:61 | two "HH:mm" keys are equal exactly when the minutes of the day are |
| DateFormat.ParseHHmm | src/utils/dataProcessor.ts:70 | an "HH:mm" text reads as a real minute of the day or as an Invalid Date |
| DateFormat.ParseFormatHHmm | src/utils/dataProcessor.ts:70 | an "HH:mm" key reads back as the minute it was written from |
| DateFormat.Label12Injective | src/utils/dataProcessor.ts:70 | different minutes get different "h:mm a" labels |
| DateFormat.Label12Examples | src/utils/dataProcessor.ts:70 | 14:30 is "2:30 PM", 08:00 "8:00 AM", 09:00 "9:00 AM", 00:05 "12:05 AM", 12:00 "12:00 PM" |
| RowParsing.ParseRow | src/utils/dataProcessor.ts:12-28 | one line split on commas, the first cell parsed as a date and the next nine as counts; CellsByPosition and ParseWrittenRow state what it reads |
| RowParsing.ParseRows | src/utils/dataProcessor.ts:10-28 | no more records than lines: blank lines are dropped and the rest parsed in order |
| RowParsing.ParseExport | src/utils/dataProcessor.ts:9-28 | the export split into lines, the header dropped, the rest parsed; HeaderDropped states it |
| RowParsing.HeaderDropped | src/utils/dataProcessor.ts:9 | the first line is dropped whatever it holds, and the other lines are the data lines |
| RowParsing.ParseRowsConcat | src/utils/dataProcessor.ts:10-12 | parsing works line by line and keeps file order |
| RowParsing.ParseRowsSingle | src/utils/dataProcessor.ts:11 | a white-space-only line yields no record; any other line yields its own record |
| RowParsing.CellsByPosition | src/utils/dataProcessor.ts:13-26 | cells are read by position; missing cells give NaN counts; cells after the tenth are ignored |
| RowParsing.NoCommaInTimestamp | src/utils/dataProcessor.ts:14 | a written timestamp holds no comma, so it stays one cell |
| RowParsing.ParseWrittenCount | src/utils/dataProcessor.ts:18-26 | a count cell written as a numeral with trailing white space reads back as that count |
| RowParsing.ParseWrittenRow | src/utils/dataProcessor.ts:12-28 | a reading written as a CSV line reads back as that reading |
| Visitor.CaptureRate | src/utils/dataProcessor.ts:36 | entering over entering plus passers-by, as a percentage to two decimals; DailyCaptureRate and OverallCaptureRate bound it |
| DailyRollup.DayIndex | src/utils/dataProcessor.ts:41 | the lookup finds the entry of that day, the first one, or reports none |
| DailyRollup.GroupByDay | src/utils/dataProcessor.ts:39-52 | the day dictionary as a fold; GroupedDates and GroupedSums state its keys and sums |
| DailyRollup.WithCaptureRates | src/utils/dataProcessor.ts:55-57 | the per-day rating step; DailyCaptureRate (each rate between 0 and 100, NaN exactly for a day with nobody), DailySums (sums kept) and DailyDates (days kept) state what the rated days mean |
| DailyRollup.Daily | src/utils/dataProcessor.ts:39-57 | the grouped days with their rates; DailyDates, DailySums and DailyCaptureRate state what it lists |
| DailyRollup.ReduceByDay | src/utils/dataProcessor.ts:39-52 | the in-place reduce leaves a dictionary whose keys, in storage order, and entries are exactly the grouped days `GroupByDay(records)` |
| DailyRollup.SetCaptureRates | src/utils/dataProcessor.ts:55-57 | setting each entry's rate in place and then listing the values in key order gives the grouped days with their own capture rates |
| DailyRollup.RollupDays | src/utils/dataProcessor.ts:39-57 | the in-place dictionary reduction and the rate loop give exactly `Daily(records)` |
| DailyRollup.GroupedDates | src/utils/dataProcessor.ts:39-52 | the days are the records' days, distinct, in order of each day's first record |
| DailyRollup.DailyDates | src/utils/dataProcessor.ts:76 | the listed days are distinct and are exactly the days of the records |
| DailyRollup.GroupedSums | src/utils/dataProcessor.ts:49-50 | each day's visitors and passers-by are the sums over that day's records |
| DailyRollup.GroupedVisitors | src/utils/dataProcessor.ts:49 | the days' visitors add up to all records' entering visitors |
| DailyRollup.GroupedPassersby | src/utils/dataProcessor.ts:50 | the days' passers-by add up to all records' passers-by |
| DailyRollup.DailySums | src/utils/dataProcessor.ts:39-57 | the per-day sums and both totals hold after the capture rates are set |
| DailyRollup.DailyCaptureRate | src/utils/dataProcessor.ts:55-57 | with non-negative counts, a day's rate is between 0 and 100, and NaN exactly for a day with nobody |
| PeakHours.HourlyTraffic | src/utils/dataProcessor.ts:60-64 | the minute dictionary as a fold; TrafficTimes and TrafficSums state its keys and tallies |
| PeakHours.SlotIndex | src/utils/dataProcessor.ts:62 | the lookup finds the tally of that minute, the first one, or reports none |
| PeakHours.TallyTraffic | src/utils/dataProcessor.ts:60-64 | the in-place dictionary reduction gives exactly `HourlyTraffic(records)` |
| PeakHours.TrafficTimes | src/utils/dataProcessor.ts:60-64 | the tallies are for the records' minutes, distinct, in order of first record |
| PeakHours.TrafficTimesValid | src/utils/dataProcessor.ts:61 | every tally is for a real minute of the day |
| PeakHours.TrafficSums | src/utils/dataProcessor.ts:62 | with readable counts, each tally sums the entering visitors of its minute over all days |
| PeakHours.NaNTallyResets | src/utils/dataProcessor.ts:62 | `\|\| 0` resets a NaN tally: NaN then n tallies n, while the plain sum is NaN |
| PeakHours.TrafficResets | src/utils/dataProcessor.ts:60-64 | for any records, unreadable counts included, each tally is NaN when its minute's last reading is NaN, and otherwise the sum of that minute's entering visitors since its last NaN reading |
| PeakHours.TallyAfterResetStep | src/utils/dataProcessor.ts:62 | one more reading is one more `(acc[hour] \|\| 0) + n` step from the tally so far |
| PeakHours.TallyAfterResetNoNaN | src/utils/dataProcessor.ts:62 | with no NaN reading nothing is reset and the tally is the plain sum |
| PeakHours.Insert | src/utils/dataProcessor.ts:67 | one step of the stable sort adds exactly one entry |
| PeakHours.InsertPermutes | src/utils/dataProcessor.ts:67 | inserting adds exactly the one entry and loses none |
| PeakHours.SortByCount | src/utils/dataProcessor.ts:67 | the sort is a permutation of the tallies |
| PeakHours.SortDescending | src/utils/dataProcessor.ts:67 | with no NaN tally, the sort puts counts in non-increasing order |
| PeakHours.SortStable | src/utils/dataProcessor.ts:67 | tallies with equal counts keep their first-seen order |
| PeakHours.Peaks | src/utils/dataProcessor.ts:66-68 | `sort` then `slice(0, 3)`: min(3, n) tallies, each for a real minute when the tallies are |
| PeakHours.PeaksAreBusiest | src/utils/dataProcessor.ts:66-68 | at most three peaks, in non-increasing order, none smaller than a dropped tally, and kept plus dropped are all the tallies |
| PeakHours.FirstIsLargest | src/utils/dataProcessor.ts:66-71 | the first sorted tally is `Math.max` of all tallies |
| PeakHours.PeakHoursOf | src/utils/dataProcessor.ts:66-72 | each peak labelled and given as a percentage of `Math.max`; PeakLabels and PeakPercentages state both |
| PeakHours.SlotLabel | src/utils/dataProcessor.ts:70 | formatting the parsed key gives the "h:mm a" label of that minute |
| PeakHours.PeakLabels | src/utils/dataProcessor.ts:69-70 | there are min(3, n) peaks, each labelled with its minute on a 12-hour clock |
| PeakHours.PeakCountsBounded | src/utils/dataProcessor.ts:71 | each kept tally lies between 0 and the largest, and the first is the largest |
| PeakHours.PeakPercentages | src/utils/dataProcessor.ts:71 | with non-negative tallies, percentages are between 0 and 100 and the first is 100, or all NaN when every tally is 0 |
| PeakHours.TalliesOfRecords | src/utils/dataProcessor.ts:60-64 | with non-negative counts every tally of the records is a non-negative number |
| PeakHours.TalliesZero | src/utils/dataProcessor.ts:60-64 | with non-negative counts every tally is 0 exactly when every record's entering count is 0 |
| DataProcessor.OpeningHoursFilter | src/utils/dataProcessor.ts:31 | the opening-hours filter, failing at the first Invalid Date; OpenRecordsDated states it |
| DataProcessor.FirstUndated | src/utils/dataProcessor.ts:31 | finds the first record with an Invalid Date, exactly when there is one |
| DataProcessor.OpenRecordsDated | src/utils/dataProcessor.ts:31 | the filter fails exactly on an Invalid Date; otherwise it keeps exactly the records inside opening hours |
| DataProcessor.FilterKeepsOrder | src/utils/dataProcessor.ts:31 | the filter keeps record order |
| DataProcessor.FilterIdempotentOnOutput | src/utils/dataProcessor.ts:75 | filtering `hourlyData` again changes nothing |
| DataProcessor.Process | src/utils/dataProcessor.ts:9-81 | the whole pipeline without the download; ProcessedFigures, OverallCaptureRate and RejectsOnInvalidDate state what it returns |
| DataProcessor.FetchAndProcessData | src/utils/dataProcessor.ts:9-81 | the pipeline, stage by stage, resolves to `Process(text)` |
| DataProcessor.ProcessedFigures | src/utils/dataProcessor.ts:74-81 | the output's totals match its own figures, `hourlyData` is exactly the filtered records in their original order, its lists come from them, and the visit duration is 45 |
| DataProcessor.TotalsRate | src/utils/dataProcessor.ts:34-36 | for records with non-negative counts, both totals are non-negative numbers and their rate is NaN exactly when both are 0, else between 0 and 100 |
| DataProcessor.OverallCaptureRate | src/utils/dataProcessor.ts:34-36 | with non-negative counts, the overall rate is between 0 and 100, and NaN exactly when both totals are 0 |
| DataProcessor.PeakPercentagesOfExport | src/utils/dataProcessor.ts:59-72 | with non-negative counts and some reading inside opening hours, the peak percentages are all NaN when nobody entered (0 / 0); otherwise the first is 100.00 and each lies between 0 and 100 |
| DataProcessor.PeakPercentagesOfRecords | src/utils/dataProcessor.ts:59-72 | the same for any non-empty list of dated records with non-negative counts, in terms of their total of entering visitors |
| DataProcessor.RejectsOnInvalidDate | src/utils/dataProcessor.ts:31 | the pipeline rejects exactly when some data row's timestamp is an Invalid Date |
| DataProcessor.TwoReadingsAtNine | src/utils/dataProcessor.ts:39-72 | two 9:00 readings on a Friday (10 in / 5 passing, and zeros) give one day at 66.67 and one peak "9:00 AM" at 100.00 |
| DataProcessor.SameDayTwice | src/utils/dataProcessor.ts:39-52 | two records of one day make a single entry holding the sums of both records' counts |
| DataProcessor.SameMinuteTwice | src/utils/dataProcessor.ts:60-64 | two records of one minute make a single tally of both records' visitors |
| DataProcessor.SinglePeak | src/utils/dataProcessor.ts:66-72 | a single non-zero tally is the one peak, at 100.00 |

## Left out

- The download (`fetch` and `response.text()`, lines 6-7 of src/utils/dataProcessor.ts) is not modelled: the export text is a parameter, and a failed download is not modelled.
- The dashboard components and src/App.tsx are not part of this model.
- JsDate.Weekday: dates are local wall-clock values without a time zone, so daylight-saving gaps and zone offsets are not modelled.
- JsRuntime.Ratio100: the quotient is rounded exactly, not through binary floating point, so cases where a double lands just below a half-hundredth may differ.
- JsRuntime.Add: numbers are added exactly, while JavaScript adds doubles; past 2^53 the `reduce` sums (lines 34-35 of src/utils/dataProcessor.ts), the day `+=` (lines 49-50) and the hourly tally (line 62) would round, which the model does not.
- JsRuntime.ParseIntField: numerals whose value exceeds 2^53 are read exactly, not rounded to a double.
- JsRuntime.RoundHundredths: the same exact rounding as `Ratio100`; results of 10^21 or more, which `toFixed` writes in exponent form, are not distinguished.
- DateFormat.ParseTimestamp: only the pattern `dd/MM/yyyy H:mm` is modelled, and only as date-fns reads it here. The reference date of `parse` plays no part because every field is given.
- PeakHours.SortByCount: with a NaN tally the comparator `b - a` is inconsistent, and the engine's order is implementation-defined. The model uses one such order: a stable insertion where only a strictly larger number ranks first. Without NaN tallies it is the unique stable order the engine must produce.
- PeakHours.SortByCount: `Array.prototype.sort` is the engine's. The model gives its result, not the engine's in-place algorithm.
- PeakHours.PeakHoursOf: `Math.max()` of no tallies is never evaluated, because mapping an empty list calls nothing. The model returns no peaks.
- The `DailyData` objects are updated in place through `Object.values(...).forEach`. The model updates the dictionary's entries instead, which gives the same values because the list shares those objects.

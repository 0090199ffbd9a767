# Blood-pressure diary: record store and views, in Dafny

This project models the logic core of a small offline blood-pressure
diary. Readings (systolic, diastolic, optional pulse and notes, taken in
the morning or the evening of a day) are kept in an IndexedDB object store.
Two views are built from them: a history grouped by day and a 30-day chart.

- `wrappers.dfy` (`Wrappers`) defines `Option`.
- `strings.dfy` (`Strings`) defines the code-unit order that IndexedDB and
  JavaScript use on string keys. It also has decimal digit strings: the
  unpadded `Date.now()` text inside a record key, and the zero-padded
  fields of a 'yyyy-MM-dd' date.
- `calendar.dfy` (`Calendar`) has proleptic Gregorian days, the step back
  by one day that `setDate(getDate() - k)` makes, the 'yyyy-MM-dd' text of
  a day, and the reading of such a text back into a day.
- `ordering.dfy` (`Ordering`) covers strictly ordered listings and why
  they are unique. It also has the step of an index cursor (the least
  element not yet visited) and the stable comparator sort that
  `Array.prototype.sort` performs.
- `db.dfy` (`Db`) is the record store of `src/lib/db.ts`. The class
  `RecordDb` holds:
  - the module-level connection handle;
  - the number of open requests issued;
  - the contents of the store, as a map from primary key to record.

  Its methods are `initDB`, `addRecord`, `getAllRecords`,
  `getRecordsByDateRange` and `deleteRecord`. The two read methods walk
  their index with a cursor loop.
- `records_list.dfy` (`RecordsList`) covers `src/components/RecordsList.tsx`:
  - the status badge of a reading;
  - the grouping `reduce`, written as a loop over a map;
  - the date ordering of the day cards;
  - the empty state.
- `chart.dfy` (`Chart`) covers `src/components/Chart.tsx`: the empty guard,
  the 30-day window ending today, and one chart point per window day.
- `app.dfy` (`App`) covers `src/App.tsx`, which hands both views the same
  newest-first listing. Under that listing the history shows the oldest
  reading of a duplicated slot and the chart shows the newest.

Environment inputs are parameters of the model:
- `canOpen` is the outcome of the host's `indexedDB.open` request.
- `idClock` and `stampClock` are the two `Date.now()` readings of
  `addRecord`.
- `today` is the chart's current day.

Each store operation first awaits `initDB`, then runs as one atomic step.

Some behaviours of the code that the model keeps:
- A range query whose end sorts before its start rejects with
  `DataError`, because `IDBKeyRange.bound` throws.
- The chart returns no series at all for an empty input.
- The recency field is `timestamp`. The id is built from an earlier,
  separate clock reading.
- The grouping keeps only the last reading of a (day, part of day) pair.
  Earlier duplicates are not shown.

## Model

| member | source | states |
|---|---|---|
| Calendar.MinusDays | src/components/Chart.tsx:26 | going back k days gives a real day: the same day for k = 0, a strictly earlier day otherwise |
| Calendar.Format | src/components/Chart.tsx:27 | the 'yyyy-MM-dd' text of a day has ten characters: four digits, a dash, two digits, a dash, two digits |
| Calendar.ParseDate | src/components/RecordsList.tsx:89-90 | a text read as a day has ten characters with dashes at positions 4 and 7, and the day is a real one with a year of at most four digits |
| Calendar.PrevNextRoundTrip | src/components/Chart.tsx:26 | stepping a day back and forward (or forward and back) returns the same day |
| Calendar.MinusDaysYear | src/components/Chart.tsx:26 | going back at most 31 days stays in the same year or lands in December of the year before |
| Calendar.MinusDaysOrder | src/components/Chart.tsx:26 | going further back from a day gives a strictly earlier day |
| Calendar.FormatParseRoundTrip | src/components/Chart.tsx:27 | reading back the 'yyyy-MM-dd' text of a day gives that day |
| Calendar.ParseFormatRoundTrip | src/components/RecordsList.tsx:89-90 | a text read as a day is exactly the 'yyyy-MM-dd' text of that day |
| Calendar.ParseDateInjective | src/components/RecordsList.tsx:89-90 | two different texts never name the same day |
| Calendar.FormatOrder | src/lib/db.ts:96 | string order on 'yyyy-MM-dd' texts is the same as chronological order on the days, in both directions |
| Strings.PadDigitsOrder | src/lib/db.ts:96 | zero-padded numbers of one width compare as strings exactly as they compare as numbers |
| Strings.NatToStringRoundTrip | src/lib/db.ts:51 | the decimal text of a clock reading denotes that reading |
| Ordering.SortedUnique | src/lib/db.ts:69-79 | two listings of the same elements that are both strictly ordered by one order are equal |
| Ordering.Least | src/lib/db.ts:72-76 | the cursor's next element lies among the unvisited ones and comes before every other unvisited one |
| Ordering.Insert | src/components/RecordsList.tsx:88 | inserting into a sorted list keeps it sorted, adds exactly that element, and adds no duplicate when the element was new |
| Ordering.InsertionSort | src/components/RecordsList.tsx:88 | the stable sort's result is sorted by the comparator, is a permutation of the input, and is duplicate-free when the input is |
| Db.RecordId | src/lib/db.ts:51 | the generated key begins with the date and the part of day, and after the second dash holds the decimal digits of the clock reading |
| Db.RecordIdInjective | src/lib/db.ts:51 | for dates of one length, two generated keys are equal exactly when date, part of day and clock reading are all equal |
| Db.FromDraft | src/lib/db.ts:49-53 | the stored record keeps every field of the draft and carries the given `id` and `timestamp` |
| Db.KeyedValuesHaveUniqueIds | src/lib/db.ts:36 | in a store keyed by `id`, no two stored records share an id |
| Db.TimestampIndexPrev | src/lib/db.ts:69 | the 'prev' cursor on the timestamp index never moves from an older record to a newer one |
| Db.DateIndexNext | src/lib/db.ts:97 | the forward cursor on the date index never moves back in date |
| Db.InDateRange | src/lib/db.ts:96 | a record lies in the key range only when the range's end does not sort before its start |
| Db.TimestampIndexIsStrictTotal | src/lib/db.ts:37 | 'prev' order on the timestamp index is a strict total order: timestamp descending, then key descending |
| Db.DateIndexIsStrictTotal | src/lib/db.ts:38 | forward order on the date index is a strict total order: date ascending, then key ascending |
| Db.NewerFirst | src/lib/db.ts:106 | a record goes strictly before another exactly when the comparator `b.timestamp - a.timestamp` is negative |
| Db.NewerFirstConsistent | src/lib/db.ts:106 | `b.timestamp - a.timestamp` is a consistent comparator, and sorted by it means timestamps never increase |
| Db.InsertKeepsRangeOrder | src/lib/db.ts:106 | inserting a record that precedes all others in date-index order keeps the list ordered by timestamp descending, then date-index order |
| Db.RangeSortOrder | src/lib/db.ts:97-106 | stably sorting the date-index listing by timestamp gives timestamp descending, then date ascending, then key ascending |
| Db.TimestampScanUnique | src/lib/db.ts:62-84 | a store admits exactly one full-scan listing |
| Db.RangeResultUnique | src/lib/db.ts:86-112 | a store and two bounds admit exactly one range-query listing |
| Db.SortedHasNoDuplicates | src/lib/db.ts:36 | a listing in either result order holds no record twice |
| Db.RecordDb.constructor | src/lib/db.ts:16 | the module starts with no handle and no open request, over the persisted records |
| Db.RecordDb.InitDB | src/lib/db.ts:18-42 | a kept handle is returned without a new open request; otherwise one request is issued, and its connection is kept on success or `OpenFailed` is returned; records untouched |
| Db.RecordDb.AddRecord | src/lib/db.ts:44-60 | a kept handle is reused with no new open request; otherwise exactly one open request is issued and its connection is kept exactly when it opens; fails with `OpenFailed` or, when the generated key exists, `ConstraintError`, leaving the store unchanged; otherwise stores exactly the draft's fields plus `id` and `timestamp` under the new key, adding exactly one key |
| Db.RecordDb.ScanTimestampIndexPrev | src/lib/db.ts:69-79 | the cursor loop pushes every stored record exactly once, strictly in 'prev' timestamp-index order |
| Db.RecordDb.ScanDateIndex | src/lib/db.ts:96-105 | the cursor loop pushes exactly the records with start <= date <= end (as strings), strictly in date-index order |
| Db.RecordDb.GetAllRecords | src/lib/db.ts:62-84 | a kept handle is reused with no new open request; otherwise exactly one open request is issued and its connection is kept exactly when it opens; rejects only when the store cannot open; otherwise resolves with every record once, newest first (an empty store gives an empty list) |
| Db.RecordDb.GetRecordsByDateRange | src/lib/db.ts:86-112 | a kept handle is reused with no new open request; otherwise exactly one open request is issued and its connection is kept exactly when it opens; rejects with `OpenFailed` when the store cannot open, or `DataError` when end sorts before start; otherwise resolves with exactly the records dated in the inclusive range, newest first |
| Db.RecordDb.DeleteRecord | src/lib/db.ts:114-124 | a kept handle is reused with no new open request; otherwise exactly one open request is issued and its connection is kept exactly when it opens; removes the key if present, succeeds when it is absent, and leaves every other record unchanged |
| Db.DeleteIdempotent | src/lib/db.ts:120 | deleting a key twice leaves the same store as deleting it once |
| RecordsList.PressureStatusOf | src/components/RecordsList.tsx:20-28 | high exactly when systolic >= 140 or diastolic >= 90; low exactly when not high and systolic < 90 or diastolic < 60; normal exactly otherwise |
| RecordsList.PressureStatusMonotone | src/components/RecordsList.tsx:20-28 | raising either reading never lowers the badge |
| RecordsList.WithSlot | src/components/RecordsList.tsx:83 | the written part of day holds the record and the other part is unchanged |
| RecordsList.LastMatchIndex | src/components/RecordsList.tsx:80-83 | the position of a reading of that day and part of day with none after it, or -1 |
| RecordsList.LastMatch | src/components/RecordsList.tsx:80-83 | none exactly when no reading has that day and part of day; otherwise a matching reading with no matching reading after it |
| RecordsList.LastMatchAppend | src/components/RecordsList.tsx:83 | a reading appended at the end becomes its slot's last match and changes no other slot |
| RecordsList.GroupStep | src/components/RecordsList.tsx:79-84 | folding one reading into a correct table gives the correct table for the longer input |
| RecordsList.GroupByDay | src/components/RecordsList.tsx:78-85 | for dates that are not inherited `Object.prototype` names, the table's keys are exactly the input's dates; each day holds the last morning and the last evening reading; the key list has no duplicates and the same members |
| RecordsList.GroupedUnderOwnKeys | src/components/RecordsList.tsx:79-83 | every reading in the table is an input reading filed under its own date and part of day |
| RecordsList.DateComparator | src/components/RecordsList.tsx:88-92 | no two texts each go before the other, and a text that names no day goes neither before nor after any text, as a NaN comparison does |
| RecordsList.DateComparatorConsistent | src/components/RecordsList.tsx:88-92 | on dates that name days, the comparator is a strict weak order |
| RecordsList.SortedDistinctIsStrict | src/components/RecordsList.tsx:88-92 | sorted distinct dates are strictly ordered: later first under 'desc', earlier first under 'asc' |
| RecordsList.SortedDates | src/components/RecordsList.tsx:88-92 | the sorted dates are the table's dates with their multiplicities, and distinct dates come strictly in the chosen order |
| RecordsList.DaysAreOwnNames | src/components/RecordsList.tsx:80 | a date that names a day is never a name the accumulator inherits from `Object.prototype` |
| RecordsList.KeysAreDays | src/components/RecordsList.tsx:79 | the table's keys name days when every reading's date does |
| RecordsList.OrderedCards | src/components/RecordsList.tsx:88-106 | the cards cover exactly the input's dates, each holds that day's grouped readings, and they are strictly ordered by day |
| RecordsList.RenderRecordsList | src/components/RecordsList.tsx:76-101 | empty state exactly for no readings; otherwise one card per distinct date, each holding that day's grouped readings, strictly ordered by day in the chosen direction |
| Chart.WindowDay | src/components/Chart.tsx:25-26 | every window day is a real day with a four-digit year of the common era (1 or later) |
| Chart.Last30Days | src/components/Chart.tsx:24-28 | the window has exactly 30 entries |
| Chart.WindowNamesItsDays | src/components/Chart.tsx:24-28 | entry i names today minus 29 - i days; the last entry names today |
| Chart.WindowConsecutive | src/components/Chart.tsx:24-28 | each window day is the day after the one before it, and no day lies between them |
| Chart.WindowIncreasing | src/components/Chart.tsx:24-28 | window days strictly increase, as days and as strings, so none repeats |
| Chart.DayRecords | src/components/Chart.tsx:31 | the filter keeps exactly the readings of that date |
| Chart.FindSlot | src/components/Chart.tsx:32-33 | the find gives a reading of that part of day, or none when there is none |
| Chart.FirstMatchIndex | src/components/Chart.tsx:31-33 | the position of a reading of that day and part of day with none before it, or the length when there is none |
| Chart.FirstMatch | src/components/Chart.tsx:31-33 | none exactly when no reading has that day and part of day; otherwise a matching reading with no matching reading before it |
| Chart.FilterThenFind | src/components/Chart.tsx:31-33 | filtering by date then finding by part of day yields the first reading of that day and part of day in the whole input |
| Chart.SystolicOf | src/components/Chart.tsx:37-40 | a value is a gap (`null`) exactly when the slot has no reading, and otherwise is that reading's systolic |
| Chart.DiastolicOf | src/components/Chart.tsx:37-40 | a value is a gap (`null`) exactly when the slot has no reading, and otherwise is that reading's diastolic |
| Chart.PointFor | src/components/Chart.tsx:30-42 | a slot without a reading gives a gap in both values; a present slot gives systolic and diastolic of one and the same reading, the first of that slot |
| Chart.ChartSeries | src/components/Chart.tsx:20-42 | nothing exactly for an empty input; otherwise 30 points, point i being the point of window day i |
| Chart.FirstMatchIndexSkips | src/components/Chart.tsx:31 | inserting a non-matching reading shifts the first match's position by one exactly when it is inserted before it |
| Chart.FirstMatchSkips | src/components/Chart.tsx:31 | a reading that does not match a slot never changes that slot's first match |
| Chart.OutsideWindowIgnored | src/components/Chart.tsx:31 | a reading dated outside the window leaves the series unchanged |
| Chart.NoReadingsInWindowGivesGaps | src/components/Chart.tsx:20-42 | a non-empty input with no reading in the window gives 30 points that are all gaps, which differs from the empty input's nothing |
| App.ChartShowsNewest | src/App.tsx:93 | on the newest-first listing the chart shows a reading of the slot no older than any other |
| App.HistoryShowsOldest | src/App.tsx:92 | on the newest-first listing the history shows a reading of the slot no newer than any other |
| App.ViewsDisagreeOnDuplicates | src/App.tsx:92-93 | when a slot holds readings with different timestamps, the chart and the history show different readings |

## Left out

- IndexedDB mechanics are not modelled: request callbacks, transaction objects, `onupgradeneeded` versioning, and commit failures. Each operation is one atomic step. The only failures modelled are a failed open, a key clash on `add`, and a refused key range.
- Asynchrony and concurrency are left out. Callers racing `initDB`, or interleaved transactions, are outside the sequential contract modelled here.
- The host clock is left out. `Date.now()` readings are parameters. Nothing assumes the second reading is not smaller than the first, because no property depends on it.
- Local time zones and `new Date()` are left out. The chart's "today" is a calendar-day parameter with a year from 2 to 9999. The whole window then has four-digit years of 1 or later, which date-fns writes as the number itself; years 0 and earlier are not modelled.
- `new Date(text)` is modelled as reading canonical 'yyyy-MM-dd' text only. Other texts the JavaScript date parser accepts are treated as naming no day.
- RecordsList.RenderRecordsList: requires every reading's date to name a day. For texts that name no day the comparator yields NaN and is not consistent, so the order JavaScript produces is implementation-defined.
- RecordsList.GroupByDay: requires no date to be a name an empty object inherits from `Object.prototype` ("toString", "constructor", "__proto__" and the rest). For such a name the source finds the inherited member instead of a missing entry and writes onto it, so the date gets no own key.
- Chart.PointFor: the point carries the window's 'yyyy-MM-dd' text. The Russian 'd MMM' axis label that date-fns derives from it is not modelled.
- Locale formatting ('d MMMM yyyy' card headers), JSX rendering, style objects and design tokens are presentation only.
- Characters are Dafny `char`s. They agree with UTF-16 code-unit order on the ASCII texts the model produces.
- `src/components/BloodPressureForm.tsx` is not part of this model. It covers form state, `parseInt` and the morning default.
- The rest of `src/App.tsx` is not modelled: refetching after add and delete, and tab switching.
- The icon scripts are not part of this model. They do filesystem and canvas I/O.

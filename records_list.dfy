/** The history view (src/components/RecordsList.tsx): the status badge of
    one reading, the table that groups readings by day and part of day, the
    order of the day cards, and the empty state. */
module RecordsList {
  import opened Wrappers
  import opened Calendar
  import opened Db
  import opened Ordering

  /** The badge `getPressureStatus` puts on a reading. */
  datatype PressureStatus = High | Low | Normal

  /** `getPressureStatus`: high pressure wins over low pressure. */
  function PressureStatusOf(systolic: int, diastolic: int): (r: PressureStatus)
    ensures r == High <==> systolic >= 140 || diastolic >= 90
    ensures r == Low <==> systolic < 140 && diastolic < 90 && (systolic < 90 || diastolic < 60)
    ensures r == Normal <==> 90 <= systolic < 140 && 60 <= diastolic < 90
  {
    if systolic >= 140 || diastolic >= 90 then High
    else if systolic < 90 || diastolic < 60 then Low
    else Normal
  }

  function Severity(s: PressureStatus): nat
  {
    match s
    case Low => 0
    case Normal => 1
    case High => 2
  }

  /** Raising either reading never moves the badge down from high to
      normal or from normal to low. */
  lemma PressureStatusMonotone(systolic: int, diastolic: int, systolic': int, diastolic': int)
    requires systolic <= systolic' && diastolic <= diastolic'
    ensures Severity(PressureStatusOf(systolic, diastolic)) <= Severity(PressureStatusOf(systolic', diastolic'))
  {
  }

  /** One day of the grouping table: at most one reading per part of day. */
  datatype DaySlots = DaySlots(morning: Option<Record>, evening: Option<Record>)

  function SlotOf(day: DaySlots, t: Slot): Option<Record>
  {
    match t
    case Morning => day.morning
    case Evening => day.evening
  }

  /** `acc[date][record.time] = record`. */
  function WithSlot(day: DaySlots, t: Slot, r: Record): (d: DaySlots)
    ensures SlotOf(d, t) == Some(r)
    ensures forall u :: u != t ==> SlotOf(d, u) == SlotOf(day, u)
  {
    match t
    case Morning => day.(morning := Some(r))
    case Evening => day.(evening := Some(r))
  }

  /** Where the last reading of `rs` taken on `date` in part of day `t`
      stands, or -1 when there is none. */
  function LastMatchIndex(rs: seq<Record>, date: string, t: Slot): (k: int)
    ensures -1 <= k < |rs|
    ensures k >= 0 ==> Matches(rs[k], date, t)
    ensures forall j :: k < j < |rs| ==> !Matches(rs[j], date, t)
  {
    if rs == [] then -1
    else if Matches(rs[|rs| - 1], date, t) then |rs| - 1
    else LastMatchIndex(rs[..|rs| - 1], date, t)
  }

  /** The last reading of `rs` taken on `date` in part of day `t`. */
  function LastMatch(rs: seq<Record>, date: string, t: Slot): (r: Option<Record>)
    ensures r.None? <==> forall i :: 0 <= i < |rs| ==> !Matches(rs[i], date, t)
    ensures r.Some? ==>
      exists i :: 0 <= i < |rs| && rs[i] == r.value && Matches(rs[i], date, t)
        && (forall j :: i < j < |rs| ==> !Matches(rs[j], date, t))
  {
    var k := LastMatchIndex(rs, date, t);
    if k < 0 then None else Some(rs[k])
  }

  lemma LastMatchAppend(rs: seq<Record>, x: Record, date: string, t: Slot)
    ensures LastMatch(rs + [x], date, t) == if Matches(x, date, t) then Some(x) else LastMatch(rs, date, t)
  {
    assert (rs + [x])[..|rs|] == rs;
  }

  function DatesOf(rs: seq<Record>): set<string>
  {
    set r | r in rs :: r.date
  }

  /** The row the grouping should hold for `date`: the last morning and the
      last evening reading of that day, under the input's order. */
  function DayOf(rs: seq<Record>, date: string): DaySlots
  {
    DaySlots(LastMatch(rs, date, Morning), LastMatch(rs, date, Evening))
  }

  /** Folding one more reading into a table that is right for `prefix`
      gives the table that is right for `prefix + [record]`. */
  lemma GroupStep(prefix: seq<Record>, record: Record, byDay: map<string, DaySlots>)
    requires byDay.Keys == DatesOf(prefix)
    requires forall d :: d in byDay ==> byDay[d] == DayOf(prefix, d)
    ensures var day := if record.date in byDay then byDay[record.date] else DaySlots(None, None);
      var next := byDay[record.date := WithSlot(day, record.time, record)];
      && next.Keys == DatesOf(prefix + [record])
      && forall d :: d in next ==> next[d] == DayOf(prefix + [record], d)
  {
    var extended := prefix + [record];
    assert DatesOf(extended) == DatesOf(prefix) + {record.date} by {
      assert forall r :: r in extended <==> r in prefix || r == record;
    }
    forall d, t: Slot
      ensures LastMatch(extended, d, t) == if Matches(record, d, t) then Some(record) else LastMatch(prefix, d, t)
    {
      LastMatchAppend(prefix, record, d, t);
    }
    if record.date !in byDay {
      forall t: Slot
        ensures LastMatch(prefix, record.date, t) == None
      {
        forall i | 0 <= i < |prefix|
          ensures !Matches(prefix[i], record.date, t)
        {
          assert prefix[i] in prefix;
        }
      }
    }
  }

  /** The names an empty object literal already answers to, inherited from
      `Object.prototype`.  Looking one of them up in the accumulator finds
      the inherited member rather than nothing. */
  const InheritedNames: set<string> := {
    "constructor", "__proto__", "hasOwnProperty", "isPrototypeOf",
    "propertyIsEnumerable", "toLocaleString", "toString", "valueOf",
    "__defineGetter__", "__defineSetter__", "__lookupGetter__", "__lookupSetter__"}

  /** A date that names a day is never an inherited name. */
  lemma DaysAreOwnNames(records: seq<Record>)
    requires forall i :: 0 <= i < |records| ==> ParseDate(records[i].date).Some?
    ensures forall i :: 0 <= i < |records| ==> records[i].date !in InheritedNames
  {
  }

  /** The `reduce` of RecordsList: a table from each date to its readings,
      where a later reading of the same day and part of day overwrites an
      earlier one.  `keys` lists the dates in the order they were first met
      (the order `Object.keys` gives back). */
  method GroupByDay(records: seq<Record>) returns (byDay: map<string, DaySlots>, keys: seq<string>)
    requires forall i :: 0 <= i < |records| ==> records[i].date !in InheritedNames
    ensures byDay.Keys == DatesOf(records)
    ensures forall d :: d in byDay ==> byDay[d] == DayOf(records, d)
    ensures NoDuplicates(keys) && forall d :: d in keys <==> d in byDay
  {
    byDay := map[];
    keys := [];
    var i := 0;
    while i < |records|
      invariant 0 <= i <= |records|
      invariant byDay.Keys == DatesOf(records[..i])
      invariant forall d :: d in byDay ==> byDay[d] == DayOf(records[..i], d)
      invariant NoDuplicates(keys) && forall d :: d in keys <==> d in byDay
    {
      var record := records[i];
      assert records[..i + 1] == records[..i] + [record];
      GroupStep(records[..i], record, byDay);
      if record.date !in byDay {
        byDay := byDay[record.date := DaySlots(None, None)];
        keys := keys + [record.date];
      }
      byDay := byDay[record.date := WithSlot(byDay[record.date], record.time, record)];
      i := i + 1;
    }
    assert records[..i] == records;
  }

  /** Every reading the table keeps sits under its own date and part of day. */
  lemma GroupedUnderOwnKeys(records: seq<Record>, d: string, t: Slot)
    requires SlotOf(DayOf(records, d), t).Some?
    ensures var r := SlotOf(DayOf(records, d), t).value; r in records && r.date == d && r.time == t
  {
  }

  datatype SortOrder = Asc | Desc

  /** Day `a` goes before day `b`: later first under 'desc', earlier first under 'asc'. */
  predicate DayBefore(a: CalendarDate, b: CalendarDate, order: SortOrder)
  {
    match order
    case Desc => DateLess(b, a)
    case Asc => DateLess(a, b)
  }

  /** The date comparator of RecordsList, read as "goes strictly before":
      `new Date(text).getTime()` stands for the day a 'yyyy-MM-dd' text
      names, and the comparator is negative when `a`'s day is the later one
      under 'desc' or the earlier one under 'asc'.  A text that names no
      day gives NaN, which the sort reads as "neither goes first". */
  predicate DateTextBefore(a: string, b: string, order: SortOrder)
  {
    ParseDate(a).Some? && ParseDate(b).Some? && DayBefore(ParseDate(a).value, ParseDate(b).value, order)
  }

  function DateComparator(order: SortOrder): (before: (string, string) -> bool)
    ensures forall a, b :: before(a, b) ==> !before(b, a)
    ensures forall a, b :: ParseDate(a).None? ==> !before(a, b) && !before(b, a)
  {
    (a, b) => DateTextBefore(a, b, order)
  }

  /** On texts that all name days the comparator is consistent (a strict
      weak order), so the sort's result is determined. */
  lemma DateComparatorConsistent(dom: set<string>, order: SortOrder)
    requires forall s :: s in dom ==> ParseDate(s).Some?
    ensures StrictWeakOrderOn(DateComparator(order), dom)
  {
    var before := DateComparator(order);
    forall x, y | x in dom && y in dom && before(x, y)
      ensures !before(y, x)
    {
      var dx, dy := ParseDate(x).value, ParseDate(y).value;
      assert DayBefore(dx, dy, order);
    }
    forall x, y, z | x in dom && y in dom && z in dom && !before(x, y) && !before(y, z)
      ensures !before(x, z)
    {
      var dx, dy, dz := ParseDate(x).value, ParseDate(y).value, ParseDate(z).value;
      assert !DayBefore(dx, dy, order) && !DayBefore(dy, dz, order);
    }
  }

  /** Sorted texts that name distinct days are strictly ordered: each day
      card's day comes strictly after the one before it in the chosen order. */
  lemma SortedDistinctIsStrict(s: seq<string>, order: SortOrder)
    requires forall i :: 0 <= i < |s| ==> ParseDate(s[i]).Some?
    requires SortedBy(DateComparator(order), s) && NoDuplicates(s)
    ensures forall i, j :: 0 <= i < j < |s| ==> DateTextBefore(s[i], s[j], order)
  {
    forall i, j | 0 <= i < j < |s|
      ensures DateTextBefore(s[i], s[j], order)
    {
      assert !DateComparator(order)(s[j], s[i]);
      if ParseDate(s[i]) == ParseDate(s[j]) {
        ParseDateInjective(s[i], s[j]);
      }
    }
  }

  /** Every date the grouping table is keyed by names a day when every
      reading's date does. */
  lemma KeysAreDays(records: seq<Record>, keys: seq<string>)
    requires forall i :: 0 <= i < |records| ==> ParseDate(records[i].date).Some?
    requires forall d :: d in keys ==> d in DatesOf(records)
    ensures forall k :: k in keys ==> ParseDate(k).Some?
  {
    forall k | k in keys
      ensures ParseDate(k).Some?
    {
      var r :| r in records && r.date == k;
      var n :| 0 <= n < |records| && records[n] == r;
    }
  }

  /** One day card of the list: its date and the readings shown in its two columns. */
  datatype DayCard = DayCard(date: string, slots: DaySlots)

  /** What RecordsList shows: the empty state, or the day cards in order. */
  datatype HistoryView = EmptyState | DayCards(cards: seq<DayCard>)

  /** `sortedDates`: the table's dates sorted with the date comparator.  The
      result holds the same dates, and when they are distinct (as the keys of
      a table are) they come strictly in the chosen order. */
  function SortedDates(keys: seq<string>, order: SortOrder): (sorted: seq<string>)
    requires forall k :: k in keys ==> ParseDate(k).Some?
    ensures multiset(sorted) == multiset(keys)
    ensures NoDuplicates(keys) ==> forall i, j :: 0 <= i < j < |sorted| ==> DateTextBefore(sorted[i], sorted[j], order)
  {
    var dom := set k | k in keys;
    DateComparatorConsistent(dom, order);
    var sorted := InsertionSort(DateComparator(order), dom, keys);
    SameMembers(sorted, keys);
    assert forall i :: 0 <= i < |sorted| ==> ParseDate(sorted[i]).Some? by {
      forall i | 0 <= i < |sorted|
        ensures ParseDate(sorted[i]).Some?
      {
        assert sorted[i] in keys;
      }
    }
    if NoDuplicates(keys) then
      SortedDistinctIsStrict(sorted, order);
      sorted
    else
      sorted
  }

  /** The cards built from the sorted dates of a correct grouping table
      cover exactly the input's dates, hold each day's readings, and are
      strictly ordered by day. */
  lemma CardsFacts(records: seq<Record>, byDay: map<string, DaySlots>, keys: seq<string>,
                   sortedDates: seq<string>, cards: seq<DayCard>, order: SortOrder)
    requires byDay.Keys == DatesOf(records)
    requires forall d :: d in byDay ==> byDay[d] == DayOf(records, d)
    requires forall d :: d in keys <==> d in byDay
    requires multiset(sortedDates) == multiset(keys)
    requires forall i, j :: 0 <= i < j < |sortedDates| ==> DateTextBefore(sortedDates[i], sortedDates[j], order)
    requires |cards| == |sortedDates|
    requires forall i :: 0 <= i < |cards| ==>
      cards[i].date == sortedDates[i] && sortedDates[i] in byDay && cards[i].slots == byDay[sortedDates[i]]
    ensures forall d :: d in DatesOf(records) <==> exists i :: 0 <= i < |cards| && cards[i].date == d
    ensures forall i :: 0 <= i < |cards| ==> cards[i].slots == DayOf(records, cards[i].date)
    ensures forall i, j :: 0 <= i < j < |cards| ==> DateTextBefore(cards[i].date, cards[j].date, order)
  {
    SameMembers(sortedDates, keys);
    forall d | d in DatesOf(records)
      ensures exists i :: 0 <= i < |cards| && cards[i].date == d
    {
      var i :| 0 <= i < |sortedDates| && sortedDates[i] == d;
      assert cards[i].date == d;
    }
  }

  /** `sortedDates` and the cards built from them: the dates of a correct
      grouping table, sorted with the date comparator, each with its day's
      readings. */
  method OrderedCards(records: seq<Record>, byDay: map<string, DaySlots>, keys: seq<string>, order: SortOrder)
    returns (cards: seq<DayCard>)
    requires forall i :: 0 <= i < |records| ==> ParseDate(records[i].date).Some?
    requires byDay.Keys == DatesOf(records)
    requires forall d :: d in byDay ==> byDay[d] == DayOf(records, d)
    requires NoDuplicates(keys) && forall d :: d in keys <==> d in byDay
    ensures forall d :: d in DatesOf(records) <==> exists i :: 0 <= i < |cards| && cards[i].date == d
    ensures forall i :: 0 <= i < |cards| ==> cards[i].slots == DayOf(records, cards[i].date)
    ensures forall i, j :: 0 <= i < j < |cards| ==> DateTextBefore(cards[i].date, cards[j].date, order)
  {
    KeysAreDays(records, keys);
    var sortedDates := SortedDates(keys, order);
    SameMembers(sortedDates, keys);
    cards := seq(|sortedDates|, i requires 0 <= i < |sortedDates| => DayCard(sortedDates[i], byDay[sortedDates[i]]));
    CardsFacts(records, byDay, keys, sortedDates, cards, order);
  }

  /** RecordsList: group, order the dates, and show the empty state when
      there are no readings at all. */
  method RenderRecordsList(records: seq<Record>, order: SortOrder) returns (view: HistoryView)
    requires forall i :: 0 <= i < |records| ==> ParseDate(records[i].date).Some?
    ensures view.EmptyState? <==> records == []
    ensures view.DayCards? ==>
      && (forall d :: d in DatesOf(records) <==> exists i :: 0 <= i < |view.cards| && view.cards[i].date == d)
      && (forall i :: 0 <= i < |view.cards| ==> view.cards[i].slots == DayOf(records, view.cards[i].date))
      && (forall i, j :: 0 <= i < j < |view.cards| ==> DateTextBefore(view.cards[i].date, view.cards[j].date, order))
  {
    DaysAreOwnNames(records);
    var byDay, keys := GroupByDay(records);
    var cards := OrderedCards(records, byDay, keys, order);
    if |records| == 0 {
      return EmptyState;
    }
    view := DayCards(cards);
  }
}

/** The 30-day chart (src/components/Chart.tsx): the window of the last 30
    calendar days ending today, and one chart point per day holding the
    morning and evening pressure of that day or gaps. */
module Chart {
  import opened Wrappers
  import opened Strings
  import opened Calendar
  import opened Db

  const WindowSize: nat := 30

  /** Today's date that the window can be written for: every day of the
      window then has a four-digit year of the common era, which date-fns
      writes as the number itself. */
  predicate WindowToday(today: CalendarDate)
  {
    Valid(today) && 2 <= today.year <= 9999
  }

  /** Day `i` of the window, oldest first: today minus `29 - i` days (the
      local `Date` moved back with `setDate(getDate() - (29 - i))`). */
  function WindowDay(today: CalendarDate, i: nat): (d: CalendarDate)
    requires WindowToday(today) && i < WindowSize
    ensures Formattable(d) && 1 <= d.year
  {
    MinusDaysYear(today, WindowSize - 1 - i);
    MinusDays(today, WindowSize - 1 - i)
  }

  /** `last30Days`: the 30 window days written 'yyyy-MM-dd', oldest first. */
  function Last30Days(today: CalendarDate): (w: seq<string>)
    requires WindowToday(today)
    ensures |w| == WindowSize
  {
    seq(WindowSize, i requires 0 <= i < WindowSize => Format(WindowDay(today, i)))
  }

  /** Each entry names the day it stands for, and the last one names today. */
  lemma WindowNamesItsDays(today: CalendarDate)
    requires WindowToday(today)
    ensures forall i :: 0 <= i < WindowSize ==> ParseDate(Last30Days(today)[i]) == Some(MinusDays(today, WindowSize - 1 - i))
    ensures ParseDate(Last30Days(today)[WindowSize - 1]) == Some(today)
  {
    forall i | 0 <= i < WindowSize
      ensures ParseDate(Last30Days(today)[i]) == Some(MinusDays(today, WindowSize - 1 - i))
    {
      FormatParseRoundTrip(WindowDay(today, i));
    }
  }

  /** The window's days are consecutive: each is the day after the one
      before, and no day lies between them. */
  lemma WindowConsecutive(today: CalendarDate, i: nat)
    requires WindowToday(today) && i + 1 < WindowSize
    ensures NextDay(WindowDay(today, i)) == WindowDay(today, i + 1)
    ensures forall x :: Valid(x) ==> !(DateLess(WindowDay(today, i), x) && DateLess(x, WindowDay(today, i + 1)))
  {
    PrevNextRoundTrip(WindowDay(today, i + 1));
    forall x | Valid(x)
      ensures !(DateLess(WindowDay(today, i), x) && DateLess(x, WindowDay(today, i + 1)))
    {
      PrevDayIsAdjacent(WindowDay(today, i + 1), x);
    }
  }

  /** The window's texts strictly increase, as strings and as days, so no
      day occurs twice. */
  lemma WindowIncreasing(today: CalendarDate, i: nat, j: nat)
    requires WindowToday(today) && i < j < WindowSize
    ensures DateLess(WindowDay(today, i), WindowDay(today, j))
    ensures StrLess(Last30Days(today)[i], Last30Days(today)[j])
    ensures Last30Days(today)[i] != Last30Days(today)[j]
  {
    MinusDaysOrder(today, WindowSize - 1 - j, WindowSize - 1 - i);
    FormatOrder(WindowDay(today, i), WindowDay(today, j));
    StrLessIrreflexive(Last30Days(today)[i]);
  }

  /** `records.filter((r) => r.date === date)`. */
  function DayRecords(rs: seq<Record>, date: string): (r: seq<Record>)
    ensures forall x :: x in r <==> x in rs && x.date == date
  {
    if rs == [] then []
    else if rs[0].date == date then [rs[0]] + DayRecords(rs[1..], date)
    else DayRecords(rs[1..], date)
  }

  /** `dayRecords.find((r) => r.time === t)`. */
  function FindSlot(rs: seq<Record>, t: Slot): (r: Option<Record>)
    ensures r.Some? ==> r.value in rs && r.value.time == t
    ensures r.None? ==> forall x :: x in rs ==> x.time != t
  {
    if rs == [] then None
    else if rs[0].time == t then Some(rs[0])
    else FindSlot(rs[1..], t)
  }

  /** Where the first reading of `rs` taken on `date` in part of day `t`
      stands, or `|rs|` when there is none. */
  function FirstMatchIndex(rs: seq<Record>, date: string, t: Slot): (k: nat)
    ensures k <= |rs|
    ensures k < |rs| ==> Matches(rs[k], date, t)
    ensures forall j :: 0 <= j < k ==> !Matches(rs[j], date, t)
  {
    if rs == [] then 0
    else if Matches(rs[0], date, t) then 0
    else 1 + FirstMatchIndex(rs[1..], date, t)
  }

  /** The first reading of `rs` taken on `date` in part of day `t`. */
  function FirstMatch(rs: seq<Record>, date: string, t: Slot): (r: Option<Record>)
    ensures r.None? <==> forall i :: 0 <= i < |rs| ==> !Matches(rs[i], date, t)
    ensures r.Some? ==>
      exists i :: 0 <= i < |rs| && rs[i] == r.value && Matches(rs[i], date, t)
        && (forall j :: 0 <= j < i ==> !Matches(rs[j], date, t))
  {
    var k := FirstMatchIndex(rs, date, t);
    if k == |rs| then None else Some(rs[k])
  }

  /** Filtering by date and then finding by part of day finds the first
      reading of that day and part of day in the whole input. */
  lemma {:induction false} FilterThenFind(rs: seq<Record>, date: string, t: Slot)
    ensures FindSlot(DayRecords(rs, date), t) == FirstMatch(rs, date, t)
  {
    if rs != [] {
      FilterThenFind(rs[1..], date, t);
    }
  }

  /** One point of `chartData`. */
  datatype ChartPoint = ChartPoint(
    date: string,
    morningSystolic: Option<int>,
    morningDiastolic: Option<int>,
    eveningSystolic: Option<int>,
    eveningDiastolic: Option<int>)

  function SystolicOf(r: Option<Record>): (v: Option<int>)
    ensures v.None? <==> r.None?
    ensures r.Some? ==> v == Some(r.value.systolic)
  {
    if r.Some? then Some(r.value.systolic) else None
  }

  function DiastolicOf(r: Option<Record>): (v: Option<int>)
    ensures v.None? <==> r.None?
    ensures r.Some? ==> v == Some(r.value.diastolic)
  {
    if r.Some? then Some(r.value.diastolic) else None
  }

  /** The point of one window day: the values of the first morning and the
      first evening reading of that day; a slot without a reading is a gap
      in both of its values, and a present slot gives both values of one
      reading. */
  function PointFor(records: seq<Record>, date: string): (p: ChartPoint)
    ensures p.date == date
    ensures var m := FirstMatch(records, date, Morning);
      && (m.None? ==> p.morningSystolic.None? && p.morningDiastolic.None?)
      && (m.Some? ==> p.morningSystolic == Some(m.value.systolic) && p.morningDiastolic == Some(m.value.diastolic))
    ensures var e := FirstMatch(records, date, Evening);
      && (e.None? ==> p.eveningSystolic.None? && p.eveningDiastolic.None?)
      && (e.Some? ==> p.eveningSystolic == Some(e.value.systolic) && p.eveningDiastolic == Some(e.value.diastolic))
  {
    var dayRecords := DayRecords(records, date);
    var morning := FindSlot(dayRecords, Morning);
    var evening := FindSlot(dayRecords, Evening);
    FilterThenFind(records, date, Morning);
    FilterThenFind(records, date, Evening);
    ChartPoint(date, SystolicOf(morning), DiastolicOf(morning), SystolicOf(evening), DiastolicOf(evening))
  }

  /** The series the chart draws: nothing at all for an empty input,
      otherwise one point per window day, in window order. */
  function ChartSeries(records: seq<Record>, today: CalendarDate): (r: Option<seq<ChartPoint>>)
    requires WindowToday(today)
    ensures r.None? <==> records == []
    ensures r.Some? ==>
      && |r.value| == WindowSize
      && forall i :: 0 <= i < WindowSize ==> r.value[i] == PointFor(records, Last30Days(today)[i])
  {
    if |records| == 0 then None
    else
      var window := Last30Days(today);
      Some(seq(|window|, i requires 0 <= i < |window| => PointFor(records, window[i])))
  }

  /** A reading that does not match `date` and `t` only shifts where the
      first match stands when it comes before it. */
  lemma {:induction false} FirstMatchIndexSkips(a: seq<Record>, x: Record, b: seq<Record>, date: string, t: Slot)
    requires !Matches(x, date, t)
    ensures var k, k' := FirstMatchIndex(a + [x] + b, date, t), FirstMatchIndex(a + b, date, t);
      (k' < |a| && k == k') || (k' >= |a| && k == k' + 1)
  {
    var c, d := a + [x] + b, a + b;
    if a == [] {
      assert c[0] == x && c[1..] == b && d == b;
    } else {
      assert c[0] == a[0] && d[0] == a[0];
      assert c[1..] == a[1..] + [x] + b && d[1..] == a[1..] + b;
      if !Matches(a[0], date, t) {
        FirstMatchIndexSkips(a[1..], x, b, date, t);
      }
    }
  }

  /** A reading that does not match `date` and `t` does not change which
      reading is the first match. */
  lemma FirstMatchSkips(a: seq<Record>, x: Record, b: seq<Record>, date: string, t: Slot)
    requires !Matches(x, date, t)
    ensures FirstMatch(a + [x] + b, date, t) == FirstMatch(a + b, date, t)
  {
    FirstMatchIndexSkips(a, x, b, date, t);
    var c, d := a + [x] + b, a + b;
    var k, k' := FirstMatchIndex(c, date, t), FirstMatchIndex(d, date, t);
    if k' < |a| {
      assert c[k] == a[k] == d[k'];
    } else if k' < |d| {
      assert c[k] == b[k' - |a|] == d[k'];
    }
  }

  /** A reading dated outside the window contributes to no point: the
      series is the same with or without it (as long as something else
      keeps the input non-empty). */
  lemma OutsideWindowIgnored(a: seq<Record>, x: Record, b: seq<Record>, today: CalendarDate)
    requires WindowToday(today) && a + b != []
    requires x.date !in Last30Days(today)
    ensures ChartSeries(a + [x] + b, today) == ChartSeries(a + b, today)
  {
    var window := Last30Days(today);
    forall i | 0 <= i < WindowSize
      ensures PointFor(a + [x] + b, window[i]) == PointFor(a + b, window[i])
    {
      assert window[i] in window;
      FirstMatchSkips(a, x, b, window[i], Morning);
      FirstMatchSkips(a, x, b, window[i], Evening);
    }
    assert ChartSeries(a + [x] + b, today).value == ChartSeries(a + b, today).value;
  }

  /** A non-empty input with no reading inside the window still gives 30
      points, all of them gaps: a different outcome from the empty input. */
  lemma NoReadingsInWindowGivesGaps(records: seq<Record>, today: CalendarDate)
    requires WindowToday(today) && records != []
    requires forall r :: r in records ==> r.date !in Last30Days(today)
    ensures var s := ChartSeries(records, today);
      s.Some? && forall i :: 0 <= i < WindowSize ==>
        s.value[i].morningSystolic.None? && s.value[i].morningDiastolic.None? &&
        s.value[i].eveningSystolic.None? && s.value[i].eveningDiastolic.None?
  {
    var window := Last30Days(today);
    forall i, t: Slot | 0 <= i < WindowSize
      ensures FirstMatch(records, window[i], t).None?
    {
      forall k | 0 <= k < |records|
        ensures !Matches(records[k], window[i], t)
      {
        assert records[k] in records;
      }
    }
  }
}

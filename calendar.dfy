/** Calendar dates as the diary uses them: proleptic Gregorian days, written
    'yyyy-MM-dd' (what date-fns `format(date, 'yyyy-MM-dd')` produces and
    what `new Date(...)` reads back), and day-by-day arithmetic standing for
    `Date.prototype.setDate` with a negative offset. */
module Calendar {
  import opened Wrappers
  import opened Strings

  datatype CalendarDate = CalendarDate(year: int, month: int, day: int)

  predicate IsLeapYear(y: int)
  {
    y % 4 == 0 && (y % 100 != 0 || y % 400 == 0)
  }

  function DaysInMonth(y: int, m: int): (n: int)
    requires 1 <= m <= 12
    ensures 28 <= n <= 31
  {
    if m == 2 then (if IsLeapYear(y) then 29 else 28)
    else if m == 4 || m == 6 || m == 9 || m == 11 then 30
    else 31
  }

  /** A day that exists in the calendar. */
  predicate Valid(d: CalendarDate)
  {
    1 <= d.month <= 12 && 1 <= d.day <= DaysInMonth(d.year, d.month)
  }

  /** A day whose year fits the four digits of 'yyyy'. */
  predicate Formattable(d: CalendarDate)
  {
    Valid(d) && 0 <= d.year <= 9999
  }

  /** `a` is an earlier day than `b` (what comparing `getTime()` of the two
      midnights decides). */
  predicate DateLess(a: CalendarDate, b: CalendarDate)
  {
    a.year < b.year || (a.year == b.year && (a.month < b.month || (a.month == b.month && a.day < b.day)))
  }

  /** The day before `d`. */
  function PrevDay(d: CalendarDate): (p: CalendarDate)
    requires Valid(d)
    ensures Valid(p) && DateLess(p, d)
  {
    if d.day > 1 then CalendarDate(d.year, d.month, d.day - 1)
    else if d.month > 1 then CalendarDate(d.year, d.month - 1, DaysInMonth(d.year, d.month - 1))
    else CalendarDate(d.year - 1, 12, 31)
  }

  /** The day after `d`. */
  function NextDay(d: CalendarDate): (n: CalendarDate)
    requires Valid(d)
    ensures Valid(n) && DateLess(d, n)
  {
    if d.day < DaysInMonth(d.year, d.month) then CalendarDate(d.year, d.month, d.day + 1)
    else if d.month < 12 then CalendarDate(d.year, d.month + 1, 1)
    else CalendarDate(d.year + 1, 1, 1)
  }

  /** PrevDay and NextDay undo each other. */
  lemma PrevNextRoundTrip(d: CalendarDate)
    requires Valid(d)
    ensures NextDay(PrevDay(d)) == d && PrevDay(NextDay(d)) == d
  {
  }

  /** No day lies strictly between a day and the day before it. */
  lemma PrevDayIsAdjacent(d: CalendarDate, x: CalendarDate)
    requires Valid(d) && Valid(x)
    ensures !(DateLess(PrevDay(d), x) && DateLess(x, d))
  {
  }

  /** The day `k` days before `d`: a real day, strictly earlier unless `k`
      is zero. */
  function MinusDays(d: CalendarDate, k: nat): (r: CalendarDate)
    requires Valid(d)
    ensures Valid(r)
    ensures k == 0 ==> r == d
    ensures k > 0 ==> DateLess(r, d)
  {
    if k == 0 then d else PrevDay(MinusDays(d, k - 1))
  }

  /** Going back at most 31 days stays in the same year or lands in December
      of the year before. */
  lemma {:induction false} MinusDaysYear(d: CalendarDate, k: nat)
    requires Valid(d) && k <= 31
    ensures var r := MinusDays(d, k);
      r.year == d.year || (r.year == d.year - 1 && r.month == 12 && r.day + k >= 32)
  {
    if k > 0 {
      MinusDaysYear(d, k - 1);
    }
  }

  /** Going further back gives a strictly earlier day. */
  lemma {:induction false} MinusDaysOrder(d: CalendarDate, i: nat, j: nat)
    requires Valid(d) && i < j
    ensures DateLess(MinusDays(d, j), MinusDays(d, i))
  {
    if j - 1 > i {
      MinusDaysOrder(d, i, j - 1);
    }
  }

  /** The text 'yyyy-MM-dd' of a day: four digits, a dash, two digits, a
      dash, two digits. */
  function Format(d: CalendarDate): (s: string)
    requires Formattable(d)
    ensures |s| == 10 && s[4] == '-' && s[7] == '-'
    ensures AllDigits(s[..4]) && AllDigits(s[5..7]) && AllDigits(s[8..])
  {
    PadDigits(4, d.year) + "-" + PadDigits(2, d.month) + "-" + PadDigits(2, d.day)
  }

  /** The day a 'yyyy-MM-dd' text names, or None when the text is not one. */
  function ParseDate(s: string): (r: Option<CalendarDate>)
    ensures r.Some? ==> Formattable(r.value) && |s| == 10 && s[4] == '-' && s[7] == '-'
  {
    if |s| == 10 && s[4] == '-' && s[7] == '-'
      && AllDigits(s[..4]) && AllDigits(s[5..7]) && AllDigits(s[8..])
    then
      DigitsPadRoundTrip(s[..4]);
      var d := CalendarDate(DigitsValue(s[..4]), DigitsValue(s[5..7]), DigitsValue(s[8..]));
      if Valid(d) then Some(d) else None
    else None
  }

  /** A digit text is the padded text of the number it denotes. */
  lemma {:induction false} DigitsPadRoundTrip(t: string)
    requires AllDigits(t)
    ensures DigitsValue(t) < Pow10(|t|) && PadDigits(|t|, DigitsValue(t)) == t
  {
    if t != [] {
      var init := t[..|t| - 1];
      DigitsPadRoundTrip(init);
      assert t == init + [t[|t| - 1]];
    }
  }

  /** Reading a formatted day gives the day back. */
  lemma FormatParseRoundTrip(d: CalendarDate)
    requires Formattable(d)
    ensures ParseDate(Format(d)) == Some(d)
  {
    var y, m, dd := PadDigits(4, d.year), PadDigits(2, d.month), PadDigits(2, d.day);
    var s := Format(d);
    assert s[..4] == y && s[5..7] == m && s[8..] == dd;
    PadDigitsRoundTrip(4, d.year);
    PadDigitsRoundTrip(2, d.month);
    PadDigitsRoundTrip(2, d.day);
  }

  /** Only canonical texts are read as days, and formatting one gives it back. */
  lemma ParseFormatRoundTrip(s: string)
    requires ParseDate(s).Some?
    ensures Formattable(ParseDate(s).value) && Format(ParseDate(s).value) == s
  {
    DigitsPadRoundTrip(s[..4]);
    DigitsPadRoundTrip(s[5..7]);
    DigitsPadRoundTrip(s[8..]);
    assert s == s[..4] + "-" + s[5..7] + "-" + s[8..];
  }

  /** Different texts never name the same day. */
  lemma ParseDateInjective(s: string, t: string)
    requires ParseDate(s).Some? && ParseDate(s) == ParseDate(t)
    ensures s == t
  {
    ParseFormatRoundTrip(s);
    ParseFormatRoundTrip(t);
  }

  /** Two texts made of a field, a dash and a rest compare field first
      when the fields have one length. */
  lemma DashedOrder(p: string, q: string, p': string, q': string)
    requires |p| == |p'|
    ensures StrLess(p + "-" + q, p' + "-" + q') <==> StrLess(p, p') || (p == p' && StrLess(q, q'))
  {
    assert p + "-" + q == p + ("-" + q) && p' + "-" + q' == p' + ("-" + q');
    StrLessConcat(p, "-" + q, p', "-" + q');
    StrLessConcat("-", q, "-", q');
    StrLessIrreflexive("-");
  }

  /** With zero-padded fields, comparing the texts as strings is the same as
      comparing the days chronologically. */
  lemma FormatOrder(a: CalendarDate, b: CalendarDate)
    requires Formattable(a) && Formattable(b)
    ensures StrLess(Format(a), Format(b)) <==> DateLess(a, b)
  {
    var ya, ma, da := PadDigits(4, a.year), PadDigits(2, a.month), PadDigits(2, a.day);
    var yb, mb, db := PadDigits(4, b.year), PadDigits(2, b.month), PadDigits(2, b.day);
    assert Format(a) == ya + "-" + (ma + "-" + da) && Format(b) == yb + "-" + (mb + "-" + db);
    DashedOrder(ya, ma + "-" + da, yb, mb + "-" + db);
    DashedOrder(ma, da, mb, db);
    PadDigitsOrder(4, a.year, b.year);
    PadDigitsInjective(4, a.year, b.year);
    PadDigitsOrder(2, a.month, b.month);
    PadDigitsInjective(2, a.month, b.month);
    PadDigitsOrder(2, a.day, b.day);
  }
}

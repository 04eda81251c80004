/** The calendar anchors: the date with a given weekday in the source's week, with a given
    day in the source's month, the first and last dates of the source's (possibly shifted)
    year, the strictly earlier or later ones the *Core rules step to, plusToDateCore and
    areInSameMonth/areInSameYear.

    Each public operation parses its argument with parseDate (so an argument of an
    unsupported type raises, and one that does not parse gives null) and then applies a
    rule to the parsed date; the rules on dates come first below. */
module Anchors {
  import opened Wrappers
  import opened Calendar
  import opened Blank
  import opened Patterns
  import opened Parsing
  import opened Comparison

  // ----- weekdays -----

  /** parseDayOfWeek: clamp to [0, 7], then 0 means Sunday (7). */
  function ParseDayOfWeek(dayOfWeek: int): (w: int)
    ensures 1 <= w <= 7
    ensures 1 <= dayOfWeek <= 6 ==> w == dayOfWeek
    ensures dayOfWeek <= 0 || 7 <= dayOfWeek ==> w == 7
  {
    var clamped := Clamp(dayOfWeek, 0, 7);
    if clamped != 0 then clamped else 7
  }

  /** The day number of the Sunday before d's Monday-to-Sunday week: equal for exactly the
      dates of one such week. */
  function MondayWeek(d: Date): int
    requires Valid(d)
  {
    DayNumber(d) - DayOfWeek(d)
  }

  /** The day number of the Saturday before d's Sunday-to-Saturday week. */
  function SundayWeek(d: Date): int
    requires Valid(d)
  {
    DayNumber(d) - DayOfWeek(d) % 7 - 1
  }

  /** A week holds one date of each weekday. */
  lemma WeekdayInWeekUnique(a: Date, b: Date)
    requires Valid(a) && Valid(b) && DayOfWeek(a) == DayOfWeek(b)
    ensures MondayWeek(a) == MondayWeek(b) ==> a == b
    ensures SundayWeek(a) == SundayWeek(b) ==> a == b
  {
    if MondayWeek(a) == MondayWeek(b) || SundayWeek(a) == SundayWeek(b) {
      DayNumberInjective(a, b);
    }
  }

  /** The rule of atDateInWeekSundayFirst on a parsed date: LocalDate.with(dayOfWeek), moved
      a week later when the source is a Sunday and a week earlier when the result is. */
  function InSundayWeek(d: Date, w: int): (r: Date)
    requires Valid(d) && 1 <= w <= 7
    ensures Valid(r) && DayOfWeek(r) == w && SundayWeek(r) == SundayWeek(d)
  {
    var adjustment := if DayOfWeek(d) == 7 then 1 else 0;
    var inWeek := WithDayOfWeek(d, w);
    var total := adjustment + (if DayOfWeek(inWeek) == 7 then -1 else 0);
    var r := PlusWeeks(inWeek, total);
    SundayAdjustment(d, inWeek, w, total, r);
    r
  }

  /** Any date r lying a whole number of weeks, total, from inWeek keeps its weekday, and
      with the adjustment of atDateInWeekSundayFirst it lies in d's Sunday-first week. */
  lemma SundayAdjustment(d: Date, inWeek: Date, w: int, total: int, r: Date)
    requires Valid(d) && Valid(inWeek) && Valid(r) && 1 <= w <= 7
    requires DayOfWeek(inWeek) == w && MondayWeek(inWeek) == MondayWeek(d)
    requires total == (if DayOfWeek(d) == 7 then 1 else 0) + (if w == 7 then -1 else 0)
    requires DayNumber(r) == DayNumber(inWeek) + 7 * total
    ensures DayOfWeek(r) == w && SundayWeek(r) == SundayWeek(d)
  {
    WeekShiftArithmetic(DayNumber(d), DayNumber(inWeek), total);
  }

  /** The same on day numbers: n is the source's, m the result of with(dayOfWeek). */
  lemma WeekShiftArithmetic(n: int, m: int, total: int)
    requires m - (m % 7 + 1) == n - (n % 7 + 1)
    requires total == (if n % 7 == 6 then 1 else 0) - (if m % 7 == 6 then 1 else 0)
    ensures (m + 7 * total) % 7 == m % 7
    ensures m + 7 * total - (m % 7 + 1) % 7 == n - (n % 7 + 1) % 7
  {
    assert m + 7 * total == 7 * (m / 7 + total) + m % 7;
  }

  // ----- days of the month -----

  /** The rule of atDateInMonth on a parsed date: the target day clamped to
      [1, lengthOfMonth] in the date's month. */
  function InMonth(d: Date, dateOfMonth: int): (r: Date)
    requires Valid(d)
    ensures Valid(r) && r.year == d.year && r.month == d.month
    ensures r.day == Clamp(dateOfMonth, 1, LengthOfMonth(d.year, d.month))
  {
    Date(d.year, d.month, Clamp(dateOfMonth, 1, LengthOfMonth(d.year, d.month)))
  }

  /** The date above is the one atDateInMonth computes as the first of the month plus the
      clamped day less one. */
  lemma InMonthFromFirst(d: Date, dateOfMonth: int)
    requires Valid(d)
    ensures InMonth(d, dateOfMonth) == PlusDays(Date(d.year, d.month, 1), InMonth(d, dateOfMonth).day - 1)
  {
    var r := InMonth(d, dateOfMonth);
    var s := PlusDays(Date(d.year, d.month, 1), r.day - 1);
    DayNumberInjective(r, s);
  }

  /** Dates in later months come later. */
  lemma MonthIndexOrder(a: Date, b: Date)
    requires Valid(a) && Valid(b) && MonthIndex(a) < MonthIndex(b)
    ensures Before(a, b)
  {
  }

  // ----- years -----

  /** The rule of atFirstDateOfYear on a parsed date: day 1 of the clamped first month, in
      the source's year, or in the year before when the source's month comes earlier. The
      result is the one first-of-that-month with first <= d < first + 1 year. */
  function FirstOfYear(d: Date, firstMonthAnnual: int): (r: Date)
    requires Valid(d)
    ensures Valid(r) && r.day == 1 && r.month == Clamp(firstMonthAnnual, 1, 12)
    ensures !Before(d, r) && Before(d, PlusYears(r, 1))
  {
    var month := Clamp(firstMonthAnnual, 1, 12);
    var adjustment := if d.month < month then -1 else 0;
    PlusYears(Date(d.year, month, 1), adjustment)
  }

  /** Exactly one first-of-month of a given month lies within the year up to any date. */
  lemma FirstOfYearUnique(d: Date, firstMonthAnnual: int, f: Date)
    requires Valid(d) && Valid(f) && f.day == 1 && f.month == Clamp(firstMonthAnnual, 1, 12)
    requires !Before(d, f) && Before(d, PlusYears(f, 1))
    ensures f == FirstOfYear(d, firstMonthAnnual)
  {
  }

  /** The last day of the month before month m of year y, and the day after it. */
  function MonthEndBefore(y: int, m: int): (r: Date)
    requires 1 <= m <= 12
    ensures Valid(r) && r.day == LengthOfMonth(r.year, r.month)
    ensures DayNumber(r) + 1 == DayNumber(Date(y, m, 1))
  {
    if m == 1 then
      DaysBeforeYearStep(y - 1);
      DaysBeforeMonthStep(y - 1, 12);
      Date(y - 1, 12, 31)
    else
      DaysBeforeMonthStep(y, m - 1);
      Date(y, m - 1, LengthOfMonth(y, m - 1))
  }

  /** The rule of atLastDateOfYear on the first date of the year: the last day of the
      month before the first month, in the following year; the day after it starts that
      following year. */
  function YearEnd(first: Date): (r: Date)
    requires Valid(first) && first.day == 1
    ensures Valid(r) && r.day == LengthOfMonth(r.year, r.month)
    ensures DayNumber(r) + 1 == DayNumber(PlusYears(first, 1))
  {
    MonthEndBefore(first.year + 1, first.month)
  }

  /** atLastDateOfYear computes that date as the first date plus one year, minus one day. */
  lemma YearEndIsDayBefore(first: Date)
    requires Valid(first) && first.day == 1
    ensures YearEnd(first) == PlusDays(PlusYears(first, 1), -1)
    ensures PlusDays(YearEnd(first), 1) == PlusYears(first, 1)
  {
    var next := PlusYears(first, 1);
    DayNumberInjective(YearEnd(first), PlusDays(next, -1));
    DayNumberInjective(PlusDays(YearEnd(first), 1), next);
  }

  /** A date lies between the first and the last date of its year. */
  lemma YearBrackets(d: Date, firstMonthAnnual: int)
    requires Valid(d)
    ensures var first := FirstOfYear(d, firstMonthAnnual);
            !Before(d, first) && !Before(YearEnd(first), d)
  {
    var first := FirstOfYear(d, firstMonthAnnual);
    var next := PlusYears(first, 1);
    DayNumberOrder(d, next);
    DayNumberOrder(YearEnd(first), d);
  }

  // ----- the operations on arguments -----

  /** compareDate(source, anchor) once the source is known to be of a date kind: the
      order of the parsed source's day and the anchor's. */
  lemma CompareWithAnchor(x: Input, c: Date)
    requires WellFormed(x) && DateSource(x) && Valid(c)
    ensures CompareDate(x, DateValue(c)) == Ok(CompareKeys(DayKeyOf(ParseDate(x).value), Some(DayNumber(c))))
  {
    assert ParseDate(DateValue(c)) == Ok(Some(c));
  }

  /** A source that reads as no date compares as -2 with any date. */
  lemma AbsentSourceCompares(x: Input, c: Date)
    requires WellFormed(x) && ParseDate(x) == Ok(None) && Valid(c)
    ensures CompareDate(x, DateValue(c)) == Ok(OnlyFirstAbsent)
  {
    CompareWithAnchor(x, c);
  }

  /** atDateInWeek(Object, DayOfWeek): the date with weekday w in the parsed date's
      Monday-to-Sunday week. */
  function AtDateInWeek(x: Input, w: int): (r: Result<Option<Date>, Input>)
    requires WellFormed(x) && 1 <= w <= 7
    ensures r.Raise? <==> !DateSource(x)
    ensures r.Raise? ==> r.culprit == x
    ensures r.Ok? ==> (r.value.None? <==> ParseDate(x).value.None?)
    ensures r.Ok? && r.value.Some? ==>
              Valid(r.value.value) && DayOfWeek(r.value.value) == w &&
              MondayWeek(r.value.value) == MondayWeek(ParseDate(x).value.value)
  {
    var parsed :- ParseDate(x);
    if parsed.None? then Ok(None) else Ok(Some(WithDayOfWeek(parsed.value, w)))
  }

  /** atDateInWeekSundayFirst(Object, DayOfWeek): the date with weekday w in the parsed
      date's Sunday-to-Saturday week. */
  function AtDateInWeekSundayFirst(x: Input, w: int): (r: Result<Option<Date>, Input>)
    requires WellFormed(x) && 1 <= w <= 7
    ensures r.Raise? <==> !DateSource(x)
    ensures r.Raise? ==> r.culprit == x
    ensures r.Ok? ==> (r.value.None? <==> ParseDate(x).value.None?)
    ensures r.Ok? && r.value.Some? ==>
              Valid(r.value.value) && DayOfWeek(r.value.value) == w &&
              SundayWeek(r.value.value) == SundayWeek(ParseDate(x).value.value)
  {
    var parsed :- ParseDate(x);
    if parsed.None? then Ok(None) else Ok(Some(InSundayWeek(parsed.value, w)))
  }

  /** atDateOfWeekCore: the date with weekday w in the source's week, moved one week by
      offset unless compareDate(source, it) already gives -offset; on a parsed source that
      is the step below. */
  function AtDateOfWeekCore(x: Input, w: int, offset: int): (r: Result<Option<Date>, Input>)
    requires WellFormed(x) && 1 <= w <= 7 && (offset == 1 || offset == -1)
    ensures r.Raise? <==> !DateSource(x)
    ensures r.Raise? ==> r.culprit == x
    ensures r.Ok? ==> (r.value.None? <==> ParseDate(x).value.None?)
    ensures r.Ok? && r.value.Some? ==> r.value.value == WeekStepDate(ParseDate(x).value.value, w, offset)
  {
    var inWeek :- AtDateInWeek(x, w);
    if inWeek.None? then Ok(None)
    else
      var result := inWeek.value;
      CompareWithAnchor(x, result);
      if Code(CompareDate(x, DateValue(result)).value) != -offset then Ok(Some(PlusWeeks(result, offset)))
      else Ok(Some(result))
  }

  /** The step of atDateOfWeekCore on a parsed date d: with offset 1 (atNextDateOfWeek) the
      date with weekday w 1 to 7 days after d, with offset -1 (atPreviousDateOfWeek) the one
      1 to 7 days before it; a d on weekday w moves a whole week. */
  function WeekStepDate(d: Date, w: int, offset: int): (r: Date)
    requires Valid(d) && 1 <= w <= 7 && (offset == 1 || offset == -1)
    ensures Valid(r) && DayOfWeek(r) == w
    ensures 1 <= offset * (DayNumber(r) - DayNumber(d)) <= 7
  {
    var c := WithDayOfWeek(d, w);
    if Code(CompareKeys(Some(DayNumber(d)), Some(DayNumber(c)))) != -offset then
      var r := PlusWeeks(c, offset);
      WeekStep(d, c, w, offset, r);
      r
    else
      c
  }

  /** A date r one week from c, the weekday-w date of d's week, in the direction of offset,
      when c does not already lie on that side of d: r has weekday w and lies 1 to 7 days
      from d on that side. */
  lemma WeekStep(d: Date, c: Date, w: int, offset: int, r: Date)
    requires Valid(d) && Valid(c) && Valid(r) && 1 <= w <= 7 && (offset == 1 || offset == -1)
    requires DayOfWeek(c) == w && MondayWeek(c) == MondayWeek(d)
    requires Code(CompareKeys(Some(DayNumber(d)), Some(DayNumber(c)))) != -offset
    requires DayNumber(r) == DayNumber(c) + 7 * offset
    ensures DayOfWeek(r) == w
    ensures 1 <= offset * (DayNumber(r) - DayNumber(d)) <= 7
  {
    var n, m := DayNumber(d), DayNumber(c);
    assert offset == 1 ==> m <= n;
    assert offset == -1 ==> n <= m;
    WeekStepArithmetic(n, m, offset);
  }

  /** The same on day numbers: n is the source's, m that of its weekday in the same week. */
  lemma WeekStepArithmetic(n: int, m: int, offset: int)
    requires m - (m % 7 + 1) == n - (n % 7 + 1) && (offset == 1 || offset == -1)
    requires offset == 1 ==> m <= n
    requires offset == -1 ==> n <= m
    ensures (m + 7 * offset) % 7 == m % 7
    ensures 1 <= offset * (m + 7 * offset - n) <= 7
  {
    assert m + 7 * offset == 7 * (m / 7 + offset) + m % 7;
  }

  /** The date with the clamped target day in base's month. */
  predicate IsInMonth(r: Date, base: Date, dateOfMonth: int)
    requires Valid(base)
  {
    Valid(r) && r.year == base.year && r.month == base.month &&
    r.day == Clamp(dateOfMonth, 1, LengthOfMonth(base.year, base.month))
  }

  /** Reading text completed with each date preset's suffix ("2002-07" + "-01"). */
  function CompletionAttempt(s: string): Preset -> Option<Date> {
    (p: Preset) => ParseDateFormat(s + p.suffix, p.pattern)
  }

  /** atDateInMonth: non-blank text is first completed, preset by preset, with the suffix
      that makes a year-month text a full date; the first preset that reads the completed
      text gives the month. Failing that, the parsed argument gives it. The result is the
      target day clamped to that month. */
  function AtDateInMonth(x: Input, dateOfMonth: int): (r: Result<Option<Date>, Input>)
    requires WellFormed(x)
    ensures r.Raise? <==> !DateSource(x)
    ensures r.Raise? ==> r.culprit == x
    ensures x.Text? && !IsBlank(x.s) && FirstSuccess(CompletionAttempt(x.s), DatePresets).Some? ==>
              r.Ok? && r.value.Some? &&
              IsInMonth(r.value.value, FirstSuccess(CompletionAttempt(x.s), DatePresets).value, dateOfMonth)
    ensures (!x.Text? || IsBlank(x.s) || FirstSuccess(CompletionAttempt(x.s), DatePresets).None?) && r.Ok? ==>
              (r.value.None? <==> ParseDate(x).value.None?) &&
              (r.value.Some? ==> IsInMonth(r.value.value, ParseDate(x).value.value, dateOfMonth))
  {
    var completed := if x.Text? && !IsBlank(x.s) then FirstSuccess(CompletionAttempt(x.s), DatePresets) else None;
    if completed.Some? then Ok(Some(InMonth(completed.value, dateOfMonth)))
    else
      var parsed :- ParseDate(x);
      if parsed.None? then Ok(None) else Ok(Some(InMonth(parsed.value, dateOfMonth)))
  }

  /** atDateOfMonthCore: the atDateInMonth date, or, unless compareDate(source, it) already
      gives -offset, the atDateInMonth date of the month offset months away. */
  function AtDateOfMonthCore(x: Input, dateOfMonth: int, offset: int): (r: Result<Option<Date>, Input>)
    requires WellFormed(x) && (offset == 1 || offset == -1)
    ensures r.Raise? <==> !DateSource(x)
    ensures r.Raise? ==> r.culprit == x
    ensures r.Ok? ==> (r.value.None? <==> AtDateInMonth(x, dateOfMonth).value.None?)
    ensures r.Ok? && r.value.Some? ==>
              var anchor := AtDateInMonth(x, dateOfMonth).value.value;
              r.value.value == anchor || r.value.value == InMonth(PlusMonths(anchor, offset), dateOfMonth)
  {
    var anchor :- AtDateInMonth(x, dateOfMonth);
    if anchor.None? then Ok(None)
    else
      var result := anchor.value;
      CompareWithAnchor(x, result);
      if Code(CompareDate(x, DateValue(result)).value) != -offset then
        var next := PlusMonths(result, offset);
        assert AtDateInMonth(DateValue(next), dateOfMonth) == Ok(Some(InMonth(next, dateOfMonth)));
        AtDateInMonth(DateValue(next), dateOfMonth)
      else
        Ok(Some(result))
  }

  /** The step of atDateOfMonthCore on a parsed source d whose month anchor is d's own:
      for offset 1 (atNextDateOfMonth) a date strictly after d, for offset -1
      (atPreviousDateOfMonth) one strictly before it, in the same or the adjacent month,
      on the target day clamped to that month. */
  function MonthStep(d: Date, dateOfMonth: int, offset: int): (r: Date)
    requires Valid(d) && (offset == 1 || offset == -1)
    ensures Valid(r) && r.day == Clamp(dateOfMonth, 1, LengthOfMonth(r.year, r.month))
    ensures 0 <= offset * (MonthIndex(r) - MonthIndex(d)) <= 1
    ensures if offset == 1 then Before(d, r) else Before(r, d)
    ensures MonthIndex(r) == MonthIndex(d) <==>
              if offset == 1 then Before(d, InMonth(d, dateOfMonth)) else Before(InMonth(d, dateOfMonth), d)
  {
    var c := InMonth(d, dateOfMonth);
    if Code(CompareKeys(Some(DayNumber(d)), Some(DayNumber(c)))) != -offset then
      var r := InMonth(PlusMonths(c, offset), dateOfMonth);
      DayNumberOrder(d, c); DayNumberOrder(c, d);
      if offset == 1 then MonthIndexOrder(d, r); r else MonthIndexOrder(r, d); r
    else
      if offset == 1 then DayNumberOrder(d, c); c else DayNumberOrder(c, d); c
  }

  /** On a parsed source whose month anchor lies in its own month, atDateOfMonthCore is the
      step above. */
  lemma ParsedMonthStep(x: Input, dateOfMonth: int, offset: int, d: Date)
    requires WellFormed(x) && (offset == 1 || offset == -1) && Valid(d)
    requires ParseDate(x) == Ok(Some(d)) && AtDateInMonth(x, dateOfMonth) == Ok(Some(InMonth(d, dateOfMonth)))
    ensures AtDateOfMonthCore(x, dateOfMonth, offset) == Ok(Some(MonthStep(d, dateOfMonth, offset)))
  {
    var c := InMonth(d, dateOfMonth);
    CompareWithAnchor(x, c);
    if Code(CompareKeys(Some(DayNumber(d)), Some(DayNumber(c)))) != -offset {
      var next := PlusMonths(c, offset);
      assert AtDateInMonth(DateValue(next), dateOfMonth) == Ok(Some(InMonth(next, dateOfMonth)));
    }
  }

  /** For an argument that is not text the month anchor always lies in the parsed date's
      month, so the step above applies to every such argument that parses. */
  lemma NonTextMonthAnchor(x: Input, dateOfMonth: int)
    requires WellFormed(x) && !x.Text? && DateSource(x) && ParseDate(x).value.Some?
    ensures AtDateInMonth(x, dateOfMonth) == Ok(Some(InMonth(ParseDate(x).value.value, dateOfMonth)))
  {
  }

  /** A partial text such as "2002-07" has a month anchor but does not parse as a date, so
      compareDate(source, anchor) gives -2 and the core always moves to the adjacent
      month, even when the anchor already lies on the requested side. */
  lemma PartialTextMonthShifts(x: Input, dateOfMonth: int, offset: int, anchor: Date)
    requires WellFormed(x) && (offset == 1 || offset == -1)
    requires ParseDate(x) == Ok(None) && AtDateInMonth(x, dateOfMonth) == Ok(Some(anchor))
    ensures AtDateOfMonthCore(x, dateOfMonth, offset) == AtDateInMonth(DateValue(PlusMonths(anchor, offset)), dateOfMonth)
  {
    MonthCore(x, dateOfMonth, offset, anchor);
    AbsentSourceCompares(x, anchor);
  }

  /** The core keeps the month anchor when compareDate puts the source on the offset's
      side of it, and otherwise moves it a month and clamps the day again. */
  lemma MonthCore(x: Input, dateOfMonth: int, offset: int, anchor: Date)
    requires WellFormed(x) && (offset == 1 || offset == -1)
    requires AtDateInMonth(x, dateOfMonth) == Ok(Some(anchor))
    ensures Valid(anchor) && DateSource(x)
    ensures AtDateOfMonthCore(x, dateOfMonth, offset) ==
              if Code(CompareDate(x, DateValue(anchor)).value) != -offset
              then AtDateInMonth(DateValue(PlusMonths(anchor, offset)), dateOfMonth)
              else Ok(Some(anchor))
  {
  }

  /** The first date of base's year when the year starts in the clamped month. */
  predicate IsFirstOfYear(r: Date, base: Date, firstMonthAnnual: int) {
    Valid(r) && r.day == 1 && r.month == Clamp(firstMonthAnnual, 1, 12) &&
    !Before(base, r) && Before(base, PlusYears(r, 1))
  }

  /** atFirstDateOfYear: non-blank text is first completed with "1231" and read as
      yyyyMMdd (a year-only text), then completed as atDateInMonth does (a year-month
      text); failing both, the parsed argument gives the year. */
  function AtFirstDateOfYear(x: Input, firstMonthAnnual: int): (r: Result<Option<Date>, Input>)
    requires WellFormed(x)
    ensures r.Raise? <==> !DateSource(x)
    ensures r.Raise? ==> r.culprit == x
    ensures x.Text? && !IsBlank(x.s) && ParseDateFormat(x.s + YearComplement, DateFullPlain).Some? ==>
              r.Ok? && r.value.Some? &&
              IsFirstOfYear(r.value.value, ParseDateFormat(x.s + YearComplement, DateFullPlain).value, firstMonthAnnual)
    ensures x.Text? && !IsBlank(x.s) && ParseDateFormat(x.s + YearComplement, DateFullPlain).None? &&
            AtDateInMonth(x, 1).value.Some? ==>
              r.Ok? && r.value.Some? && IsFirstOfYear(r.value.value, AtDateInMonth(x, 1).value.value, firstMonthAnnual)
    ensures x.Text? && !IsBlank(x.s) && ParseDateFormat(x.s + YearComplement, DateFullPlain).None? &&
            AtDateInMonth(x, 1).value.None? ==>
              r == Ok(None)
    ensures (!x.Text? || IsBlank(x.s)) && r.Ok? ==>
              (r.value.None? <==> ParseDate(x).value.None?) &&
              (r.value.Some? ==> IsFirstOfYear(r.value.value, ParseDate(x).value.value, firstMonthAnnual))
    ensures r.Ok? && r.value.None? ==> ParseDate(x).value.None?
  {
    var fromText :=
      if x.Text? && !IsBlank(x.s) then
        var completed := ParseDateFormat(x.s + YearComplement, DateFullPlain);
        if completed.Some? then completed else AtDateInMonth(x, 1).value
      else None;
    if fromText.Some? then Ok(Some(FirstOfYear(fromText.value, firstMonthAnnual)))
    else
      var parsed :- ParseDate(x);
      if parsed.None? then Ok(None) else Ok(Some(FirstOfYear(parsed.value, firstMonthAnnual)))
  }

  /** atLastDateOfYear: the first date of the year plus one year, minus one day. */
  function AtLastDateOfYear(x: Input, firstMonthAnnual: int): (r: Result<Option<Date>, Input>)
    requires WellFormed(x)
    ensures r.Raise? <==> !DateSource(x)
    ensures r.Raise? ==> r.culprit == x
    ensures r.Ok? ==> (r.value.None? <==> AtFirstDateOfYear(x, firstMonthAnnual).value.None?)
    ensures r.Ok? && r.value.Some? ==>
              var first := AtFirstDateOfYear(x, firstMonthAnnual).value.value;
              Valid(r.value.value) && r.value.value == PlusDays(PlusYears(first, 1), -1) &&
              r.value.value.day == LengthOfMonth(r.value.value.year, r.value.value.month)
  {
    var first :- AtFirstDateOfYear(x, firstMonthAnnual);
    if first.None? then Ok(None)
    else
      YearEndIsDayBefore(first.value);
      Ok(Some(YearEnd(first.value)))
  }

  /** atMonthOfYearCore: the first date of the year, or, unless compareDate(source, it)
      already gives -offset, that date offset years away. */
  function AtMonthOfYearCore(x: Input, month: int, offset: int): (r: Result<Option<Date>, Input>)
    requires WellFormed(x) && (offset == 1 || offset == -1)
    ensures r.Raise? <==> !DateSource(x)
    ensures r.Raise? ==> r.culprit == x
    ensures r.Ok? ==> (r.value.None? <==> AtFirstDateOfYear(x, month).value.None?)
    ensures r.Ok? && r.value.Some? ==>
              var first := AtFirstDateOfYear(x, month).value.value;
              r.value.value == first || r.value.value == PlusYears(first, offset)
  {
    var first :- AtFirstDateOfYear(x, month);
    if first.None? then Ok(None)
    else
      var result := first.value;
      CompareWithAnchor(x, result);
      if Code(CompareDate(x, DateValue(result)).value) != -offset then Ok(Some(PlusYears(result, offset)))
      else Ok(Some(result))
  }

  /** When the year anchor is the first date of the parsed source's own year,
      atNextMonthOfYear (offset 1) gives day 1 of the target month strictly after the
      source, and atPreviousMonthOfYear (offset -1) the one strictly before it; in both the
      next such date in the other direction is on the source's other side. */
  lemma MonthOfYearStep(x: Input, month: int, offset: int, d: Date)
    requires WellFormed(x) && (offset == 1 || offset == -1) && Valid(d)
    requires ParseDate(x) == Ok(Some(d))
    requires AtFirstDateOfYear(x, month) == Ok(Some(FirstOfYear(d, month)))
    ensures var r := AtMonthOfYearCore(x, month, offset);
            r.Ok? && r.value.Some? && r.value.value.day == 1 && r.value.value.month == Clamp(month, 1, 12) &&
            (offset == 1 ==> Before(d, r.value.value) && !Before(d, PlusYears(r.value.value, -1))) &&
            (offset == -1 ==> Before(r.value.value, d) && !Before(PlusYears(r.value.value, 1), d))
  {
    var first := FirstOfYear(d, month);
    YearCore(x, month, offset, first);
    CompareWithAnchor(x, first);
    DayNumberOrder(d, first);
    DayNumberOrder(first, d);
    if DayNumber(d) == DayNumber(first) {
      DayNumberInjective(d, first);
    }
  }

  /** For an argument that is not text the year anchor is the parsed date's. */
  lemma NonTextYearAnchor(x: Input, month: int)
    requires WellFormed(x) && !x.Text? && DateSource(x) && ParseDate(x).value.Some?
    ensures AtFirstDateOfYear(x, month) == Ok(Some(FirstOfYear(ParseDate(x).value.value, month)))
  {
    FirstOfYearUnique(ParseDate(x).value.value, month, AtFirstDateOfYear(x, month).value.value);
  }

  /** A year-only or year-month text has a year anchor but does not parse as a date, so
      the core always moves the anchor by a year. */
  lemma PartialTextYearShifts(x: Input, month: int, offset: int, first: Date)
    requires WellFormed(x) && (offset == 1 || offset == -1)
    requires ParseDate(x) == Ok(None) && AtFirstDateOfYear(x, month) == Ok(Some(first))
    ensures AtMonthOfYearCore(x, month, offset) == Ok(Some(PlusYears(first, offset)))
  {
    YearCore(x, month, offset, first);
    AbsentSourceCompares(x, first);
  }

  /** The core keeps the year anchor when compareDate puts the source on the offset's
      side of it, and moves it by a year otherwise. */
  lemma YearCore(x: Input, month: int, offset: int, first: Date)
    requires WellFormed(x) && (offset == 1 || offset == -1)
    requires AtFirstDateOfYear(x, month) == Ok(Some(first))
    ensures Valid(first) && DateSource(x)
    ensures AtMonthOfYearCore(x, month, offset) ==
              Ok(Some(if Code(CompareDate(x, DateValue(first)).value) != -offset then PlusYears(first, offset) else first))
  {
  }
}

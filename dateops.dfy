/** plusDaysToDate, plusWeeksToDate, plusMonthsToDate and plusYearsToDate (all through
    plusToDateCore), and areInSameMonth/areInSameYear. */
module DateOps {
  import opened Wrappers
  import opened Calendar
  import opened Numerals
  import opened Parsing
  import opened Anchors

  /** The ChronoUnit handed to plusToDateCore. */
  datatype DateUnit = Days | Weeks | Months | Years

  /** LocalDate.plus(amount, unit) for the four date units. */
  function PlusUnits(d: Date, amount: int, unit: DateUnit): (r: Date)
    requires Valid(d)
    ensures Valid(r)
  {
    match unit
    case Days => PlusDays(d, amount)
    case Weeks => PlusWeeks(d, amount)
    case Months => PlusMonths(d, amount)
    case Years => PlusYears(d, amount)
  }

  /** What moving a valid date by an amount of a unit means: a day count moved by the
      amount (or seven times it); a month count moved by the amount with the day kept or,
      when the target month is shorter, clamped to its last day; a year moved the same way
      within the same month. */
  predicate IsMovedBy(d: Date, amount: int, unit: DateUnit, r: Date)
    requires Valid(d) && Valid(r)
  {
    match unit
    case Days => DayNumber(r) == DayNumber(d) + amount
    case Weeks => DayNumber(r) == DayNumber(d) + 7 * amount
    case Months =>
      MonthIndex(r) == MonthIndex(d) + amount && r.day == Min(d.day, LengthOfMonth(r.year, r.month))
    case Years =>
      r.year == d.year + amount && r.month == d.month && r.day == Min(d.day, LengthOfMonth(r.year, r.month))
  }

  /** plusToDateCore: the parsed date moved by the span, an absent span counting as 0. */
  function PlusToDateCore(x: Input, span: Option<Int32>, unit: DateUnit): (r: Result<Option<Date>, Input>)
    requires WellFormed(x)
    ensures r.Raise? <==> !DateSource(x)
    ensures r.Raise? ==> r.culprit == x
    ensures r.Ok? ==> (r.value.None? <==> ParseDate(x).value.None?)
    ensures r.Ok? && r.value.Some? ==>
              Valid(r.value.value) &&
              IsMovedBy(ParseDate(x).value.value, if span.Some? then span.value as int else 0, unit, r.value.value)
  {
    var parsed :- ParseDate(x);
    if parsed.None? then Ok(None)
    else Ok(Some(PlusUnits(parsed.value, if span.Some? then span.value as int else 0, unit)))
  }

  /** A date moved by a unit amount is the only valid date so moved. */
  lemma MovedByUnique(d: Date, amount: int, unit: DateUnit, a: Date, b: Date)
    requires Valid(d) && Valid(a) && Valid(b)
    requires IsMovedBy(d, amount, unit, a) && IsMovedBy(d, amount, unit, b)
    ensures a == b
  {
    if unit.Days? || unit.Weeks? {
      DayNumberInjective(a, b);
    }
  }

  /** An absent span leaves the parsed date as it is. */
  lemma AbsentSpanKeepsDate(x: Input, unit: DateUnit)
    requires WellFormed(x) && DateSource(x)
    ensures PlusToDateCore(x, None, unit) == ParseDate(x)
  {
    var parsed := ParseDate(x).value;
    if parsed.Some? {
      var d := parsed.value;
      MovedByUnique(d, 0, unit, PlusUnits(d, 0, unit), d);
    }
  }

  /** Days and weeks can be taken back: moving the result by the opposite span returns the
      parsed date. */
  lemma PlusDaysUndone(x: Input, span: Int32, back: Int32, unit: DateUnit)
    requires WellFormed(x) && DateSource(x) && back as int == -(span as int)
    requires unit == Days || unit == Weeks
    requires PlusToDateCore(x, Some(span), unit).value.Some?
    ensures PlusToDateCore(DateValue(PlusToDateCore(x, Some(span), unit).value.value), Some(back), unit) == ParseDate(x)
  {
    var d := ParseDate(x).value.value;
    var moved := PlusUnits(d, span as int, unit);
    assert PlusToDateCore(x, Some(span), unit) == Ok(Some(moved));
    PlusToDateOfDate(moved, back, unit);
    UnitsUndone(d, span as int, back as int, unit);
    assert ParseDate(x) == Ok(Some(d));
  }

  lemma PlusToDateOfDate(e: Date, span: Int32, unit: DateUnit)
    requires Valid(e)
    ensures PlusToDateCore(DateValue(e), Some(span), unit) == Ok(Some(PlusUnits(e, span as int, unit)))
  {
    assert ParseDate(DateValue(e)) == Ok(Some(e));
  }

  lemma UnitsUndone(d: Date, n: int, m: int, unit: DateUnit)
    requires Valid(d) && (unit == Days || unit == Weeks) && m == -n
    ensures PlusUnits(PlusUnits(d, n, unit), m, unit) == d
  {
    var moved := PlusUnits(d, n, unit);
    DayNumberInjective(PlusUnits(moved, m, unit), d);
  }

  /** Month steps cannot always be taken back: 31 January plus one month is 28 February
      2001, and that minus one month is 28 January. */
  lemma PlusMonthsNotUndone()
    ensures PlusMonths(PlusMonths(Date(2001, 1, 31), 1), -1) == Date(2001, 1, 28)
  {
    assert !IsLeapYear(2001);
    var feb := PlusMonths(Date(2001, 1, 31), 1);
    assert (2001 * 12 + 1) / 12 == 2001 && (2001 * 12 + 1) % 12 == 1;
    assert feb == Date(2001, 2, 28);
    assert PlusMonths(feb, -1) == Date(2001, 1, 28);
  }

  /** areInSameMonth: both arguments are parsed, the first first; false unless both parse
      and share year and month. */
  function AreInSameMonth(x: Input, y: Input): (r: Result<bool, Input>)
    requires WellFormed(x) && WellFormed(y)
    ensures r.Raise? <==> !DateSource(x) || !DateSource(y)
    ensures r.Raise? ==> r.culprit == if !DateSource(x) then x else y
    ensures r.Ok? ==> (r.value <==> ParseDate(x).value.Some? && ParseDate(y).value.Some? &&
                                     MonthIndex(ParseDate(x).value.value) == MonthIndex(ParseDate(y).value.value))
  {
    var a :- ParseDate(x);
    var b :- ParseDate(y);
    if a.None? || b.None? then Ok(false)
    else Ok(a.value.year == b.value.year && a.value.month == b.value.month)
  }

  /** areInSameYear: the same, comparing years only. */
  function AreInSameYear(x: Input, y: Input): (r: Result<bool, Input>)
    requires WellFormed(x) && WellFormed(y)
    ensures r.Raise? <==> !DateSource(x) || !DateSource(y)
    ensures r.Raise? ==> r.culprit == if !DateSource(x) then x else y
    ensures r.Ok? ==> (r.value <==> ParseDate(x).value.Some? && ParseDate(y).value.Some? &&
                                     ParseDate(x).value.value.year == ParseDate(y).value.value.year)
  {
    var a :- ParseDate(x);
    var b :- ParseDate(y);
    if a.None? || b.None? then Ok(false)
    else Ok(a.value.year == b.value.year)
  }

  /** Sharing a month is symmetric, and dates that share a month share a year. */
  lemma SameMonthSymmetricAndWithinYear(x: Input, y: Input)
    requires WellFormed(x) && WellFormed(y) && DateSource(x) && DateSource(y)
    ensures AreInSameMonth(x, y) == AreInSameMonth(y, x)
    ensures AreInSameMonth(x, y) == Ok(true) ==> AreInSameYear(x, y) == Ok(true)
  {
  }

  /** The atDateInMonth date of a parsed non-text argument lies in that argument's month. */
  lemma InMonthAnchorSameMonth(x: Input, dateOfMonth: int)
    requires WellFormed(x) && !x.Text? && DateSource(x) && ParseDate(x).value.Some?
    ensures AreInSameMonth(x, DateValue(AtDateInMonth(x, dateOfMonth).value.value)) == Ok(true)
  {
    NonTextMonthAnchor(x, dateOfMonth);
    var c := AtDateInMonth(x, dateOfMonth).value.value;
    assert ParseDate(DateValue(c)) == Ok(Some(c));
  }
}

/** The library's entry points that turn an argument of any supported kind into a date,
    a time of day or a date-time: parseDate, parseTime, parse and mergeDateTime.

    An argument is one of the values an Object parameter may hold; a value of a type the
    library does not support makes every entry point raise. The current date, which the
    library reads from the system clock, is a parameter `today`. */
module Parsing {
  import opened Wrappers
  import opened Numerals
  import opened Calendar
  import opened Clock
  import opened Blank
  import opened Patterns
  import opened Era

  datatype Input =
    | Null
    | Text(s: string)
    | IntValue(i: Int32)
    | DateValue(d: Date)
    | TimeValue(t: Time)
    | DateTimeValue(dt: DateTime)
    | DayOfWeekValue(dow: int)
    | Other(description: string)

  /** The java.time values an argument holds are always well formed. */
  predicate WellFormed(x: Input) {
    match x
    case DateValue(d) => Valid(d)
    case TimeValue(t) => ValidTime(t)
    case DateTimeValue(dt) => ValidDateTime(dt)
    case DayOfWeekValue(w) => 1 <= w <= 7
    case _ => true
  }

  /** The kinds parseDate accepts. */
  predicate DateSource(x: Input) {
    x.Null? || x.Text? || x.IntValue? || x.DateValue? || x.DateTimeValue?
  }

  /** The kinds parseTime accepts (a LocalDate is not one of them). */
  predicate TimeSource(x: Input) {
    x.Null? || x.Text? || x.IntValue? || x.TimeValue? || x.DateTimeValue?
  }

  /** The kinds parse accepts. */
  predicate DateTimeSource(x: Input) {
    x.Null? || x.Text? || x.IntValue? || x.DateValue? || x.TimeValue? || x.DateTimeValue?
  }

  // ----- text -----

  function DateAttempt(s: string): Preset -> Option<Date> {
    (p: Preset) => ParseDateFormat(s, p.pattern)
  }

  function TimeAttempt(s: string): Preset -> Option<Time> {
    (p: Preset) => ParseTimeFormat(s, p.pattern)
  }

  function DateTimeAttempt(s: string): Preset -> Option<DateTime> {
    (p: Preset) => ParseDateTimeFormat(s, p.pattern)
  }

  /** parseDate of a String: blank text is absent; otherwise the first date preset that
      reads it, and failing all of them the Japanese era form. */
  function ParseDateText(s: string): (r: Option<Date>)
    ensures r.Some? ==> Valid(r.value)
    ensures IsBlank(s) ==> r.None?
    ensures r.Some? ==> ParseDateJp(s) == r ||
                        exists i :: 0 <= i < |DatePresets| && ParseDateWith(DatePresets[i].pattern, s) == r
    ensures r.None? ==> ParseDateJp(s).None? &&
                        forall i :: 0 <= i < |DatePresets| ==> ParseDateFormat(s, DatePresets[i].pattern).None?
  {
    var viaPresets := if IsBlank(s) then None else FirstSuccess(DateAttempt(s), DatePresets);
    if viaPresets.Some? then viaPresets else ParseDateJp(s)
  }

  /** parseTime of a String: blank text is absent; otherwise the first time preset that
      reads it. */
  function ParseTimeText(s: string): (r: Option<Time>)
    ensures r.Some? ==> ValidTime(r.value)
    ensures IsBlank(s) ==> r.None?
    ensures r.Some? ==> exists i :: 0 <= i < |TimePresets| && ParseTimeWith(TimePresets[i].pattern, s) == r
    ensures r.None? ==> forall i :: 0 <= i < |TimePresets| ==> ParseTimeFormat(s, TimePresets[i].pattern).None?
  {
    if IsBlank(s) then None else FirstSuccess(TimeAttempt(s), TimePresets)
  }

  /** parse of a String: blank text is absent; otherwise the first date-time preset that
      reads it, then a date at the start of its day, then a time on the current date. */
  function ParseText(s: string, today: Date): (r: Option<DateTime>)
    requires Valid(today)
    ensures r.Some? ==> ValidDateTime(r.value)
    ensures IsBlank(s) ==> r.None?
    ensures r.None? <==> FirstSuccess(DateTimeAttempt(s), DateTimePresets).None? &&
                         ParseDateText(s).None? && ParseTimeText(s).None?
    ensures FirstSuccess(DateTimeAttempt(s), DateTimePresets).Some? ==>
              r == FirstSuccess(DateTimeAttempt(s), DateTimePresets)
    ensures FirstSuccess(DateTimeAttempt(s), DateTimePresets).None? && ParseDateText(s).Some? ==>
              r == Some(AtStartOfDay(ParseDateText(s).value))
    ensures FirstSuccess(DateTimeAttempt(s), DateTimePresets).None? && ParseDateText(s).None? && ParseTimeText(s).Some? ==>
              r == Some(DateTime(today, ParseTimeText(s).value))
  {
    if IsBlank(s) then
      assert FirstSuccess(DateTimeAttempt(s), DateTimePresets).None? by {
        assert forall i :: 0 <= i < |DateTimePresets| ==> DateTimeAttempt(s)(DateTimePresets[i]).None?;
      }
      None
    else
      var viaPresets := FirstSuccess(DateTimeAttempt(s), DateTimePresets);
      if viaPresets.Some? then viaPresets
      else
        match ParseDateText(s)
        case Some(d) => Some(AtStartOfDay(d))
        case None =>
          match ParseTimeText(s)
          case Some(t) => Some(DateTime(today, t))
          case None => None
  }

  // ----- an int as text -----

  function Zeros(n: nat): (z: string)
    ensures |z| == n && forall i :: 0 <= i < n ==> z[i] == '0'
  {
    if n == 0 then [] else "0" + Zeros(n - 1)
  }

  /** The text left-padded with zeros to at least `width` characters. */
  function PadLeft(s: string, width: nat): (r: string)
    ensures |r| == Max(|s|, width)
    ensures r[|r| - |s|..] == s
    ensures forall i :: 0 <= i < |r| - |s| ==> r[i] == '0'
  {
    if |s| >= width then s else Zeros(width - |s|) + s
  }

  /** The StringBuilder loop of parseTime that inserts a '0' at the front once for every
      character the decimal text of an int is short of six. */
  method PadToSix(s: string) returns (r: string)
    ensures r == PadLeft(s, 6)
  {
    r := s;
    var index := |s|;
    while index < 6
      invariant |s| <= index <= Max(|s|, 6)
      invariant r == PadLeft(s, index)
    {
      OneMoreZero(s, index);
      r := "0" + r;
      index := index + 1;
    }
  }

  /** One more '0' in front pads to one more character. */
  lemma OneMoreZero(s: string, width: nat)
    requires |s| <= width
    ensures "0" + PadLeft(s, width) == PadLeft(s, width + 1)
  {
    var k := width - |s|;
    assert Zeros(k + 1) == "0" + Zeros(k);
    assert "0" + (Zeros(k) + s) == ("0" + Zeros(k)) + s;
    if k == 0 {
      assert Zeros(0) + s == s;
    }
  }

  // ----- the entry points -----

  /** parseDate(Object). */
  function ParseDate(x: Input): (r: Result<Option<Date>, Input>)
    requires WellFormed(x)
    ensures r.Raise? <==> !DateSource(x)
    ensures r.Raise? ==> r.culprit == x
    ensures r.Ok? && r.value.Some? ==> Valid(r.value.value)
    ensures x.Null? ==> r == Ok(None)
    ensures x.Text? ==> r == Ok(ParseDateText(x.s))
    ensures x.IntValue? ==> r == Ok(ParseDateText(IntToString(x.i as int)))
    ensures x.DateValue? ==> r == Ok(Some(x.d))
    ensures x.DateTimeValue? ==> r == Ok(Some(x.dt.date))
  {
    match x
    case Null => Ok(None)
    case Text(s) => Ok(ParseDateText(s))
    case IntValue(i) => Ok(ParseDateText(IntToString(i as int)))
    case DateValue(d) => Ok(Some(d))
    case DateTimeValue(dt) => Ok(Some(dt.date))
    case _ => Raise(x)
  }

  /** parseTime(Object): an int is written in decimal and zero-padded to six digits. */
  function ParseTime(x: Input): (r: Result<Option<Time>, Input>)
    requires WellFormed(x)
    ensures r.Raise? <==> !TimeSource(x)
    ensures r.Raise? ==> r.culprit == x
    ensures r.Ok? && r.value.Some? ==> ValidTime(r.value.value)
    ensures x.Null? ==> r == Ok(None)
    ensures x.Text? ==> r == Ok(ParseTimeText(x.s))
    ensures x.IntValue? ==> r == Ok(ParseTimeText(PadLeft(IntToString(x.i as int), 6)))
    ensures x.TimeValue? ==> r == Ok(Some(x.t))
    ensures x.DateTimeValue? ==> r == Ok(Some(x.dt.time))
  {
    match x
    case Null => Ok(None)
    case Text(s) => Ok(ParseTimeText(s))
    case IntValue(i) => Ok(ParseTimeText(PadLeft(IntToString(i as int), 6)))
    case TimeValue(t) => Ok(Some(t))
    case DateTimeValue(dt) => Ok(Some(dt.time))
    case _ => Raise(x)
  }

  /** parse(Object): a date means the start of its day, a time means that time today, and
      an int is read as a date first and as a time only when it is not one. */
  function Parse(x: Input, today: Date): (r: Result<Option<DateTime>, Input>)
    requires WellFormed(x) && Valid(today)
    ensures r.Raise? <==> !DateTimeSource(x)
    ensures r.Raise? ==> r.culprit == x
    ensures r.Ok? && r.value.Some? ==> ValidDateTime(r.value.value)
    ensures x.IntValue? ==> (r.value.None? <==> ParseDate(x).value.None? && ParseTime(x).value.None?)
    ensures x.IntValue? && ParseDate(x).value.Some? ==> r.value == Some(AtStartOfDay(ParseDate(x).value.value))
    ensures x.IntValue? && ParseDate(x).value.None? && ParseTime(x).value.Some? ==>
              r.value == Some(DateTime(today, ParseTime(x).value.value))
    ensures x.Null? ==> r == Ok(None)
    ensures x.Text? ==> r == Ok(ParseText(x.s, today))
    ensures x.DateValue? ==> r == Ok(Some(AtStartOfDay(x.d)))
    ensures x.TimeValue? ==> r == Ok(Some(DateTime(today, x.t)))
    ensures x.DateTimeValue? ==> r == Ok(Some(x.dt))
  {
    match x
    case Null => Ok(None)
    case Text(s) => Ok(ParseText(s, today))
    case DateTimeValue(dt) => Ok(Some(dt))
    case DateValue(d) => Ok(Some(AtStartOfDay(d)))
    case TimeValue(t) => Ok(Some(DateTime(today, t)))
    case IntValue(_) =>
      var date := ParseDate(x).value;
      if date.Some? then Ok(Some(AtStartOfDay(date.value)))
      else
        var time := ParseTime(x).value;
        if time.Some? then Ok(Some(DateTime(today, time.value))) else Ok(None)
    case _ => Raise(x)
  }

  /** mergeDateTime: absent when neither half parses; otherwise the parsed date (today
      when it is absent) at the parsed time (midnight when it is absent). */
  function MergeDateTime(dateSource: Input, timeSource: Input, today: Date): (r: Result<Option<DateTime>, Input>)
    requires WellFormed(dateSource) && WellFormed(timeSource) && Valid(today)
    ensures r.Raise? <==> !DateSource(dateSource) || !TimeSource(timeSource)
    ensures r.Raise? ==> r.culprit == if !DateSource(dateSource) then dateSource else timeSource
    ensures r.Ok? ==> (r.value.None? <==> ParseDate(dateSource).value.None? && ParseTime(timeSource).value.None?)
    ensures r.Ok? && r.value.Some? ==>
              ValidDateTime(r.value.value) &&
              r.value.value.date == ParseDate(dateSource).value.GetOr(today) &&
              r.value.value.time == ParseTime(timeSource).value.GetOr(Midnight)
  {
    var date :- ParseDate(dateSource);
    var time :- ParseTime(timeSource);
    if date.None? && time.None? then Ok(None)
    else Ok(Some(DateTime(date.GetOr(today), time.GetOr(Midnight))))
  }

  // ----- properties -----

  /** Every text entry point gives "absent" for blank text before any preset is tried. */
  lemma BlankTextIsAbsent(s: string, today: Date)
    requires IsBlank(s) && Valid(today)
    ensures ParseDate(Text(s)) == Ok(None)
    ensures ParseTime(Text(s)) == Ok(None)
    ensures Parse(Text(s), today) == Ok(None)
  {
  }

  /** An int is a date exactly when its decimal text is. */
  lemma IntDateIsText(i: Int32)
    ensures ParseDate(IntValue(i)) == ParseDate(Text(IntToString(i as int)))
  {
  }
}

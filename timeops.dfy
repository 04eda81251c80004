/** The time-of-day operations: atStartOfMinute, atStartOfHour, atHalfOfHour and
    plusToTimeCore (behind plusSecondsToTime, plusMinutesToTime and plusHoursToTime). */
module TimeOps {
  import opened Wrappers
  import opened Numerals
  import opened Clock
  import opened Blank
  import opened Patterns
  import opened Parsing

  // ----- truncation -----

  /** LocalTime.withSecond(0).withNano(0). */
  function StartOfMinute(t: Time): (r: Time)
    requires ValidTime(t)
    ensures ValidTime(r)
  {
    t.(second := 0, nano := 0)
  }

  /** LocalTime.withMinute(0).withSecond(0).withNano(0). */
  function StartOfHour(t: Time): (r: Time)
    requires ValidTime(t)
    ensures ValidTime(r)
  {
    t.(minute := 0, second := 0, nano := 0)
  }

  /** A time on a whole multiple of `unit` seconds of the day, with no nanoseconds, that is
      the last such time not after t. */
  predicate IsStartOf(r: Time, t: Time, unit: int)
    requires unit > 0
  {
    ValidTime(r) && r.nano == 0 && SecondOfDay(r) % unit == 0 &&
    SecondOfDay(r) <= SecondOfDay(t) < SecondOfDay(r) + unit
  }

  /** Valid times are determined by their second of the day and nanosecond. */
  lemma SecondOfDayInjective(a: Time, b: Time)
    requires ValidTime(a) && ValidTime(b) && SecondOfDay(a) == SecondOfDay(b) && a.nano == b.nano
    ensures a == b
  {
    assert a.hour == SecondOfDay(a) / 3600 && b.hour == SecondOfDay(b) / 3600;
    assert a.minute == (SecondOfDay(a) % 3600) / 60 && b.minute == (SecondOfDay(b) % 3600) / 60;
  }

  /** The start of the minute is the one minute-aligned time at or before t within a
      minute of it. */
  lemma StartOfMinuteIsStart(t: Time, u: Time)
    requires ValidTime(t)
    ensures IsStartOf(StartOfMinute(t), t, 60)
    ensures IsStartOf(u, t, 60) ==> u == StartOfMinute(t)
  {
    var r := StartOfMinute(t);
    assert SecondOfDay(r) == 60 * (t.hour * 60 + t.minute);
    if IsStartOf(u, t, 60) {
      var q := SecondOfDay(u) / 60;
      assert SecondOfDay(u) == 60 * q;
      assert q == t.hour * 60 + t.minute;
      SecondOfDayInjective(u, r);
    }
  }

  /** The start of the hour is the one hour-aligned time at or before t within an hour
      of it. */
  lemma StartOfHourIsStart(t: Time, u: Time)
    requires ValidTime(t)
    ensures IsStartOf(StartOfHour(t), t, 3600)
    ensures IsStartOf(u, t, 3600) ==> u == StartOfHour(t)
  {
    var r := StartOfHour(t);
    assert SecondOfDay(r) == 3600 * t.hour;
    if IsStartOf(u, t, 3600) {
      var q := SecondOfDay(u) / 3600;
      assert SecondOfDay(u) == 3600 * q;
      assert q == t.hour;
      SecondOfDayInjective(u, r);
    }
  }

  // ----- the operations on arguments -----

  /** Reading text completed with each time preset's suffix ("12:50" + ":00"). */
  function TimeCompletionAttempt(s: string): Preset -> Option<Time> {
    (p: Preset) => ParseTimeFormat(s + p.suffix, p.pattern)
  }

  /** atStartOfMinute: non-blank text is first completed, preset by preset; the first
      preset that reads the completed text gives the time. Failing that, the parsed
      argument does. */
  function AtStartOfMinute(x: Input): (r: Result<Option<Time>, Input>)
    requires WellFormed(x)
    ensures r.Raise? <==> !TimeSource(x)
    ensures r.Raise? ==> r.culprit == x
    ensures x.Text? && !IsBlank(x.s) && FirstSuccess(TimeCompletionAttempt(x.s), TimePresets).Some? ==>
              r == Ok(Some(StartOfMinute(FirstSuccess(TimeCompletionAttempt(x.s), TimePresets).value)))
    ensures (!x.Text? || IsBlank(x.s) || FirstSuccess(TimeCompletionAttempt(x.s), TimePresets).None?) && r.Ok? ==>
              (r.value.None? <==> ParseTime(x).value.None?) &&
              (r.value.Some? ==> r.value.value == StartOfMinute(ParseTime(x).value.value))
  {
    var completed := if x.Text? && !IsBlank(x.s) then FirstSuccess(TimeCompletionAttempt(x.s), TimePresets) else None;
    if completed.Some? then Ok(Some(StartOfMinute(completed.value)))
    else
      var parsed :- ParseTime(x);
      if parsed.None? then Ok(None) else Ok(Some(StartOfMinute(parsed.value)))
  }

  /** atStartOfHour: non-blank text is first completed with "0000" and read as HHmmss (an
      hour-only text), then as atStartOfMinute reads it; blank text, and text that neither
      reads, give null. Any other argument is parsed. */
  function AtStartOfHour(x: Input): (r: Result<Option<Time>, Input>)
    requires WellFormed(x)
    ensures r.Raise? <==> !TimeSource(x)
    ensures r.Raise? ==> r.culprit == x
    ensures r.Ok? && r.value.Some? ==> ValidTime(r.value.value) && r.value.value == StartOfHour(r.value.value)
    ensures x.Text? && IsBlank(x.s) ==> r == Ok(None)
    ensures x.Text? && !IsBlank(x.s) && ParseTimeFormat(x.s + HourComplement, TimeBasicPlain).Some? ==>
              r == Ok(Some(StartOfHour(ParseTimeFormat(x.s + HourComplement, TimeBasicPlain).value)))
    ensures x.Text? && !IsBlank(x.s) && ParseTimeFormat(x.s + HourComplement, TimeBasicPlain).None? ==>
              (r.value.None? <==> AtStartOfMinute(x).value.None?) &&
              (r.value.Some? ==> r.value.value == StartOfHour(AtStartOfMinute(x).value.value))
    ensures !x.Text? && r.Ok? ==>
              (r.value.None? <==> ParseTime(x).value.None?) &&
              (r.value.Some? ==> r.value.value == StartOfHour(ParseTime(x).value.value))
  {
    if x.Text? then
      if !IsBlank(x.s) then
        var viaHour := ParseTimeFormat(x.s + HourComplement, TimeBasicPlain);
        var result := if viaHour.Some? then viaHour else AtStartOfMinute(x).value;
        if result.Some? then Ok(Some(StartOfHour(result.value))) else Ok(None)
      else
        Ok(None)
    else
      var parsed :- ParseTime(x);
      if parsed.None? then Ok(None) else Ok(Some(StartOfHour(parsed.value)))
  }

  /** The start of the hour of an atStartOfMinute result is the start of the hour of the
      time it truncated. */
  lemma StartOfHourOfMinute(t: Time)
    requires ValidTime(t)
    ensures StartOfHour(StartOfMinute(t)) == StartOfHour(t)
  {
  }

  /** atHalfOfHour: the atStartOfHour time plus 30 minutes. */
  function AtHalfOfHour(x: Input): (r: Result<Option<Time>, Input>)
    requires WellFormed(x)
    ensures r.Raise? <==> !TimeSource(x)
    ensures r.Raise? ==> r.culprit == x
    ensures r.Ok? ==> (r.value.None? <==> AtStartOfHour(x).value.None?)
    ensures r.Ok? && r.value.Some? ==>
              var start := AtStartOfHour(x).value.value;
              r.value.value == Time(start.hour, 30, 0, 0)
  {
    var start :- AtStartOfHour(x);
    if start.None? then Ok(None)
    else
      HalfPast(start.value);
      Ok(Some(PlusMinutes(start.value, 30)))
  }

  lemma HalfPast(t: Time)
    requires ValidTime(t) && t == StartOfHour(t)
    ensures PlusMinutes(t, 30) == Time(t.hour, 30, 0, 0)
  {
    assert JavaRem(30, 1440) == 30;
    assert (30 + t.hour * 60 + 1440) % 1440 == t.hour * 60 + 30;
  }

  /** What moving a valid time by an amount of a unit means: the nanosecond is kept and
      the second of the day moves by the amount's seconds, modulo one day. */
  predicate IsMovedAround(t: Time, amount: int, unit: TimeUnit, r: Time) {
    ValidTime(r) && r.nano == t.nano &&
    SecondOfDay(r) == (SecondOfDay(t) + amount * UnitSeconds(unit)) % SecondsPerDay
  }

  lemma PlusTimeMoves(t: Time, amount: int, unit: TimeUnit)
    requires ValidTime(t)
    ensures IsMovedAround(t, amount, unit, PlusTime(t, amount, unit))
  {
    PlusTimeWraps(t, amount, unit);
  }

  /** A time moved around the clock is the only valid time so moved. */
  lemma MovedAroundUnique(t: Time, amount: int, unit: TimeUnit, a: Time, b: Time)
    requires IsMovedAround(t, amount, unit, a) && IsMovedAround(t, amount, unit, b)
    ensures a == b
  {
    SecondOfDayInjective(a, b);
  }

  /** plusToTimeCore: the parsed time moved by the span around the clock, an absent span
      counting as 0. */
  function PlusToTimeCore(x: Input, span: Option<Int32>, unit: TimeUnit): (r: Result<Option<Time>, Input>)
    requires WellFormed(x)
    ensures r.Raise? <==> !TimeSource(x)
    ensures r.Raise? ==> r.culprit == x
    ensures r.Ok? ==> (r.value.None? <==> ParseTime(x).value.None?)
    ensures r.Ok? && r.value.Some? ==>
              IsMovedAround(ParseTime(x).value.value, if span.Some? then span.value as int else 0, unit, r.value.value)
  {
    var parsed :- ParseTime(x);
    if parsed.None? then Ok(None)
    else
      var amount := if span.Some? then span.value as int else 0;
      PlusTimeMoves(parsed.value, amount, unit);
      Ok(Some(PlusTime(parsed.value, amount, unit)))
  }

  /** Moving a time around the clock can always be taken back. */
  lemma PlusTimeUndone(t: Time, n: int, m: int, unit: TimeUnit)
    requires ValidTime(t) && m == -n
    ensures PlusTime(PlusTime(t, n, unit), m, unit) == t
  {
    var moved := PlusTime(t, n, unit);
    var back := PlusTime(moved, m, unit);
    PlusTimeMoves(t, n, unit);
    PlusTimeMoves(moved, m, unit);
    var nk := n * UnitSeconds(unit);
    assert m * UnitSeconds(unit) == -nk;
    WrapBack(SecondOfDay(t), nk);
    SecondOfDayInjective(back, t);
  }

  /** Adding a count of seconds modulo one day and then taking it away gives back any
      second of the day. */
  lemma WrapBack(s: int, k: int)
    requires 0 <= s < SecondsPerDay
    ensures ((s + k) % SecondsPerDay + -k) % SecondsPerDay == s
  {
    var q := (s + k) / SecondsPerDay;
    assert (s + k) % SecondsPerDay + -k == s + SecondsPerDay * (-q);
    ModShift86400(s, -q);
  }

  /** With an absent span the parsed time comes back unchanged. */
  lemma AbsentSpanKeepsTime(x: Input, unit: TimeUnit)
    requires WellFormed(x) && TimeSource(x)
    ensures PlusToTimeCore(x, None, unit) == ParseTime(x)
  {
    var parsed := ParseTime(x).value;
    if parsed.Some? {
      PlusTimeZero(parsed.value, unit);
    }
  }

  lemma PlusTimeZero(t: Time, unit: TimeUnit)
    requires ValidTime(t)
    ensures PlusTime(t, 0, unit) == t
  {
    PlusTimeWraps(t, 0, unit);
    var s := SecondOfDay(t);
    assert 0 <= s < SecondsPerDay;
    assert (s + 0 * UnitSeconds(unit)) % SecondsPerDay == s;
    SecondOfDayInjective(PlusTime(t, 0, unit), t);
  }
}

/** maxDate/minDate, maxTime/minTime and max/min: each argument is parsed in turn and
    replaces the running result when the comparison of the two gives 1 (max) or -1 (min),
    or 2 (the result so far is absent). An equal argument never replaces, so the earliest
    of equal extremes is kept. */
module Folds {
  import opened Wrappers
  import opened Calendar
  import opened Clock
  import opened Parsing
  import opened Comparison
  import opened Sequence

  function KeyOpt<V>(v: Option<V>, key: V --> int): Option<int>
    requires v.Some? ==> key.requires(v.value)
  {
    match v
    case None => None
    case Some(x) => Some(key(x))
  }

  /** The direction of a fold: for max, a key beyond another is greater; for min, less. */
  predicate Beyond(a: int, b: int, replaceOn: Outcome) {
    if replaceOn == Greater then a > b else a < b
  }

  /** The result is absent exactly when no value is present; otherwise it is the earliest
      present value whose key no other key goes beyond. */
  ghost predicate IsExtreme<V>(values: seq<Option<V>>, key: V --> int, replaceOn: Outcome, best: Option<V>)
    requires forall i | 0 <= i < |values| && values[i].Some? :: key.requires(values[i].value)
  {
    (best.None? <==> forall i | 0 <= i < |values| :: values[i].None?) &&
    (best.Some? ==> exists i | 0 <= i < |values| && values[i] == best ::
       (forall j | 0 <= j < |values| && values[j].Some? :: !Beyond(key(values[j].value), key(values[i].value), replaceOn)) &&
       (forall j | 0 <= j < i && values[j].Some? :: Beyond(key(values[i].value), key(values[j].value), replaceOn)))
  }

  /** What the fold relies on in its parse and compare functions, for the arguments at
      hand: parse raises only on the argument itself, and compare orders the keys of the
      values it is given (an absent value is an absent key). */
  ghost predicate Fits<T, V>(sources: seq<T>, parse: T --> Result<Option<V>, T>,
                             compare: (Option<V>, Option<V>) --> Outcome, key: V --> int)
  {
    (forall i | 0 <= i < |sources| :: parse.requires(sources[i])) &&
    (forall i | 0 <= i < |sources| && parse(sources[i]).Raise? :: parse(sources[i]).culprit == sources[i]) &&
    (forall i | 0 <= i < |sources| && parse(sources[i]).Ok? && parse(sources[i]).value.Some? ::
       key.requires(parse(sources[i]).value.value)) &&
    (forall i | 0 <= i < |sources| && parse(sources[i]).Ok? ::
       compare.requires(parse(sources[i]).value, None) &&
       compare(parse(sources[i]).value, None) == CompareKeys(KeyOpt(parse(sources[i]).value, key), None)) &&
    (forall i, j | 0 <= i < |sources| && 0 <= j < |sources| && parse(sources[i]).Ok? && parse(sources[j]).Ok? ::
       compare.requires(parse(sources[i]).value, parse(sources[j]).value) &&
       compare(parse(sources[i]).value, parse(sources[j]).value) ==
         CompareKeys(KeyOpt(parse(sources[i]).value, key), KeyOpt(parse(sources[j]).value, key)))
  }

  /** The arguments can be parsed, and every value present has a key. */
  ghost predicate Keyed<T, V>(sources: seq<T>, parse: T --> Result<Option<V>, T>, key: V --> int) {
    (forall i | 0 <= i < |sources| :: parse.requires(sources[i])) &&
    (forall i | 0 <= i < |sources| && parse(sources[i]).Ok? && parse(sources[i]).value.Some? ::
       key.requires(parse(sources[i]).value.value))
  }

  /** What the fold keeps after the first `index` arguments parsed without error: the
      running result is absent while nothing is present, and otherwise it is the value at
      bestIndex, which no earlier value goes beyond and which goes beyond every value
      before it. */
  ghost predicate Kept<T, V>(sources: seq<T>, parse: T --> Result<Option<V>, T>, key: V --> int,
                             replaceOn: Outcome, index: int, result: Option<V>, bestIndex: int)
    requires Keyed(sources, parse, key)
    requires 0 <= index <= |sources| && forall j | 0 <= j < index :: parse(sources[j]).Ok?
  {
    (result.None? <==> forall j | 0 <= j < index :: parse(sources[j]).value.None?) &&
    (result.Some? ==> 0 <= bestIndex < index && parse(sources[bestIndex]).value == result) &&
    (result.Some? ==> forall j | 0 <= j < index && parse(sources[j]).value.Some? ::
       !Beyond(key(parse(sources[j]).value.value), key(result.value), replaceOn)) &&
    (result.Some? ==> forall j | 0 <= j < bestIndex && parse(sources[j]).value.Some? ::
       Beyond(key(result.value), key(parse(sources[j]).value.value), replaceOn))
  }

  /** A candidate beyond the running result (or meeting an absent one) becomes the result. */
  lemma KeptReplaced<T, V>(sources: seq<T>, parse: T --> Result<Option<V>, T>, key: V --> int,
                           replaceOn: Outcome, index: int, result: Option<V>, bestIndex: int)
    requires Keyed(sources, parse, key)
    requires 0 <= index < |sources| && forall j | 0 <= j <= index :: parse(sources[j]).Ok?
    requires Kept(sources, parse, key, replaceOn, index, result, bestIndex)
    requires parse(sources[index]).value.Some?
    requires result.Some? ==> Beyond(key(parse(sources[index]).value.value), key(result.value), replaceOn)
    ensures Kept(sources, parse, key, replaceOn, index + 1, parse(sources[index]).value, index)
  {
    var candidate := parse(sources[index]).value;
    if result.Some? {
      forall j | 0 <= j <= index && parse(sources[j]).value.Some?
        ensures !Beyond(key(parse(sources[j]).value.value), key(candidate.value), replaceOn)
        ensures j < index ==> Beyond(key(candidate.value), key(parse(sources[j]).value.value), replaceOn)
      {
      }
    }
  }

  /** A candidate that is absent or not beyond the running result leaves it in place. */
  lemma KeptUnreplaced<T, V>(sources: seq<T>, parse: T --> Result<Option<V>, T>, key: V --> int,
                             replaceOn: Outcome, index: int, result: Option<V>, bestIndex: int)
    requires Keyed(sources, parse, key)
    requires 0 <= index < |sources| && forall j | 0 <= j <= index :: parse(sources[j]).Ok?
    requires Kept(sources, parse, key, replaceOn, index, result, bestIndex)
    requires parse(sources[index]).value.Some? ==>
               result.Some? && !Beyond(key(parse(sources[index]).value.value), key(result.value), replaceOn)
    ensures Kept(sources, parse, key, replaceOn, index + 1, result, bestIndex)
  {
  }

  /** One turn of the fold: a candidate that compares as beyond the running result (or
      meets an absent one) replaces it, and the fold keeps what it keeps. */
  lemma KeptStep<T, V>(sources: seq<T>, replaceOn: Outcome, parse: T --> Result<Option<V>, T>,
                       compare: (Option<V>, Option<V>) --> Outcome, key: V --> int,
                       index: int, result: Option<V>, bestIndex: int)
    requires replaceOn == Greater || replaceOn == Less
    requires Fits(sources, parse, compare, key)
    requires 0 <= index < |sources| && forall j | 0 <= j <= index :: parse(sources[j]).Ok?
    requires Kept(sources, parse, key, replaceOn, index, result, bestIndex)
    ensures var candidate := parse(sources[index]).value;
            var outcome := if result.None? then compare(candidate, None) else compare(candidate, result);
            if outcome == replaceOn || outcome == OnlySecondAbsent
            then Kept(sources, parse, key, replaceOn, index + 1, candidate, index)
            else Kept(sources, parse, key, replaceOn, index + 1, result, bestIndex)
  {
    var candidate := parse(sources[index]).value;
    var outcome := if result.None? then compare(candidate, None) else compare(candidate, result);
    assert outcome == CompareKeys(KeyOpt(candidate, key), KeyOpt(result, key));
    if outcome == replaceOn || outcome == OnlySecondAbsent {
      KeptReplaced(sources, parse, key, replaceOn, index, result, bestIndex);
    } else {
      KeptUnreplaced(sources, parse, key, replaceOn, index, result, bestIndex);
    }
  }

  /** What the fold keeps over all the arguments is the extreme of their values. */
  lemma KeptAtEnd<T, V>(sources: seq<T>, parse: T --> Result<Option<V>, T>, key: V --> int,
                        replaceOn: Outcome, result: Option<V>, bestIndex: int)
    requires Keyed(sources, parse, key) && forall i | 0 <= i < |sources| :: parse(sources[i]).Ok?
    requires Kept(sources, parse, key, replaceOn, |sources|, result, bestIndex)
    ensures IsExtreme(ParsedValues(sources, parse), key, replaceOn, result)
  {
    var values := ParsedValues(sources, parse);
    if result.Some? {
      assert values[bestIndex] == result;
    }
  }

  /** The loop shared by the six folds. It raises on the first argument that cannot be
      parsed; otherwise its result is the extreme of the parsed values. */
  method Extreme<T, V>(sources: seq<T>, replaceOn: Outcome, parse: T --> Result<Option<V>, T>,
                       compare: (Option<V>, Option<V>) --> Outcome, ghost key: V --> int)
    returns (r: Result<Option<V>, T>)
    requires replaceOn == Greater || replaceOn == Less
    requires Fits(sources, parse, compare, key)
    ensures r.Raise? <==> exists i | 0 <= i < |sources| :: parse(sources[i]).Raise?
    ensures r.Raise? ==> exists i | 0 <= i < |sources| ::
              r.culprit == sources[i] && parse(sources[i]).Raise? && forall j | 0 <= j < i :: parse(sources[j]).Ok?
    ensures r.Ok? ==> IsExtreme(ParsedValues(sources, parse), key, replaceOn, r.value)
  {
    var result: Option<V> := None;
    ghost var bestIndex := 0;
    for index := 0 to |sources|
      invariant forall j | 0 <= j < index :: parse(sources[j]).Ok?
      invariant Kept(sources, parse, key, replaceOn, index, result, bestIndex)
    {
      var candidate :- parse(sources[index]);
      KeptStep(sources, replaceOn, parse, compare, key, index, result, bestIndex);
      var outcome := if result.None? then compare(candidate, None) else compare(candidate, result);
      if outcome == replaceOn || outcome == OnlySecondAbsent {
        result := candidate;
        bestIndex := index;
      }
    }
    KeptAtEnd(sources, parse, key, replaceOn, result, bestIndex);
    return Ok(result);
  }

  // ----- the six entry points -----

  function DayKey(d: Date): int
    requires Valid(d)
  {
    DayNumber(d)
  }

  function NanoKey(t: Time): int
    requires ValidTime(t)
  {
    NanoOfDay(t)
  }

  function DateTimeKeyOfValue(dt: DateTime): int
    requires ValidDateTime(dt)
  {
    DateTimeKey(dt)
  }

  /** compareDate of a parsed candidate and the running result. */
  function CompareParsedDates(a: Option<Date>, b: Option<Date>): Outcome
    requires a.Some? ==> Valid(a.value)
    requires b.Some? ==> Valid(b.value)
  {
    CompareDate(DateInput(a), DateInput(b)).value
  }

  ghost function DateValues(sources: seq<Input>): seq<Option<Date>>
    requires AllWellFormed(sources) && AllSupported(Dates, sources)
  {
    ParsedValues(sources, ParseDate)
  }

  ghost function TimeValues(sources: seq<Input>): seq<Option<Time>>
    requires AllWellFormed(sources) && AllSupported(Times, sources)
  {
    ParsedValues(sources, ParseTime)
  }

  ghost function DateTimeValues(sources: seq<Input>, today: Date): seq<Option<DateTime>>
    requires AllWellFormed(sources) && AllSupported(DateTimes, sources) && Valid(today)
  {
    ParsedValues(sources, DateTimeParser(today))
  }

  /** The first argument a fold cannot parse. */
  ghost predicate FirstUnsupported(kind: Kind, sources: seq<Input>, culprit: Input) {
    exists i | 0 <= i < |sources| ::
      culprit == sources[i] && !Supported(kind, sources[i]) && forall j | 0 <= j < i :: Supported(kind, sources[j])
  }

  /** compareTime of a parsed candidate and the running result, both put on today. */
  function TimeComparer(today: Date): (Option<Time>, Option<Time>) --> Outcome
    requires Valid(today)
  {
    (a: Option<Time>, b: Option<Time>) requires (a.Some? ==> ValidTime(a.value)) && (b.Some? ==> ValidTime(b.value)) =>
      CompareTime(TimeInput(a), TimeInput(b), today).value
  }

  /** compare of a parsed candidate and the running result. */
  function DateTimeComparer(today: Date): (Option<DateTime>, Option<DateTime>) --> Outcome
    requires Valid(today)
  {
    (a: Option<DateTime>, b: Option<DateTime>)
      requires (a.Some? ==> ValidDateTime(a.value)) && (b.Some? ==> ValidDateTime(b.value)) =>
      Compare(DateTimeInput(a), DateTimeInput(b), today).value
  }

  /** parse(Object) with today for the date of a time. */
  function DateTimeParser(today: Date): Input --> Result<Option<DateTime>, Input>
    requires Valid(today)
  {
    (x: Input) requires WellFormed(x) => Parse(x, today)
  }

  /** compareDate orders parsed dates by their day numbers. */
  lemma DatesFit(sources: seq<Input>)
    requires AllWellFormed(sources)
    ensures Fits(sources, ParseDate, CompareParsedDates, DayKey)
  {
    forall a: Option<Date>, b: Option<Date> | (a.Some? ==> Valid(a.value)) && (b.Some? ==> Valid(b.value))
      ensures CompareParsedDates(a, b) == CompareKeys(KeyOpt(a, DayKey), KeyOpt(b, DayKey))
    {
      ParseDateInput(a, Date(1970, 1, 1));
      ParseDateInput(b, Date(1970, 1, 1));
      assert KeyOpt(a, DayKey) == DayKeyOf(a) && KeyOpt(b, DayKey) == DayKeyOf(b);
    }
  }

  /** compareTime orders parsed times by their nanoseconds of the day. */
  lemma TimesFit(sources: seq<Input>, today: Date)
    requires AllWellFormed(sources) && Valid(today)
    ensures Fits(sources, ParseTime, TimeComparer(today), NanoKey)
  {
    forall a: Option<Time>, b: Option<Time> | (a.Some? ==> ValidTime(a.value)) && (b.Some? ==> ValidTime(b.value))
      ensures TimeComparer(today)(a, b) == CompareKeys(KeyOpt(a, NanoKey), KeyOpt(b, NanoKey))
    {
      ParseTimeInput(a, today);
      ParseTimeInput(b, today);
      assert KeyOpt(a, NanoKey) == NanoKeyOf(a) && KeyOpt(b, NanoKey) == NanoKeyOf(b);
    }
  }

  /** compare orders parsed date-times by their keys. */
  lemma DateTimesFit(sources: seq<Input>, today: Date)
    requires AllWellFormed(sources) && Valid(today)
    ensures Fits(sources, DateTimeParser(today), DateTimeComparer(today), DateTimeKeyOfValue)
  {
    forall a: Option<DateTime> | a.Some? ==> ValidDateTime(a.value)
      ensures Parse(DateTimeInput(a), today) == Ok(a)
    {
      ParseDateTimeInput(a, today);
    }
    forall a: Option<DateTime>, b: Option<DateTime> | (a.Some? ==> ValidDateTime(a.value)) && (b.Some? ==> ValidDateTime(b.value))
      ensures DateTimeComparer(today)(a, b) == CompareKeys(KeyOpt(a, DateTimeKeyOfValue), KeyOpt(b, DateTimeKeyOfValue))
    {
      ParseDateTimeInput(a, today);
      ParseDateTimeInput(b, today);
      assert KeyOpt(a, DateTimeKeyOfValue) == DateTimeKeyOf(a) && KeyOpt(b, DateTimeKeyOfValue) == DateTimeKeyOf(b);
    }
  }

  /** A date-time handed back to parse(Object) is read as itself. */
  lemma ParseDateTimeInput(v: Option<DateTime>, today: Date)
    requires v.Some? ==> ValidDateTime(v.value)
    requires Valid(today)
    ensures Parse(DateTimeInput(v), today) == Ok(v)
  {
  }

  /** maxDate (replaceOn Greater) and minDate (replaceOn Less). */
  method FoldDates(sources: seq<Input>, replaceOn: Outcome) returns (r: Result<Option<Date>, Input>)
    requires AllWellFormed(sources) && (replaceOn == Greater || replaceOn == Less)
    ensures r.Raise? <==> !AllSupported(Dates, sources)
    ensures r.Raise? ==> FirstUnsupported(Dates, sources, r.culprit)
    ensures r.Ok? ==> (forall i | 0 <= i < |sources| && DateValues(sources)[i].Some? :: Valid(DateValues(sources)[i].value)) &&
                      IsExtreme(DateValues(sources), DayKey, replaceOn, r.value)
  {
    DatesFit(sources);
    r := Extreme(sources, replaceOn, ParseDate, CompareParsedDates, DayKey);
  }

  /** maxTime (replaceOn Greater) and minTime (replaceOn Less). */
  method FoldTimes(sources: seq<Input>, replaceOn: Outcome, today: Date) returns (r: Result<Option<Time>, Input>)
    requires AllWellFormed(sources) && Valid(today) && (replaceOn == Greater || replaceOn == Less)
    ensures r.Raise? <==> !AllSupported(Times, sources)
    ensures r.Raise? ==> FirstUnsupported(Times, sources, r.culprit)
    ensures r.Ok? ==> (forall i | 0 <= i < |sources| && TimeValues(sources)[i].Some? :: ValidTime(TimeValues(sources)[i].value)) &&
                      IsExtreme(TimeValues(sources), NanoKey, replaceOn, r.value)
  {
    TimesFit(sources, today);
    r := Extreme(sources, replaceOn, ParseTime, TimeComparer(today), NanoKey);
  }

  /** max (replaceOn Greater) and min (replaceOn Less). */
  method FoldDateTimes(sources: seq<Input>, replaceOn: Outcome, today: Date) returns (r: Result<Option<DateTime>, Input>)
    requires AllWellFormed(sources) && Valid(today) && (replaceOn == Greater || replaceOn == Less)
    ensures r.Raise? <==> !AllSupported(DateTimes, sources)
    ensures r.Raise? ==> FirstUnsupported(DateTimes, sources, r.culprit)
    ensures r.Ok? ==> (forall i | 0 <= i < |sources| && DateTimeValues(sources, today)[i].Some? ::
                         ValidDateTime(DateTimeValues(sources, today)[i].value)) &&
                      IsExtreme(DateTimeValues(sources, today), DateTimeKeyOfValue, replaceOn, r.value)
  {
    DateTimesFit(sources, today);
    forall i | 0 <= i < |sources|
      ensures DateTimeParser(today)(sources[i]) == Parse(sources[i], today)
      ensures DateTimeParser(today)(sources[i]).Raise? <==> !Supported(DateTimes, sources[i])
    {
    }
    r := Extreme(sources, replaceOn, DateTimeParser(today), DateTimeComparer(today), DateTimeKeyOfValue);
  }

  function DateTimeInput(v: Option<DateTime>): Input {
    match v
    case None => Null
    case Some(dt) => DateTimeValue(dt)
  }
}

/** The six-way comparison: 0, 1 or -1 by chronological order when both sides parse,
    2 when only the second does not, -2 when only the first does not, 22 when neither
    does. compareDate and compareTime hand the parsed values back to compare. */
module Comparison {
  import opened Wrappers
  import opened Calendar
  import opened Clock
  import opened Parsing

  datatype Outcome = Equal | Greater | Less | OnlySecondAbsent | OnlyFirstAbsent | BothAbsent

  /** The int the library returns for each outcome. */
  function Code(o: Outcome): int {
    match o
    case Equal => 0
    case Greater => 1
    case Less => -1
    case OnlySecondAbsent => 2
    case OnlyFirstAbsent => -2
    case BothAbsent => 22
  }

  /** The reference order on optional keys: absence first, then the sign of the
      difference. */
  function CompareKeys(a: Option<int>, b: Option<int>): Outcome {
    match (a, b)
    case (None, None) => BothAbsent
    case (None, Some(_)) => OnlyFirstAbsent
    case (Some(_), None) => OnlySecondAbsent
    case (Some(x), Some(y)) => if x < y then Less else if x == y then Equal else Greater
  }

  /** Swapping the sides negates the code, except for the symmetric 22. */
  lemma CompareKeysFlip(a: Option<int>, b: Option<int>)
    ensures CompareKeys(a, b) == BothAbsent <==> CompareKeys(b, a) == BothAbsent
    ensures CompareKeys(a, b) != BothAbsent ==> Code(CompareKeys(b, a)) == -Code(CompareKeys(a, b))
  {
  }

  /** "Not after" is transitive over present keys. */
  lemma CompareKeysTransitive(a: Option<int>, b: Option<int>, c: Option<int>)
    requires CompareKeys(a, b) in {Less, Equal} && CompareKeys(b, c) in {Less, Equal}
    ensures CompareKeys(a, c) in {Less, Equal}
    ensures CompareKeys(a, c) == Equal <==> CompareKeys(a, b) == Equal && CompareKeys(b, c) == Equal
  {
  }

  function DateTimeKeyOf(v: Option<DateTime>): Option<int>
    requires v.Some? ==> ValidDateTime(v.value)
  {
    match v
    case None => None
    case Some(dt) => Some(DateTimeKey(dt))
  }

  function DayKeyOf(v: Option<Date>): Option<int>
    requires v.Some? ==> Valid(v.value)
  {
    match v
    case None => None
    case Some(d) => Some(DayNumber(d))
  }

  function NanoKeyOf(v: Option<Time>): Option<int>
    requires v.Some? ==> ValidTime(v.value)
  {
    match v
    case None => None
    case Some(t) => Some(NanoOfDay(t))
  }

  /** The body of compare once both sides are parsed: LocalDateTime's isEqual, isAfter
      and isBefore, tried in that order. It is the reference order on their keys. */
  function CompareValues(a: Option<DateTime>, b: Option<DateTime>): Outcome {
    if a.None? && b.None? then BothAbsent
    else if a.None? then OnlyFirstAbsent
    else if b.None? then OnlySecondAbsent
    else if a.value == b.value then Equal
    else if DateTimeBefore(b.value, a.value) then Greater
    else if DateTimeBefore(a.value, b.value) then Less
    else Equal
  }

  /** isEqual, isAfter and isBefore agree with the date-time keys, so compare is the
      reference order on keys. */
  lemma CompareValuesByKeys(a: Option<DateTime>, b: Option<DateTime>)
    requires a.Some? ==> ValidDateTime(a.value)
    requires b.Some? ==> ValidDateTime(b.value)
    ensures CompareValues(a, b) == CompareKeys(DateTimeKeyOf(a), DateTimeKeyOf(b))
  {
    if a.Some? && b.Some? {
      DateTimeKeyOrder(a.value, b.value);
      DateTimeKeyOrder(b.value, a.value);
    }
  }

  /** compare(Object, Object): both sides parsed as date-times (the first side first,
      so an unsupported first argument is the one reported). */
  function Compare(x: Input, y: Input, today: Date): (r: Result<Outcome, Input>)
    requires WellFormed(x) && WellFormed(y) && Valid(today)
    ensures r.Raise? <==> !DateTimeSource(x) || !DateTimeSource(y)
    ensures r.Raise? ==> r.culprit == if !DateTimeSource(x) then x else y
    ensures r.Ok? ==> r.value == CompareKeys(DateTimeKeyOf(Parse(x, today).value), DateTimeKeyOf(Parse(y, today).value))
  {
    var a :- Parse(x, today);
    var b :- Parse(y, today);
    CompareValuesByKeys(a, b);
    Ok(CompareValues(a, b))
  }

  function DateInput(v: Option<Date>): Input {
    match v
    case None => Null
    case Some(d) => DateValue(d)
  }

  function TimeInput(v: Option<Time>): Input {
    match v
    case None => Null
    case Some(t) => TimeValue(t)
  }

  /** compareDate: the parsed dates handed to compare, where each becomes the start of its
      day (no current date is involved); the outcome is the order of the dates. */
  function CompareDate(x: Input, y: Input): (r: Result<Outcome, Input>)
    requires WellFormed(x) && WellFormed(y)
    ensures r.Raise? <==> !DateSource(x) || !DateSource(y)
    ensures r.Raise? ==> r.culprit == if !DateSource(x) then x else y
    ensures r.Ok? ==> r.value == CompareKeys(DayKeyOf(ParseDate(x).value), DayKeyOf(ParseDate(y).value))
  {
    var a :- ParseDate(x);
    var b :- ParseDate(y);
    StartsOfDaysOrder(a, b);
    Ok(CompareValues(StartOfDayOf(a), StartOfDayOf(b)))
  }

  function StartOfDayOf(v: Option<Date>): Option<DateTime> {
    match v
    case None => None
    case Some(d) => Some(AtStartOfDay(d))
  }

  lemma ParseDateInput(v: Option<Date>, today: Date)
    requires v.Some? ==> Valid(v.value)
    requires Valid(today)
    ensures Parse(DateInput(v), today) == Ok(StartOfDayOf(v))
    ensures ParseDate(DateInput(v)) == Ok(v)
  {
  }

  /** Starts of days are ordered as the days' numbers. */
  lemma StartsOfDaysOrder(a: Option<Date>, b: Option<Date>)
    requires a.Some? ==> Valid(a.value)
    requires b.Some? ==> Valid(b.value)
    ensures CompareValues(StartOfDayOf(a), StartOfDayOf(b)) == CompareKeys(DayKeyOf(a), DayKeyOf(b))
  {
    if a.Some? && b.Some? {
      var da, db := a.value, b.value;
      DayNumberOrder(da, db);
      DayNumberOrder(db, da);
      if DayNumber(da) == DayNumber(db) {
        DayNumberInjective(da, db);
      }
    }
  }

  /** compareDate is compare applied to the parsed dates, whatever the current date. */
  lemma CompareDateIsCompare(x: Input, y: Input, today: Date)
    requires WellFormed(x) && WellFormed(y) && Valid(today)
    requires DateSource(x) && DateSource(y)
    ensures CompareDate(x, y) == Compare(DateInput(ParseDate(x).value), DateInput(ParseDate(y).value), today)
  {
    var a, b := ParseDate(x).value, ParseDate(y).value;
    ParseDateInput(a, today);
    ParseDateInput(b, today);
    StartsOfDaysOrder(a, b);
  }

  /** compareTime: the parsed times handed to compare, where both are put on the same
      current date; the outcome is the order of the times of day. */
  function CompareTime(x: Input, y: Input, today: Date): (r: Result<Outcome, Input>)
    requires WellFormed(x) && WellFormed(y) && Valid(today)
    ensures r.Raise? <==> !TimeSource(x) || !TimeSource(y)
    ensures r.Raise? ==> r.culprit == if !TimeSource(x) then x else y
    ensures r.Ok? ==> r.value == CompareKeys(NanoKeyOf(ParseTime(x).value), NanoKeyOf(ParseTime(y).value))
  {
    var a :- ParseTime(x);
    var b :- ParseTime(y);
    CompareTimesOfDay(a, b, today);
    Compare(TimeInput(a), TimeInput(b), today)
  }

  function OnDate(v: Option<Time>, today: Date): Option<DateTime> {
    match v
    case None => None
    case Some(t) => Some(DateTime(today, t))
  }

  lemma ParseTimeInput(v: Option<Time>, today: Date)
    requires v.Some? ==> ValidTime(v.value)
    requires Valid(today)
    ensures Parse(TimeInput(v), today) == Ok(OnDate(v, today))
    ensures ParseTime(TimeInput(v)) == Ok(v)
  {
  }

  /** Times handed to compare are put on the same date, so they are ordered as their
      nanoseconds of the day. */
  lemma CompareTimesOfDay(a: Option<Time>, b: Option<Time>, today: Date)
    requires a.Some? ==> ValidTime(a.value)
    requires b.Some? ==> ValidTime(b.value)
    requires Valid(today)
    ensures Compare(TimeInput(a), TimeInput(b), today) == Ok(CompareKeys(NanoKeyOf(a), NanoKeyOf(b)))
  {
    ParseTimeInput(a, today);
    ParseTimeInput(b, today);
    if a.Some? && b.Some? {
      NanoOfDayOrder(a.value, b.value);
      NanoOfDayOrder(b.value, a.value);
    }
  }

  /** compare(x, y) and compare(y, x) have opposite codes, except that 22 is its own
      opposite. */
  lemma CompareAntisymmetric(x: Input, y: Input, today: Date)
    requires WellFormed(x) && WellFormed(y) && Valid(today)
    requires DateTimeSource(x) && DateTimeSource(y)
    ensures Compare(x, y, today).value == BothAbsent <==> Compare(y, x, today).value == BothAbsent
    ensures Compare(x, y, today).value != BothAbsent ==>
              Code(Compare(y, x, today).value) == -Code(Compare(x, y, today).value)
  {
    OppositeOutcomes(Compare(x, y, today), Compare(y, x, today),
                     DateTimeKeyOf(Parse(x, today).value), DateTimeKeyOf(Parse(y, today).value));
  }

  /** CompareKeysFlip for two results that carry the outcomes of swapped keys. */
  lemma OppositeOutcomes(r1: Result<Outcome, Input>, r2: Result<Outcome, Input>, a: Option<int>, b: Option<int>)
    requires r1 == Ok(CompareKeys(a, b)) && r2 == Ok(CompareKeys(b, a))
    ensures r1.value == BothAbsent <==> r2.value == BothAbsent
    ensures r1.value != BothAbsent ==> Code(r2.value) == -Code(r1.value)
  {
    CompareKeysFlip(a, b);
  }

  /** Whatever parses compares equal to itself; what does not gives 22. */
  lemma CompareReflexive(x: Input, today: Date)
    requires WellFormed(x) && Valid(today) && DateTimeSource(x)
    ensures Parse(x, today).value.Some? ==> Compare(x, x, today) == Ok(Equal)
    ensures Parse(x, today).value.None? ==> Compare(x, x, today) == Ok(BothAbsent)
  {
  }

  /** The outcomes with absence follow from which sides parse. */
  lemma CompareAbsence(x: Input, y: Input, today: Date)
    requires WellFormed(x) && WellFormed(y) && Valid(today)
    requires DateTimeSource(x) && DateTimeSource(y)
    ensures Compare(x, y, today).value == BothAbsent <==> Parse(x, today).value.None? && Parse(y, today).value.None?
    ensures Compare(x, y, today).value == OnlyFirstAbsent <==> Parse(x, today).value.None? && Parse(y, today).value.Some?
    ensures Compare(x, y, today).value == OnlySecondAbsent <==> Parse(x, today).value.Some? && Parse(y, today).value.None?
  {
  }

  /** Two parsed date-times compare as 1 exactly when the first is after the second. */
  lemma CompareChronological(x: Input, y: Input, today: Date)
    requires WellFormed(x) && WellFormed(y) && Valid(today)
    requires DateTimeSource(x) && DateTimeSource(y)
    requires Parse(x, today).value.Some? && Parse(y, today).value.Some?
    ensures var a, b := Parse(x, today).value.value, Parse(y, today).value.value;
            (Compare(x, y, today).value == Greater <==> DateTimeBefore(b, a)) &&
            (Compare(x, y, today).value == Less <==> DateTimeBefore(a, b)) &&
            (Compare(x, y, today).value == Equal <==> a == b)
  {
    var a, b := Parse(x, today).value.value, Parse(y, today).value.value;
    DateTimeKeyOrder(a, b);
    DateTimeKeyOrder(b, a);
  }

  // ----- the three comparators behind the sequence test and the folds -----

  datatype Kind = Dates | Times | DateTimes

  predicate Supported(kind: Kind, x: Input) {
    match kind
    case Dates => DateSource(x)
    case Times => TimeSource(x)
    case DateTimes => DateTimeSource(x)
  }

  /** The key a comparator orders an argument by: its day number, its nanosecond of the
      day, or its date-time key. */
  function KeyOf(kind: Kind, x: Input, today: Date): (r: Result<Option<int>, Input>)
    requires WellFormed(x) && Valid(today)
    ensures r.Raise? <==> !Supported(kind, x)
    ensures r.Raise? ==> r.culprit == x
  {
    match kind
    case Dates => var d :- ParseDate(x); Ok(DayKeyOf(d))
    case Times => var t :- ParseTime(x); Ok(NanoKeyOf(t))
    case DateTimes => var dt :- Parse(x, today); Ok(DateTimeKeyOf(dt))
  }

  /** compareDate, compareTime or compare. */
  function CompareBy(kind: Kind, x: Input, y: Input, today: Date): (r: Result<Outcome, Input>)
    requires WellFormed(x) && WellFormed(y) && Valid(today)
    ensures r.Raise? <==> !Supported(kind, x) || !Supported(kind, y)
    ensures r.Raise? ==> r.culprit == if !Supported(kind, x) then x else y
    ensures r.Ok? ==> r.value == CompareKeys(KeyOf(kind, x, today).value, KeyOf(kind, y, today).value)
  {
    match kind
    case Dates => CompareDate(x, y)
    case Times => CompareTime(x, y, today)
    case DateTimes => Compare(x, y, today)
  }
}

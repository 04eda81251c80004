/** The Japanese text outputs: formatDate_jp ("<era><n>年<M>月<d>日") and
    formatDayOfWeek_jp (the one-character weekday name). */
module JapaneseText {
  import opened Wrappers
  import opened Numerals
  import opened Calendar
  import opened Era
  import opened Parsing
  import Anchors

  /** formatDate_jp(Object): the parsed date written with its era, through the loop over
      the era map in whatever order the map yields it. */
  method FormatDateJp(x: Input, eras: seq<EraSpan>) returns (r: Result<Option<string>, Input>)
    requires WellFormed(x) && multiset(eras) == multiset(EraTable)
    ensures r.Raise? <==> !DateSource(x)
    ensures r.Raise? ==> r.culprit == x
    ensures r.Ok? ==> (r.value.None? <==> ParseDate(x).value.None?)
    ensures r.Ok? && r.value.Some? ==> r.value.value == JpText(ParseDate(x).value.value)
  {
    var parsed := ParseDate(x);
    if parsed.Raise? {
      return Raise(parsed.culprit);
    }
    if parsed.value.None? {
      return Ok(None);
    }
    var text := FormatEraDate(parsed.value.value, eras);
    return Ok(Some(text));
  }

  /** The names by weekday number modulo 7: 日 (Sunday), 月, 火, 水, 木, 金, 土. */
  const DayNames: seq<string> := ["\U{65E5}", "\U{6708}", "\U{706B}", "\U{6C34}", "\U{6728}", "\U{91D1}", "\U{571F}"]

  /** The entry of the weekday-name map whose list holds the argument, as an index into
      DayNames: the Integers 0 to 7, the Strings "0" to "7" (7 and 0 both for Sunday) and
      the DayOfWeek constants. */
  function ListedDay(x: Input): (r: Option<nat>)
    requires WellFormed(x)
    ensures r.Some? ==> r.value < 7
  {
    match x
    case IntValue(i) => if 0 <= i <= 7 then Some(i as int % 7) else None
    case Text(s) => if |s| == 1 && '0' <= s[0] <= '7' then Some((s[0] as int - '0' as int) % 7) else None
    case DayOfWeekValue(w) => Some(w % 7)
    case _ => None
  }

  /** formatDayOfWeek_jp(Object): the name of the entry listing the argument; otherwise
      the name of the parsed date's weekday, or null when it does not parse. */
  function FormatDayOfWeekJp(x: Input): (r: Result<Option<string>, Input>)
    requires WellFormed(x)
    ensures r.Raise? <==> ListedDay(x).None? && !DateSource(x)
    ensures r.Raise? ==> r.culprit == x
    ensures ListedDay(x).Some? ==> r == Ok(Some(DayNames[ListedDay(x).value]))
    ensures ListedDay(x).None? && r.Ok? ==>
              (r.value.None? <==> ParseDate(x).value.None?) &&
              (r.value.Some? ==> r.value.value == DayNames[DayOfWeek(ParseDate(x).value.value) % 7])
  {
    if ListedDay(x).Some? then Ok(Some(DayNames[ListedDay(x).value]))
    else
      var parsed :- ParseDate(x);
      if parsed.None? then Ok(None)
      else Ok(Some(DayNames[DayOfWeek(parsed.value) % 7]))
  }

  /** The seven names are distinct, so the name tells the weekday. */
  lemma DayNamesDistinct(w: int, v: int)
    requires 1 <= w <= 7 && 1 <= v <= 7
    ensures FormatDayOfWeekJp(DayOfWeekValue(w)) == FormatDayOfWeekJp(DayOfWeekValue(v)) <==> w == v
  {
    if w != v {
      assert DayNames[w % 7] != DayNames[v % 7];
    }
  }

  /** An Integer weekday is named as parseDayOfWeek reads it: 1 to 6 for Monday to
      Saturday, 0 and 7 for Sunday. */
  lemma IntegerDayAsParsed(i: Int32)
    requires 0 <= i <= 7
    ensures FormatDayOfWeekJp(IntValue(i)) == FormatDayOfWeekJp(DayOfWeekValue(Anchors.ParseDayOfWeek(i as int)))
  {
    var w := Anchors.ParseDayOfWeek(i as int);
    assert ListedDay(IntValue(i)) == Some(i as int % 7);
    assert ListedDay(DayOfWeekValue(w)) == Some(w % 7);
    assert w % 7 == i as int % 7;
  }

  /** A date is named by its own weekday. */
  lemma DateNamedByWeekday(d: Date)
    requires Valid(d)
    ensures FormatDayOfWeekJp(DateValue(d)) == FormatDayOfWeekJp(DayOfWeekValue(DayOfWeek(d)))
  {
    assert ParseDate(DateValue(d)) == Ok(Some(d));
  }
}

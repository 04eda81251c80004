/** The historical chronology of Japan: the era table, reading "<era><n>年<M>月<d>日"
    into a date, and writing a date that way. */
module Era {
  import opened Wrappers
  import opened Numerals
  import opened Calendar
  import opened Blank
  import opened Patterns

  /** An era name and the first and last Gregorian year it covers. */
  datatype EraSpan = EraSpan(name: string, begin: int, end: int)

  const Meiji: string := "\U{660E}\U{6CBB}"
  const Taisho: string := "\U{5927}\U{6B63}"
  const Showa: string := "\U{662D}\U{548C}"
  const Heisei: string := "\U{5E73}\U{6210}"
  const Reiwa: string := "\U{4EE4}\U{548C}"

  /** "元", written for the first year of an era. */
  const Gan: char := '\U{5143}'

  const EraTable: seq<EraSpan> := [
    EraSpan(Meiji, 1868, 1911),
    EraSpan(Taisho, 1912, 1925),
    EraSpan(Showa, 1926, 1988),
    EraSpan(Heisei, 1989, 2018),
    EraSpan(Reiwa, 2019, 9999)
  ]

  predicate Covers(e: EraSpan, year: int) {
    e.begin <= year <= e.end
  }

  /** No two eras share a name or a year, so a lookup by either finds at most one. */
  lemma EraTableUnique(i: int, j: int)
    requires 0 <= i < |EraTable| && 0 <= j < |EraTable|
    ensures EraTable[i].name == EraTable[j].name ==> i == j
    ensures (exists year :: Covers(EraTable[i], year) && Covers(EraTable[j], year)) ==> i == j
  {
  }

  lemma EraNamesTwoChars(e: EraSpan)
    requires e in EraTable
    ensures |e.name| == 2 && Nen !in e.name && !IsBlankChar(e.name[0]) && !IsDigit(e.name[0])
  {
  }

  /** The era of a name, as the name-keyed map returns it. */
  function EraNamed(name: string): (r: Option<EraSpan>)
    ensures r.Some? ==> r.value in EraTable && r.value.name == name
    ensures r.None? ==> forall e :: e in EraTable ==> e.name != name
  {
    FindByName(EraTable, name)
  }

  function FindByName(eras: seq<EraSpan>, name: string): (r: Option<EraSpan>)
    ensures r.Some? ==> r.value in eras && r.value.name == name
    ensures r.None? ==> forall e :: e in eras ==> e.name != name
  {
    if eras == [] then None
    else if eras[0].name == name then Some(eras[0])
    else FindByName(eras[1..], name)
  }

  /** The era whose span holds the year, if any. */
  function EraContaining(year: int): (r: Option<EraSpan>)
    ensures r.Some? ==> r.value in EraTable && Covers(r.value, year)
    ensures r.None? ==> forall e :: e in EraTable ==> !Covers(e, year)
  {
    FindByYear(EraTable, year)
  }

  function FindByYear(eras: seq<EraSpan>, year: int): (r: Option<EraSpan>)
    ensures r.Some? ==> r.value in eras && Covers(r.value, year)
    ensures r.None? ==> forall e :: e in eras ==> !Covers(e, year)
  {
    if eras == [] then None
    else if Covers(eras[0], year) then Some(eras[0])
    else FindByYear(eras[1..], year)
  }

  lemma EraNamedIs(e: EraSpan)
    requires e in EraTable
    ensures EraNamed(e.name) == Some(e)
  {
    var r := EraNamed(e.name);
    var i :| 0 <= i < |EraTable| && EraTable[i] == e;
    var j :| 0 <= j < |EraTable| && EraTable[j] == r.value;
    EraTableUnique(i, j);
  }

  lemma EraContainingIs(e: EraSpan, year: int)
    requires e in EraTable && Covers(e, year)
    ensures EraContaining(year) == Some(e)
  {
    var r := EraContaining(year);
    var i :| 0 <= i < |EraTable| && EraTable[i] == e;
    var j :| 0 <= j < |EraTable| && EraTable[j] == r.value;
    EraTableUnique(i, j);
  }

  /** The eras cover every year from 1868 to 9999 without a gap. */
  lemma EraTableCovers(year: int)
    requires 1868 <= year <= 9999
    ensures EraContaining(year).Some?
  {
    var i := if year <= 1911 then 0 else if year <= 1925 then 1 else if year <= 1988 then 2
             else if year <= 2018 then 3 else 4;
    assert Covers(EraTable[i], year);
  }

  /** The first position of a character in the text (String.indexOf). */
  function IndexOf(s: string, c: char): (r: Option<nat>)
    ensures r.Some? ==> r.value < |s| && s[r.value] == c && c !in s[..r.value]
    ensures r.None? ==> c !in s
  {
    if s == [] then None
    else if s[0] == c then Some(0)
    else
      match IndexOf(s[1..], c)
      case None => None
      case Some(i) =>
        assert s[..i + 1] == [s[0]] + s[1..][..i];
        Some(i + 1)
  }

  lemma IndexOfJoin(a: string, b: string, c: char)
    requires c !in a && |b| > 0 && b[0] == c
    ensures IndexOf(a + b, c) == Some(|a|)
  {
    if a == [] {
      assert a + b == b;
    } else {
      assert (a + b)[1..] == a[1..] + b;
      IndexOfJoin(a[1..], b, c);
    }
  }

  /** parseDate_jp: null for blank text, text of at most two characters, an unknown era
      name in the first two characters, no 年, or an era year that Integer.parseInt
      rejects; 元 counts as 1. The Gregorian year is the era's first year plus the era
      year minus one in 32-bit arithmetic, with no check against the era's last year,
      and the rewritten text "<year>年<rest>" is read with the yyyy年M月d日 preset. */
  function ParseDateJp(s: string): (r: Option<Date>)
    ensures r.Some? ==> Valid(r.value)
    ensures IsBlank(s) || |s| <= 2 ==> r.None?
    ensures |s| > 2 && EraNamed(s[..2]).None? ==> r.None?
    ensures Nen !in s ==> r.None?
    ensures |s| > 2 && EraNamed(s[..2]).Some? && IndexOf(s, Nen).Some? && IndexOf(s, Nen).value >= 2 &&
            EraYearValue(s[2..IndexOf(s, Nen).value]).None? ==>
              r.None?
  {
    if IsBlank(s) || |s| <= 2 then None
    else
      var era :- EraNamed(s[..2]);
      var k :- IndexOf(s, Nen);
      EraNamesTwoChars(era);
      assert forall j :: 0 <= j < 2 ==> s[j] == era.name[j];
      EraYearDate(era, s[2..k], s[k..])
  }

  /** The rest of parseDate_jp once the era and 年 are found: the era year (元 or a
      number) becomes a Gregorian year in Java int arithmetic, and the text from 年 on
      is read with the yyyy年M月d日 preset. */
  function EraYearDate(era: EraSpan, yearText: string, rest: string): (r: Option<Date>)
    ensures r.Some? ==> Valid(r.value)
  {
    var n :- EraYearValue(yearText);
    var year := Wrap32(era.begin + n - 1);
    ParseDateFormat(IntToString(year) + rest, DateShortMdChar)
  }

  /** The era year's value: 元 is 1, anything else is read by Integer.parseInt. */
  function EraYearValue(yearText: string): (r: Option<int>)
    ensures r.Some? ==> InIntRange(r.value)
  {
    ParseInt(if yearText == [Gan] then "1" else yearText)
  }

  /** The era year as written: 元 for the first year, the number otherwise. */
  function EraYearNumeral(n: int): (s: string)
    ensures Nen !in s && |s| >= 1
    ensures n == 1 <==> s == [Gan]
  {
    if n == 1 then [Gan] else IntToString(n)
  }

  /** "M月d日": month and day without padding. */
  function MonthDayText(d: Date): string
    requires Valid(d)
  {
    NatToString(d.month) + [Tsuki] + NatToString(d.day) + [Hi]
  }

  /** formatDate_jp of a date: "<era><n>年" for the era whose span holds the year, or
      "<year>年" when no era does, followed by the month and the day. */
  function JpText(d: Date): string
    requires Valid(d)
  {
    var yearText := match EraContaining(d.year)
      case Some(e) => e.name + EraYearNumeral(d.year - e.begin + 1) + [Nen]
      case None => IntToString(d.year) + [Nen];
    yearText + MonthDayText(d)
  }

  /** The loop of formatDate_jp over the era map, whose iteration order is unspecified:
      any order of the table gives the same text, because the spans are disjoint. */
  method FormatEraDate(d: Date, eras: seq<EraSpan>) returns (text: string)
    requires Valid(d)
    requires multiset(eras) == multiset(EraTable)
    ensures text == JpText(d)
  {
    var monthDay := MonthDayText(d);
    var year := d.year;
    var yearResult := IntToString(year) + [Nen];
    ghost var found := false;
    var i := 0;
    while i < |eras|
      invariant 0 <= i <= |eras|
      invariant !found ==> yearResult == IntToString(year) + [Nen]
      invariant !found ==> forall j :: 0 <= j < i ==> !Covers(eras[j], year)
      invariant found ==> yearResult + monthDay == JpText(d)
    {
      if year >= eras[i].begin && year <= eras[i].end {
        var eraYear := year - eras[i].begin + 1;
        yearResult := eras[i].name + EraYearNumeral(eraYear) + [Nen];
        assert eras[i] in multiset(EraTable);
        EraContainingIs(eras[i], year);
        found := true;
        break;
      }
      i := i + 1;
    }
    if !found {
      forall e | e in EraTable
        ensures !Covers(e, year)
      {
        assert e in multiset(eras);
      }
    }
    text := yearResult + monthDay;
  }

  /** Where the era name, the era year and the rest sit in "<era><n>年<rest>". */
  lemma EraTextShape(e: EraSpan, numeral: string, rest: string)
    requires e in EraTable && Nen !in numeral && |rest| > 0 && rest[0] == Nen
    ensures var s := e.name + numeral + rest;
            var k := 2 + |numeral|;
            |s| > 2 && !IsBlank(s) && s[..2] == e.name && IndexOf(s, Nen) == Some(k) &&
            s[2..k] == numeral && s[k..] == rest
  {
    var s := e.name + numeral + rest;
    EraNamesTwoChars(e);
    assert s[0] == e.name[0];
    assert s[..2] == e.name;
    assert Nen !in e.name + numeral;
    assert s == (e.name + numeral) + rest;
    IndexOfJoin(e.name + numeral, rest, Nen);
    assert s[2..2 + |numeral|] == numeral;
  }

  /** The era year as written reads back as its value. */
  lemma EraYearReadsBack(n: int)
    requires InIntRange(n)
    ensures EraYearValue(EraYearNumeral(n)) == Some(n)
  {
    if n == 1 {
      ParseIntToString(1);
      assert IntToString(1) == "1";
    } else {
      ParseIntToString(n);
    }
  }

  /** The rewritten text "<yyyy>年<M>月<d>日" reads back as the date. */
  lemma RewrittenTextReadsBack(d: Date)
    requires Valid(d) && 1000 <= d.year <= 9999
    ensures ParseDateFormat(IntToString(d.year) + ([Nen] + MonthDayText(d)), DateShortMdChar) == Some(d)
  {
    var t := IntToString(d.year) + ([Nen] + MonthDayText(d));
    assert t == NatToString(d.year) + [Nen] + NatToString(d.month) + [Tsuki] + NatToString(d.day) + [Hi];
    ShortMdCharReadsBack(d);
    NatToStringLength4(d.year);
    assert t[0] == NatToString(d.year)[0];
  }

  /** Reading "<era><n>年<M>月<d>日" gives the date in year begin + n - 1 of any era,
      whether or not that year is past the era's end, when that year has four digits. */
  lemma ParseEraText(e: EraSpan, n: int, d: Date)
    requires e in EraTable && Valid(d) && d.year == e.begin + n - 1 && 1000 <= d.year <= 9999
    ensures ParseDateJp(e.name + EraYearNumeral(n) + [Nen] + MonthDayText(d)) == Some(d)
  {
    var numeral := EraYearNumeral(n);
    var rest := [Nen] + MonthDayText(d);
    assert e.name + numeral + [Nen] + MonthDayText(d) == e.name + numeral + rest;
    EraYearReadsBack(n);
    EraNamedIs(e);
    assert Wrap32(e.begin + n - 1) == d.year;
    ReadsWithShape(e, numeral, rest, n);
    RewrittenTextReadsBack(d);
  }

  /** The steps of parseDate_jp on "<era><numeral><rest>" with rest starting at 年. */
  lemma ReadsWithShape(e: EraSpan, numeral: string, rest: string, n: int)
    requires e in EraTable && Nen !in numeral && |rest| > 0 && rest[0] == Nen
    requires EraYearValue(numeral) == Some(n)
    ensures ParseDateJp(e.name + numeral + rest) == ParseDateFormat(IntToString(Wrap32(e.begin + n - 1)) + rest, DateShortMdChar)
  {
    var s := e.name + numeral + rest;
    var k := 2 + |numeral|;
    EraTextShape(e, numeral, rest);
    EraNamedIs(e);
    JpTextSteps(s, e, k);
    EraYearDateIs(e, numeral, rest, n);
  }

  /** An era year that parses as n stands for the Gregorian year begin + n - 1. */
  lemma EraYearDateIs(era: EraSpan, yearText: string, rest: string, n: int)
    requires EraYearValue(yearText) == Some(n)
    ensures EraYearDate(era, yearText, rest) == ParseDateFormat(IntToString(Wrap32(era.begin + n - 1)) + rest, DateShortMdChar)
  {
    var year := Wrap32(era.begin + n - 1);
    assert EraYearDate(era, yearText, rest) == ParseDateFormat(IntToString(year) + rest, DateShortMdChar);
  }

  /** Once the era name and the first 年 are found, parseDate_jp goes on with the text
      between them and the text from 年 on. */
  lemma JpTextSteps(s: string, e: EraSpan, k: nat)
    requires |s| > 2 && !IsBlank(s) && EraNamed(s[..2]) == Some(e)
    requires IndexOf(s, Nen) == Some(k) && 2 <= k
    ensures ParseDateJp(s) == EraYearDate(e, s[2..k], s[k..])
  {
  }

  /** formatDate_jp and parseDate_jp are inverse for the years 1868 to 9999. */
  lemma JpRoundTrip(d: Date)
    requires Valid(d) && 1868 <= d.year <= 9999
    ensures ParseDateJp(JpText(d)) == Some(d)
  {
    EraTableCovers(d.year);
    var e := EraContaining(d.year).value;
    ParseEraText(e, d.year - e.begin + 1, d);
  }

  /** Outside the eras' years the year is written in full, without an era name. */
  lemma JpTextFallback(d: Date)
    requires Valid(d) && (d.year < 1868 || d.year > 9999)
    ensures JpText(d) == IntToString(d.year) + [Nen] + MonthDayText(d)
  {
    assert forall e :: e in EraTable ==> 1868 <= e.begin && e.end <= 9999;
  }
}

/** The library's preset text formats, as java.time's DateTimeFormatter reads them with
    the default SMART resolver and strict parsing, and the first-success cascade that
    tries a table of them in turn.

    A pattern is a sequence of tokens: a fixed-width numeric field (yyyy, yy, MM, dd, HH,
    mm, ss, SSS), a variable-width numeric field (M, d) that takes the whole run of
    digits, or a literal character. The whole text must be consumed. */
module Patterns {
  import opened Wrappers
  import opened Numerals
  import opened Calendar
  import opened Clock
  import opened Blank

  datatype Field = YearOfEra | ReducedYear | MonthOfYear | DayOfMonth
                 | HourOfDay | MinuteOfHour | SecondOfMinute | MilliOfSecond

  datatype Token = Fixed(field: Field, width: nat) | Greedy(field: Field) | Lit(c: char)

  type Pattern = seq<Token>

  /** Length of the run of ASCII digits at the front of the text. */
  function DigitRun(s: string): (n: nat)
    ensures n <= |s| && AllDigits(s[..n])
    ensures n < |s| ==> !IsDigit(s[n])
  {
    if s == [] || !IsDigit(s[0]) then 0
    else
      var n := 1 + DigitRun(s[1..]);
      assert forall i :: 1 <= i < n ==> s[..n][i] == s[1..][..n - 1][i - 1];
      n
  }

  /** Reads the text with the pattern, collecting the value of every numeric field;
      None when a literal does not match, a field finds too few digits, or text is left. */
  function Scan(p: Pattern, s: string): (r: Option<map<Field, int>>)
    ensures r.Some? ==> forall f :: f in r.value ==> r.value[f] >= 0
  {
    if p == [] then (if s == [] then Some(map[]) else None)
    else
      match p[0]
      case Lit(c) =>
        if |s| > 0 && s[0] == c then Scan(p[1..], s[1..]) else None
      case Fixed(f, w) =>
        if w <= |s| && AllDigits(s[..w]) then
          var rest :- Scan(p[1..], s[w..]);
          Some(rest[f := DigitsValue(s[..w])])
        else None
      case Greedy(f) =>
        var n := DigitRun(s);
        if n == 0 then None
        else
          var rest :- Scan(p[1..], s[n..]);
          Some(rest[f := DigitsValue(s[..n])])
  }

  function Get(m: map<Field, int>, f: Field): Option<int> {
    if f in m then Some(m[f]) else None
  }

  /** SMART resolution of year, month and day: yyyy is a year of era (at least 1), yy a
      year 2000 to 2099, the month 1 to 12 and the day 1 to 31, and a day past the end
      of the month is moved back to the month's last day. */
  function ResolveDate(m: map<Field, int>): (r: Option<Date>)
    ensures r.Some? ==> Valid(r.value)
    ensures r.Some? ==> Get(m, MonthOfYear) == Some(r.value.month)
    ensures r.Some? && Get(m, DayOfMonth).Some? ==> r.value.day <= Get(m, DayOfMonth).value
  {
    var year :- if YearOfEra in m then (if m[YearOfEra] >= 1 then Some(m[YearOfEra]) else None)
                else if ReducedYear in m then Some(2000 + m[ReducedYear])
                else None;
    var month :- Get(m, MonthOfYear);
    var day :- Get(m, DayOfMonth);
    if 1 <= month <= 12 && 1 <= day <= 31 then Some(Date(year, month, Min(day, LengthOfMonth(year, month))))
    else None
  }

  /** Resolution of a time of day: hour 0 to 23 and minute 0 to 59 are required, the
      second (0 to 59) and the millisecond default to zero. */
  function ResolveTime(m: map<Field, int>): (r: Option<Time>)
    ensures r.Some? ==> ValidTime(r.value)
    ensures r.Some? ==> Get(m, HourOfDay) == Some(r.value.hour) && Get(m, MinuteOfHour) == Some(r.value.minute)
  {
    var hour :- Get(m, HourOfDay);
    var minute :- Get(m, MinuteOfHour);
    var second := Get(m, SecondOfMinute).GetOr(0);
    var milli := Get(m, MilliOfSecond).GetOr(0);
    if 0 <= hour < 24 && 0 <= minute < 60 && 0 <= second < 60 && 0 <= milli < 1000 then
      Some(Time(hour, minute, second, milli * 1_000_000))
    else None
  }

  /** LocalDate.parse with one pattern. */
  function ParseDateWith(p: Pattern, s: string): (r: Option<Date>)
    ensures r.Some? ==> Valid(r.value)
  {
    var m :- Scan(p, s);
    ResolveDate(m)
  }

  /** LocalTime.parse with one pattern. */
  function ParseTimeWith(p: Pattern, s: string): (r: Option<Time>)
    ensures r.Some? ==> ValidTime(r.value)
  {
    var m :- Scan(p, s);
    ResolveTime(m)
  }

  /** LocalDateTime.parse with one pattern: both a date and a time must resolve. */
  function ParseDateTimeWith(p: Pattern, s: string): (r: Option<DateTime>)
    ensures r.Some? ==> ValidDateTime(r.value)
  {
    var m :- Scan(p, s);
    var d :- ResolveDate(m);
    var t :- ResolveTime(m);
    Some(DateTime(d, t))
  }

  /** parseDate(String, DateTimeFormatter): null for blank text, else LocalDate.parse. */
  function ParseDateFormat(s: string, p: Pattern): (r: Option<Date>)
    ensures r.Some? ==> Valid(r.value) && !IsBlank(s)
  {
    if IsBlank(s) then None else ParseDateWith(p, s)
  }

  /** parseTime(String, DateTimeFormatter): null for blank text, else LocalTime.parse. */
  function ParseTimeFormat(s: string, p: Pattern): (r: Option<Time>)
    ensures r.Some? ==> ValidTime(r.value) && !IsBlank(s)
  {
    if IsBlank(s) then None else ParseTimeWith(p, s)
  }

  /** parse(String, DateTimeFormatter): null for blank text, else LocalDateTime.parse. */
  function ParseDateTimeFormat(s: string, p: Pattern): (r: Option<DateTime>)
    ensures r.Some? ==> ValidDateTime(r.value) && !IsBlank(s)
  {
    if IsBlank(s) then None else ParseDateTimeWith(p, s)
  }

  // ----- the preset formats -----

  const Nen: char := '\U{5E74}'
  const Tsuki: char := '\U{6708}'
  const Hi: char := '\U{65E5}'

  const Y4: Token := Fixed(YearOfEra, 4)
  const Y2: Token := Fixed(ReducedYear, 2)
  const MM: Token := Fixed(MonthOfYear, 2)
  const DD: Token := Fixed(DayOfMonth, 2)
  const HH: Token := Fixed(HourOfDay, 2)
  const Mi: Token := Fixed(MinuteOfHour, 2)
  const SS: Token := Fixed(SecondOfMinute, 2)
  const Milli: Token := Fixed(MilliOfSecond, 3)

  const DateFullPlain: Pattern := [Y4, MM, DD]
  const DateFullSlash: Pattern := [Y4, Lit('/'), MM, Lit('/'), DD]
  const DateFullDash: Pattern := [Y4, Lit('-'), MM, Lit('-'), DD]
  const DateFullChar: Pattern := [Y4, Lit(Nen), MM, Lit(Tsuki), DD, Lit(Hi)]
  const DateShortMdSlash: Pattern := [Y4, Lit('/'), Greedy(MonthOfYear), Lit('/'), Greedy(DayOfMonth)]
  const DateShortMdDash: Pattern := [Y4, Lit('-'), Greedy(MonthOfYear), Lit('-'), Greedy(DayOfMonth)]
  const DateShortMdChar: Pattern := [Y4, Lit(Nen), Greedy(MonthOfYear), Lit(Tsuki), Greedy(DayOfMonth), Lit(Hi)]
  const DateShortYPlain: Pattern := [Y2, MM, DD]
  const DateShortYSlash: Pattern := [Y2, Lit('/'), MM, Lit('/'), DD]
  const DateShortYDash: Pattern := [Y2, Lit('-'), MM, Lit('-'), DD]
  const DateMdyPlain: Pattern := [MM, DD, Y2]

  const TimeShortPlain: Pattern := [HH, Mi]
  const TimeShortColon: Pattern := [HH, Lit(':'), Mi]
  const TimeBasicPlain: Pattern := [HH, Mi, SS]
  const TimeBasicColon: Pattern := [HH, Lit(':'), Mi, Lit(':'), SS]
  const TimeFullPlain: Pattern := [HH, Mi, SS, Milli]
  const TimeFullColon: Pattern := [HH, Lit(':'), Mi, Lit(':'), SS, Lit('.'), Milli]

  const DateTimeShortPlain: Pattern := DateFullPlain + TimeShortPlain
  const DateTimeShortSlashColon: Pattern := DateFullSlash + [Lit(' ')] + TimeShortColon
  const DateTimeShortDashColon: Pattern := DateFullDash + [Lit(' ')] + TimeShortColon
  const DateTimeBasicPlain: Pattern := DateFullPlain + TimeBasicPlain
  const DateTimeBasicSlashColon: Pattern := DateFullSlash + [Lit(' ')] + TimeBasicColon
  const DateTimeBasicDashColon: Pattern := DateFullDash + [Lit(' ')] + TimeBasicColon
  const DateTimeFullPlain: Pattern := DateFullPlain + TimeFullPlain
  const DateTimeFullSlashColon: Pattern := DateFullSlash + [Lit(' ')] + TimeFullColon
  const DateTimeFullDashColon: Pattern := DateFullDash + [Lit(' ')] + TimeFullColon

  /** A preset format and the suffix that completes a partial input for it. */
  datatype Preset = Preset(pattern: Pattern, suffix: string)

  /** The date presets in declaration order, with their completion suffixes. */
  const DatePresets: seq<Preset> := [
    Preset(DateFullPlain, "01"),
    Preset(DateFullSlash, "/01"),
    Preset(DateFullDash, "-01"),
    Preset(DateFullChar, "01" + [Hi]),
    Preset(DateShortMdSlash, "/1"),
    Preset(DateShortMdDash, "-1"),
    Preset(DateShortMdChar, "1" + [Hi]),
    Preset(DateShortYPlain, "01"),
    Preset(DateShortYSlash, "/01"),
    Preset(DateShortYDash, "-01"),
    Preset(DateMdyPlain, "")
  ]

  const TimePresets: seq<Preset> := [
    Preset(TimeShortPlain, ""),
    Preset(TimeShortColon, ""),
    Preset(TimeBasicPlain, "00"),
    Preset(TimeBasicColon, ":00"),
    Preset(TimeFullPlain, "00000"),
    Preset(TimeFullColon, ":00.000")
  ]

  const DateTimePresets: seq<Preset> := [
    Preset(DateTimeShortPlain, ""),
    Preset(DateTimeShortSlashColon, ""),
    Preset(DateTimeShortDashColon, ""),
    Preset(DateTimeBasicPlain, ""),
    Preset(DateTimeBasicSlashColon, ""),
    Preset(DateTimeBasicDashColon, ""),
    Preset(DateTimeFullPlain, ""),
    Preset(DateTimeFullSlashColon, ""),
    Preset(DateTimeFullDashColon, "")
  ]

  /** Completing a year-only text: "1231" appended, read as yyyyMMdd. */
  const YearComplement: string := "1231"
  /** Completing an hour-only text: "0000" appended, read as HHmmss. */
  const HourComplement: string := "0000"

  // ----- the cascade -----

  /** The first preset, in table order, whose attempt succeeds, with that attempt's value. */
  function FirstSuccess<T>(attempt: Preset -> Option<T>, presets: seq<Preset>): (r: Option<T>)
    ensures r.Some? ==> exists i :: 0 <= i < |presets| && attempt(presets[i]) == r &&
                                   forall j :: 0 <= j < i ==> attempt(presets[j]).None?
    ensures r.None? <==> forall i :: 0 <= i < |presets| ==> attempt(presets[i]).None?
  {
    if presets == [] then None
    else
      var first := attempt(presets[0]);
      if first.Some? then first
      else
        var r := FirstSuccess(attempt, presets[1..]);
        assert forall i :: 1 <= i < |presets| ==> presets[i] == presets[1..][i - 1];
        r
  }

  /** The loop that tries each preset in turn and stops at the first success. */
  method Cascade<T>(attempt: Preset -> Option<T>, presets: seq<Preset>) returns (r: Option<T>)
    ensures r == FirstSuccess(attempt, presets)
  {
    r := None;
    var i := 0;
    while i < |presets|
      invariant 0 <= i <= |presets|
      invariant r.None?
      invariant FirstSuccess(attempt, presets) == FirstSuccess(attempt, presets[i..])
    {
      assert presets[i..][1..] == presets[i + 1..];
      r := attempt(presets[i]);
      if r.Some? {
        return;
      }
      i := i + 1;
    }
  }

  /** The cascade does not depend on the order of the table whenever every preset that
      succeeds yields the same value. */
  lemma FirstSuccessOrderFree<T>(attempt: Preset -> Option<T>, a: seq<Preset>, b: seq<Preset>)
    requires forall p :: p in a <==> p in b
    requires forall i, j :: 0 <= i < |a| && 0 <= j < |a| && attempt(a[i]).Some? && attempt(a[j]).Some? ==>
               attempt(a[i]) == attempt(a[j])
    ensures FirstSuccess(attempt, a) == FirstSuccess(attempt, b)
  {
    var ra, rb := FirstSuccess(attempt, a), FirstSuccess(attempt, b);
    if ra.Some? {
      var i :| 0 <= i < |a| && attempt(a[i]) == ra;
      assert a[i] in b;
      var k :| 0 <= k < |b| && b[k] == a[i];
      assert attempt(b[k]).Some?;
      assert rb.Some?;
      var j :| 0 <= j < |b| && attempt(b[j]) == rb;
      assert b[j] in a;
      var l :| 0 <= l < |a| && a[l] == b[j];
      assert attempt(a[l]) == rb;
    } else {
      forall j | 0 <= j < |b|
        ensures attempt(b[j]).None?
      {
        assert b[j] in a;
        var l :| 0 <= l < |a| && a[l] == b[j];
      }
    }
  }

  // ----- reading numbers written by Integer.toString -----

  function Put(r: Option<map<Field, int>>, f: Field, v: int): Option<map<Field, int>> {
    match r
    case None => None
    case Some(m) => Some(m[f := v])
  }

  lemma DigitRunOf(digits: string, t: string)
    requires AllDigits(digits)
    requires t == [] || !IsDigit(t[0])
    ensures DigitRun(digits + t) == |digits|
  {
    if digits == [] {
      assert digits + t == t;
    } else {
      assert (digits + t)[1..] == digits[1..] + t;
      DigitRunOf(digits[1..], t);
    }
  }

  lemma ScanFixed(p: Pattern, digits: string, t: string)
    requires |p| > 0 && p[0].Fixed? && |digits| == p[0].width && AllDigits(digits)
    ensures Scan(p, digits + t) == Put(Scan(p[1..], t), p[0].field, DigitsValue(digits))
  {
    var s := digits + t;
    assert s[..|digits|] == digits && s[|digits|..] == t;
  }

  /** A variable-width field reads back a number written without padding. */
  lemma ScanGreedy(p: Pattern, n: nat, t: string)
    requires |p| > 0 && p[0].Greedy?
    requires t == [] || !IsDigit(t[0])
    ensures Scan(p, NatToString(n) + t) == Put(Scan(p[1..], t), p[0].field, n)
  {
    var digits := NatToString(n);
    var s := digits + t;
    DigitRunOf(digits, t);
    assert s[..|digits|] == digits && s[|digits|..] == t;
  }

  lemma ScanLit(p: Pattern, c: char, t: string)
    requires |p| > 0 && p[0] == Lit(c)
    ensures Scan(p, [c] + t) == Scan(p[1..], t)
  {
    assert ([c] + t)[1..] == t;
  }

  /** The part after the year: "年<M>月<d>日" with month and day unpadded. */
  lemma ScanMonthDayChar(m: nat, dd: nat)
    ensures Scan(DateShortMdChar[1..], [Nen] + NatToString(m) + [Tsuki] + NatToString(dd) + [Hi])
            == Some(map[DayOfMonth := dd, MonthOfYear := m])
  {
    var ms, ds := NatToString(m), NatToString(dd);
    var r4 := ds + [Hi];
    var r3 := [Tsuki] + r4;
    var r2 := ms + r3;
    assert [Nen] + ms + [Tsuki] + ds + [Hi] == [Nen] + r2;
    var p5: Pattern := [Lit(Hi)];
    var p4: Pattern := [Greedy(DayOfMonth)] + p5;
    var p3: Pattern := [Lit(Tsuki)] + p4;
    var p2: Pattern := [Greedy(MonthOfYear)] + p3;
    var p1: Pattern := [Lit(Nen)] + p2;
    assert DateShortMdChar[1..] == p1;
    ScanLit(p5, Hi, []);
    assert [Hi] == [Hi] + [];
    assert Scan(p5, [Hi]) == Some(map[]);
    ScanGreedy(p4, dd, [Hi]);
    assert p4[1..] == p5;
    ScanLit(p3, Tsuki, r4);
    assert p3[1..] == p4;
    ScanGreedy(p2, m, r3);
    assert p2[1..] == p3;
    ScanLit(p1, Nen, r2);
    assert p1[1..] == p2;
  }

  lemma YearFirst(ys: string, ms: string, ds: string)
    ensures ys + [Nen] + ms + [Tsuki] + ds + [Hi] == ys + ([Nen] + ms + [Tsuki] + ds + [Hi])
  {
  }

  lemma ScanShortMdChar(y: nat, m: nat, dd: nat)
    requires 1000 <= y <= 9999
    ensures Scan(DateShortMdChar, NatToString(y) + [Nen] + NatToString(m) + [Tsuki] + NatToString(dd) + [Hi])
            == Some(map[DayOfMonth := dd, MonthOfYear := m, YearOfEra := y])
  {
    var ys, ms, ds := NatToString(y), NatToString(m), NatToString(dd);
    var r1 := [Nen] + ms + [Tsuki] + ds + [Hi];
    YearFirst(ys, ms, ds);
    ScanMonthDayChar(m, dd);
    NatToStringLength4(y);
    ScanFixed(DateShortMdChar, ys, r1);
  }

  /** Text "<yyyy>年<M>月<d>日", with month and day unpadded, reads back with the
      yyyy年M月d日 preset as the date it was written from. */
  lemma ShortMdCharReadsBack(d: Date)
    requires Valid(d) && 1000 <= d.year <= 9999
    ensures ParseDateWith(DateShortMdChar, NatToString(d.year) + [Nen] + NatToString(d.month) + [Tsuki] + NatToString(d.day) + [Hi])
            == Some(d)
  {
    ScanShortMdChar(d.year, d.month, d.day);
  }

  /** A number below 100 written with two digits, as the HH, mm and ss fields print it. */
  function TwoDigits(n: nat): (s: string)
    requires n < 100
    ensures |s| == 2 && AllDigits(s) && DigitsValue(s) == n
  {
    var s := [DigitChar(n / 10), DigitChar(n % 10)];
    DigitsValue2(s);
    s
  }

  /** The seconds and what follows: "<ss>". */
  lemma ScanSeconds(ss: nat)
    requires ss < 100
    ensures Scan(TimeBasicColon[4..], TwoDigits(ss)) == Some(map[SecondOfMinute := ss])
  {
    var p: Pattern := [SS];
    assert TimeBasicColon[4..] == p;
    ScanFixed(p, TwoDigits(ss), []);
    assert TwoDigits(ss) + [] == TwoDigits(ss);
  }

  /** ":<mm>:<ss>" after the hour. */
  lemma ScanMinuteSecond(mm: nat, ss: nat)
    requires mm < 100 && ss < 100
    ensures Scan(TimeBasicColon[1..], [':'] + TwoDigits(mm) + [':'] + TwoDigits(ss))
            == Some(map[SecondOfMinute := ss, MinuteOfHour := mm])
  {
    var r3 := [':'] + TwoDigits(ss);
    var r2 := TwoDigits(mm) + r3;
    assert [':'] + TwoDigits(mm) + [':'] + TwoDigits(ss) == [':'] + r2;
    var p4: Pattern := TimeBasicColon[3..];
    var p3: Pattern := TimeBasicColon[2..];
    var p2: Pattern := TimeBasicColon[1..];
    ScanSeconds(ss);
    ScanLit(p4, ':', TwoDigits(ss));
    assert p4[1..] == TimeBasicColon[4..];
    ScanFixed(p3, TwoDigits(mm), r3);
    assert p3[1..] == p4;
    ScanLit(p2, ':', r2);
    assert p2[1..] == p3;
  }

  /** "HH:mm:ss" written from a time with no fraction of a second reads back with the
      HH:mm:ss preset as that time. */
  lemma BasicColonReadsBack(t: Time)
    requires ValidTime(t) && t.nano == 0
    ensures ParseTimeFormat(TwoDigits(t.hour) + [':'] + TwoDigits(t.minute) + [':'] + TwoDigits(t.second), TimeBasicColon)
            == Some(t)
  {
    var hs := TwoDigits(t.hour);
    var r1 := [':'] + TwoDigits(t.minute) + [':'] + TwoDigits(t.second);
    var s := hs + [':'] + TwoDigits(t.minute) + [':'] + TwoDigits(t.second);
    assert s == hs + r1;
    ScanMinuteSecond(t.minute, t.second);
    ScanFixed(TimeBasicColon, hs, r1);
    assert !IsBlankChar(s[0]);
  }

  // ----- the two-digit ambiguity -----

  /** "020721" reads as yyMMdd (2002-07-21) and as MMddyy (2021-02-07), so a cascade
      that meets MMddyy first gives a different date. */
  lemma AmbiguousSixDigits()
    ensures ParseDateWith(DateShortYPlain, "020721") == Some(Date(2002, 7, 21))
    ensures ParseDateWith(DateMdyPlain, "020721") == Some(Date(2021, 2, 7))
  {
    DigitsValue2("02");
    DigitsValue2("07");
    DigitsValue2("21");
    var s := "020721";
    assert s[..2] == "02" && s[2..] == "0721";
    assert "0721"[..2] == "07" && "0721"[2..] == "21";
    assert "21"[..2] == "21" && "21"[2..] == [];
    assert Scan([DD], "21") == Some(map[DayOfMonth := 21]);
    assert Scan([MM, DD], "0721") == Some(map[DayOfMonth := 21, MonthOfYear := 7]);
    assert Scan(DateShortYPlain, s) == Some(map[DayOfMonth := 21, MonthOfYear := 7, ReducedYear := 2]);
    assert "21"[..2] == "21" && "21"[2..] == [];
    assert Scan([Y2], "21") == Some(map[ReducedYear := 21]);
    assert Scan([DD, Y2], "0721") == Some(map[ReducedYear := 21, DayOfMonth := 7]);
    assert Scan(DateMdyPlain, s) == Some(map[ReducedYear := 21, DayOfMonth := 7, MonthOfYear := 2]);
  }
}

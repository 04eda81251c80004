/** The proleptic Gregorian calendar (section 3.2.1 of ISO 8601:2004), as java.time's
    LocalDate implements it: valid (year, month, day) triples, a day number that counts
    days from 0001-01-01, the day of the week numbered Monday = 1 .. Sunday = 7, and
    the plus-days/weeks/months/years arithmetic used by the anchor rules. */
module Calendar {

  datatype Date = Date(year: int, month: int, day: int)

  predicate IsLeapYear(y: int) {
    y % 4 == 0 && (y % 100 != 0 || y % 400 == 0)
  }

  function LengthOfMonth(y: int, m: int): (n: int)
    requires 1 <= m <= 12
    ensures 28 <= n <= 31
    ensures n == 29 <==> m == 2 && IsLeapYear(y)
  {
    if m == 2 then (if IsLeapYear(y) then 29 else 28)
    else if m == 4 || m == 6 || m == 9 || m == 11 then 30
    else 31
  }

  function LengthOfYear(y: int): int {
    if IsLeapYear(y) then 366 else 365
  }

  predicate Valid(d: Date) {
    1 <= d.month <= 12 && 1 <= d.day <= LengthOfMonth(d.year, d.month)
  }

  function Min(a: int, b: int): int { if a <= b then a else b }
  function Max(a: int, b: int): int { if a <= b then b else a }

  /** Math.min(Math.max(v, lo), hi), as the source writes its clamps. */
  function Clamp(v: int, lo: int, hi: int): (r: int)
    requires lo <= hi
    ensures lo <= r <= hi
    ensures lo <= v <= hi ==> r == v
    ensures v < lo ==> r == lo
    ensures hi < v ==> r == hi
  {
    Min(Max(v, lo), hi)
  }

  // ----- day numbers -----

  /** Leap years among 1..x, extended to every integer so that each year adds its own. */
  function LeapsThrough(x: int): int {
    x / 4 - x / 100 + x / 400
  }

  lemma DivStep4(x: int)
    ensures x / 4 - (x - 1) / 4 == if x % 4 == 0 then 1 else 0
  {
  }

  lemma DivStep100(x: int)
    ensures x / 100 - (x - 1) / 100 == if x % 100 == 0 then 1 else 0
  {
  }

  lemma DivStep400(x: int)
    ensures x / 400 - (x - 1) / 400 == if x % 400 == 0 then 1 else 0
  {
  }

  lemma LeapsStep(y: int)
    ensures LeapsThrough(y) - LeapsThrough(y - 1) == if IsLeapYear(y) then 1 else 0
  {
    DivStep4(y);
    DivStep100(y);
    DivStep400(y);
    if y % 400 == 0 {
      Div400IsDiv100(y);
    }
    if y % 100 == 0 {
      Div100IsDiv4(y);
    }
  }

  lemma Div400IsDiv100(y: int)
    requires y % 400 == 0
    ensures y % 100 == 0
  {
    var q := y / 400;
    assert y == 100 * (4 * q);
  }

  lemma Div100IsDiv4(y: int)
    requires y % 100 == 0
    ensures y % 4 == 0
  {
    var q := y / 100;
    assert y == 4 * (25 * q);
  }

  /** Days from 0001-01-01 to the first day of year y. */
  function DaysBeforeYear(y: int): int {
    365 * (y - 1) + LeapsThrough(y - 1)
  }

  lemma DaysBeforeYearStep(y: int)
    ensures DaysBeforeYear(y + 1) == DaysBeforeYear(y) + LengthOfYear(y)
  {
    LeapsStep(y);
  }

  lemma {:induction false} DaysBeforeYearMonotone(a: int, b: int)
    requires a < b
    ensures DaysBeforeYear(a) + 365 * (b - a) <= DaysBeforeYear(b)
    decreases b - a
  {
    DaysBeforeYearStep(a);
    if a + 1 < b {
      DaysBeforeYearMonotone(a + 1, b);
    }
  }

  /** Days from the first day of year y to the first day of month m. */
  function DaysBeforeMonth(y: int, m: int): int
    requires 1 <= m <= 12
  {
    var common :=
      if m == 1 then 0 else if m == 2 then 31 else if m == 3 then 59
      else if m == 4 then 90 else if m == 5 then 120 else if m == 6 then 151
      else if m == 7 then 181 else if m == 8 then 212 else if m == 9 then 243
      else if m == 10 then 273 else if m == 11 then 304 else 334;
    common + (if m > 2 && IsLeapYear(y) then 1 else 0)
  }

  lemma DaysBeforeMonthStep(y: int, m: int)
    requires 1 <= m <= 12
    ensures m < 12 ==> DaysBeforeMonth(y, m + 1) == DaysBeforeMonth(y, m) + LengthOfMonth(y, m)
    ensures m == 12 ==> DaysBeforeMonth(y, m) + LengthOfMonth(y, m) == LengthOfYear(y)
  {
  }

  lemma MonthEndsInYear(y: int, m: int)
    requires 1 <= m <= 12
    ensures DaysBeforeMonth(y, m) + LengthOfMonth(y, m) <= LengthOfYear(y)
  {
  }

  lemma {:induction false} DaysBeforeMonthMonotone(y: int, a: int, b: int)
    requires 1 <= a < b <= 12
    ensures DaysBeforeMonth(y, a) + LengthOfMonth(y, a) <= DaysBeforeMonth(y, b)
    decreases b - a
  {
    DaysBeforeMonthStep(y, a);
    if a + 1 < b {
      DaysBeforeMonthMonotone(y, a + 1, b);
    }
  }

  /** The number of days from 0001-01-01 (day 0) to d: java.time's epoch day shifted by a constant. */
  function DayNumber(d: Date): int
    requires Valid(d)
  {
    DaysBeforeYear(d.year) + DaysBeforeMonth(d.year, d.month) + d.day - 1
  }

  /** A date's day number lies within its year. */
  lemma DayNumberInYear(d: Date)
    requires Valid(d)
    ensures DaysBeforeYear(d.year) <= DayNumber(d) < DaysBeforeYear(d.year + 1)
  {
    DaysBeforeYearStep(d.year);
    MonthEndsInYear(d.year, d.month);
  }

  function YearUp(n: int, y: int): (r: int)
    requires DaysBeforeYear(y) <= n
    ensures DaysBeforeYear(r) <= n < DaysBeforeYear(r + 1)
    decreases n - DaysBeforeYear(y)
  {
    DaysBeforeYearStep(y);
    if n < DaysBeforeYear(y + 1) then y else YearUp(n, y + 1)
  }

  function YearDown(n: int, y: int): (r: int)
    requires n < DaysBeforeYear(y + 1)
    ensures DaysBeforeYear(r) <= n < DaysBeforeYear(r + 1)
    decreases DaysBeforeYear(y + 1) - n
  {
    DaysBeforeYearStep(y);
    if DaysBeforeYear(y) <= n then y else YearDown(n, y - 1)
  }

  /** The year that holds day number n. */
  function YearOf(n: int): (y: int)
    ensures DaysBeforeYear(y) <= n < DaysBeforeYear(y + 1)
  {
    var guess := n / 365;
    if DaysBeforeYear(guess) <= n then YearUp(n, guess) else YearDown(n, guess - 1)
  }

  function MonthFrom(y: int, offset: int, m: int): (r: int)
    requires 1 <= m <= 12
    requires DaysBeforeMonth(y, m) <= offset < LengthOfYear(y)
    ensures m <= r <= 12
    ensures DaysBeforeMonth(y, r) <= offset < DaysBeforeMonth(y, r) + LengthOfMonth(y, r)
    decreases 12 - m
  {
    DaysBeforeMonthStep(y, m);
    if offset < DaysBeforeMonth(y, m) + LengthOfMonth(y, m) then m else MonthFrom(y, offset, m + 1)
  }

  /** The date whose day number is n: java.time's LocalDate.ofEpochDay. */
  function FromDayNumber(n: int): (d: Date)
    ensures Valid(d) && DayNumber(d) == n
  {
    var y := YearOf(n);
    DaysBeforeYearStep(y);
    var m := MonthFrom(y, n - DaysBeforeYear(y), 1);
    Date(y, m, n - DaysBeforeYear(y) - DaysBeforeMonth(y, m) + 1)
  }

  lemma YearBracketUnique(n: int, a: int, b: int)
    requires DaysBeforeYear(a) <= n < DaysBeforeYear(a + 1)
    requires DaysBeforeYear(b) <= n < DaysBeforeYear(b + 1)
    ensures a == b
  {
    if a < b {
      DaysBeforeYearMonotone(a, b);
      DaysBeforeYearStep(a);
      if a + 1 < b { DaysBeforeYearMonotone(a + 1, b); }
    } else if b < a {
      DaysBeforeYearMonotone(b, a);
      DaysBeforeYearStep(b);
      if b + 1 < a { DaysBeforeYearMonotone(b + 1, a); }
    }
  }

  lemma MonthBracketUnique(y: int, offset: int, a: int, b: int)
    requires 1 <= a <= 12 && 1 <= b <= 12
    requires DaysBeforeMonth(y, a) <= offset < DaysBeforeMonth(y, a) + LengthOfMonth(y, a)
    requires DaysBeforeMonth(y, b) <= offset < DaysBeforeMonth(y, b) + LengthOfMonth(y, b)
    ensures a == b
  {
    if a < b {
      DaysBeforeMonthMonotone(y, a, b);
    } else if b < a {
      DaysBeforeMonthMonotone(y, b, a);
    }
  }

  /** Day numbers identify dates: converting a valid date and back gives the same date. */
  lemma DayNumberRoundTrip(d: Date)
    requires Valid(d)
    ensures FromDayNumber(DayNumber(d)) == d
  {
    var n := DayNumber(d);
    var r := FromDayNumber(n);
    DayNumberInYear(d);
    YearBracketUnique(n, r.year, d.year);
    DaysBeforeMonthStep(d.year, d.month);
    MonthBracketUnique(d.year, n - DaysBeforeYear(d.year), r.month, d.month);
  }

  lemma DayNumberInjective(a: Date, b: Date)
    requires Valid(a) && Valid(b) && DayNumber(a) == DayNumber(b)
    ensures a == b
  {
    DayNumberRoundTrip(a);
    DayNumberRoundTrip(b);
  }

  // ----- chronological order -----

  /** LocalDate.isBefore: year, then month, then day. */
  predicate Before(a: Date, b: Date) {
    a.year < b.year || (a.year == b.year && (a.month < b.month || (a.month == b.month && a.day < b.day)))
  }

  /** The day number orders dates exactly as isBefore does. */
  lemma DayNumberOrder(a: Date, b: Date)
    requires Valid(a) && Valid(b)
    ensures Before(a, b) <==> DayNumber(a) < DayNumber(b)
  {
    if a.year < b.year {
      DaysBeforeYearMonotone(a.year, b.year);
      DaysBeforeYearStep(a.year);
      if a.year + 1 < b.year { DaysBeforeYearMonotone(a.year + 1, b.year); }
    } else if b.year < a.year {
      DaysBeforeYearMonotone(b.year, a.year);
      DaysBeforeYearStep(b.year);
      if b.year + 1 < a.year { DaysBeforeYearMonotone(b.year + 1, a.year); }
    } else if a.month < b.month {
      DaysBeforeMonthMonotone(a.year, a.month, b.month);
    } else if b.month < a.month {
      DaysBeforeMonthMonotone(a.year, b.month, a.month);
    }
  }

  // ----- day of week -----

  /** DayOfWeek value, Monday = 1 .. Sunday = 7; 0001-01-01 is a Monday. */
  function DayOfWeek(d: Date): (w: int)
    requires Valid(d)
    ensures 1 <= w <= 7
  {
    DayNumber(d) % 7 + 1
  }

  // ----- arithmetic -----

  /** LocalDate.plusDays. */
  function PlusDays(d: Date, n: int): (r: Date)
    requires Valid(d)
    ensures Valid(r) && DayNumber(r) == DayNumber(d) + n
  {
    FromDayNumber(DayNumber(d) + n)
  }

  /** LocalDate.plusWeeks. */
  function PlusWeeks(d: Date, n: int): (r: Date)
    requires Valid(d)
    ensures Valid(r) && DayNumber(r) == DayNumber(d) + 7 * n
  {
    PlusDays(d, 7 * n)
  }

  /** Euclidean remainder by 7 ignores whole weeks. */
  lemma ModSeven(a: int, b: int)
    ensures (a + b) % 7 == (a % 7 + b) % 7
  {
    var q := a / 7;
    assert a == 7 * q + a % 7;
    assert a + b == 7 * q + (a % 7 + b);
  }

  /** Weekdays cycle with period 7. */
  lemma DayOfWeekShift(d: Date, n: int)
    requires Valid(d)
    ensures DayOfWeek(PlusDays(d, n)) == (DayOfWeek(d) - 1 + n) % 7 + 1
  {
    WeekdayAfter(d, n, PlusDays(d, n));
  }

  lemma WeekdayAfter(d: Date, n: int, r: Date)
    requires Valid(d) && Valid(r) && DayNumber(r) == DayNumber(d) + n
    ensures DayOfWeek(r) == (DayOfWeek(d) - 1 + n) % 7 + 1
  {
    ModSeven(DayNumber(d), n);
  }

  lemma PlusDaysZero(d: Date)
    requires Valid(d)
    ensures PlusDays(d, 0) == d
  {
    DayNumberRoundTrip(d);
  }

  /** The month count year * 12 + (month - 1) that LocalDate.plusMonths works on. */
  function MonthIndex(d: Date): int {
    d.year * 12 + d.month - 1
  }

  /** LocalDate.plusMonths: move the month count by n, then clamp the day to the new month. */
  function PlusMonths(d: Date, n: int): (r: Date)
    requires Valid(d)
    ensures Valid(r)
    ensures MonthIndex(r) == MonthIndex(d) + n
    ensures r.day == Min(d.day, LengthOfMonth(r.year, r.month))
  {
    var count := MonthIndex(d) + n;
    var y := count / 12;
    var m := count % 12 + 1;
    Date(y, m, Min(d.day, LengthOfMonth(y, m)))
  }

  /** LocalDate.plusYears: same month, day clamped (29 February becomes 28 February). */
  function PlusYears(d: Date, n: int): (r: Date)
    requires Valid(d)
    ensures Valid(r)
    ensures r.year == d.year + n && r.month == d.month
    ensures r.day == Min(d.day, LengthOfMonth(r.year, r.month))
  {
    Date(d.year + n, d.month, Min(d.day, LengthOfMonth(d.year + n, d.month)))
  }

  lemma WeekdayInSameWeek(d: Date, w: int, r: Date)
    requires Valid(d) && Valid(r) && 1 <= w <= 7
    requires DayNumber(r) == DayNumber(d) + w - DayOfWeek(d)
    ensures DayOfWeek(r) == w
  {
    WeekdayOfShift(DayNumber(d), w);
  }

  lemma WeekdayOfShift(a: int, w: int)
    requires 1 <= w <= 7
    ensures (a + (w - (a % 7 + 1))) % 7 + 1 == w
  {
    assert a + (w - (a % 7 + 1)) == 7 * (a / 7) + (w - 1);
  }

  /** LocalDate.with(DayOfWeek): the day with weekday w in d's Monday-to-Sunday week. */
  function WithDayOfWeek(d: Date, w: int): (r: Date)
    requires Valid(d) && 1 <= w <= 7
    ensures Valid(r) && DayOfWeek(r) == w
    ensures DayNumber(r) - DayOfWeek(r) == DayNumber(d) - DayOfWeek(d)
  {
    var r := PlusDays(d, w - DayOfWeek(d));
    WeekdayInSameWeek(d, w, r);
    r
  }
}

/** Time of day (java.time.LocalTime) and naive date-time (LocalDateTime): their
    chronological order, the plus-seconds/minutes/hours arithmetic that wraps around
    midnight, and the truncations used by the time anchors. */
module Clock {
  import opened Calendar

  const NanosPerSecond: int := 1_000_000_000
  const SecondsPerDay: int := 86400
  const NanosPerDay: int := 86_400_000_000_000

  datatype Time = Time(hour: int, minute: int, second: int, nano: int)

  predicate ValidTime(t: Time) {
    0 <= t.hour < 24 && 0 <= t.minute < 60 && 0 <= t.second < 60 && 0 <= t.nano < NanosPerSecond
  }

  const Midnight: Time := Time(0, 0, 0, 0)

  function SecondOfDay(t: Time): int {
    t.hour * 3600 + t.minute * 60 + t.second
  }

  /** LocalTime.toNanoOfDay: the key that orders times. */
  function NanoOfDay(t: Time): (n: int)
    requires ValidTime(t)
    ensures 0 <= n < NanosPerDay
  {
    SecondOfDay(t) * NanosPerSecond + t.nano
  }

  /** LocalTime.isBefore: hour, minute, second, then nanosecond. */
  predicate TimeBefore(a: Time, b: Time) {
    a.hour < b.hour || (a.hour == b.hour &&
      (a.minute < b.minute || (a.minute == b.minute &&
        (a.second < b.second || (a.second == b.second && a.nano < b.nano)))))
  }

  lemma NanoOfDayOrder(a: Time, b: Time)
    requires ValidTime(a) && ValidTime(b)
    ensures TimeBefore(a, b) <==> NanoOfDay(a) < NanoOfDay(b)
    ensures NanoOfDay(a) == NanoOfDay(b) <==> a == b
  {
    assert SecondOfDay(a) < SecondOfDay(b) ==> SecondOfDay(a) * NanosPerSecond + NanosPerSecond <= SecondOfDay(b) * NanosPerSecond;
    assert SecondOfDay(b) < SecondOfDay(a) ==> SecondOfDay(b) * NanosPerSecond + NanosPerSecond <= SecondOfDay(a) * NanosPerSecond;
  }

  /** Java's % on int, which truncates toward zero (Dafny's % is Euclidean). */
  function JavaRem(a: int, b: int): (r: int)
    requires b > 0
    ensures a >= 0 ==> r == a % b
    ensures -b < r < b
  {
    if a >= 0 then a % b else -((-a) % b)
  }

  /** Java's remainder differs from the dividend by a whole number of divisors. */
  lemma JavaRemQuotient(a: int, b: int) returns (t: int)
    requires b > 0
    ensures a == b * t + JavaRem(a, b)
  {
    if a >= 0 {
      t := a / b;
    } else {
      t := -((-a) / b);
    }
  }

  lemma ModShift24(x: int, t: int)
    ensures (x + 24 * t) % 24 == x % 24
  {
  }

  lemma ModShift1440(x: int, t: int)
    ensures (x + 1440 * t) % 1440 == x % 1440
  {
  }

  lemma ModShift86400(x: int, t: int)
    ensures (x + 86400 * t) % 86400 == x % 86400
  {
  }

  lemma Wrap24(a: int, c: int)
    ensures (JavaRem(a, 24) + c + 24) % 24 == (a + c) % 24
  {
    var t := JavaRemQuotient(a, 24);
    ModShift24(JavaRem(a, 24) + c + 24, t - 1);
  }

  lemma Wrap1440(a: int, c: int)
    ensures (JavaRem(a, 1440) + c + 1440) % 1440 == (a + c) % 1440
  {
    var t := JavaRemQuotient(a, 1440);
    ModShift1440(JavaRem(a, 1440) + c + 1440, t - 1);
  }

  lemma Wrap86400(a: int, c: int)
    ensures (JavaRem(a, 86400) + c + 86400) % 86400 == (a + c) % 86400
  {
    var t := JavaRemQuotient(a, 86400);
    ModShift86400(JavaRem(a, 86400) + c + 86400, t - 1);
  }

  /** LocalTime.plusHours: ((hours % 24) + hour + 24) % 24 with Java's truncating %. */
  function PlusHours(t: Time, hours: int): (r: Time)
    requires ValidTime(t)
    ensures ValidTime(r)
  {
    t.(hour := (JavaRem(hours, 24) + t.hour + 24) % 24)
  }

  /** LocalTime.plusMinutes, computed on the minute of the day. */
  function PlusMinutes(t: Time, minutes: int): (r: Time)
    requires ValidTime(t)
    ensures ValidTime(r)
  {
    var mofd := t.hour * 60 + t.minute;
    var newMofd := (JavaRem(minutes, 1440) + mofd + 1440) % 1440;
    t.(hour := newMofd / 60, minute := newMofd % 60)
  }

  /** LocalTime.plusSeconds, computed on the second of the day. */
  function PlusSeconds(t: Time, seconds: int): (r: Time)
    requires ValidTime(t)
    ensures ValidTime(r)
  {
    var sofd := SecondOfDay(t);
    var newSofd := (JavaRem(seconds, SecondsPerDay) + sofd + SecondsPerDay) % SecondsPerDay;
    t.(hour := newSofd / 3600, minute := (newSofd / 60) % 60, second := newSofd % 60)
  }

  datatype TimeUnit = Seconds | Minutes | Hours

  function UnitSeconds(u: TimeUnit): int {
    match u
    case Seconds => 1
    case Minutes => 60
    case Hours => 3600
  }

  /** LocalTime.plus(amount, unit) for the three units the library uses on times. */
  function PlusTime(t: Time, amount: int, u: TimeUnit): (r: Time)
    requires ValidTime(t)
    ensures ValidTime(r)
  {
    match u
    case Seconds => PlusSeconds(t, amount)
    case Minutes => PlusMinutes(t, amount)
    case Hours => PlusHours(t, amount)
  }

  lemma HourWrap(x: int, rest: int)
    requires 0 <= rest < 3600
    ensures (x * 3600 + rest) % 86400 == (x % 24) * 3600 + rest
  {
    assert x * 3600 + rest == 86400 * (x / 24) + ((x % 24) * 3600 + rest);
  }

  lemma MinuteWrap(x: int, s: int)
    requires 0 <= s < 60
    ensures (x * 60 + s) % 86400 == (x % 1440) * 60 + s
  {
    assert x * 60 + s == 86400 * (x / 1440) + ((x % 1440) * 60 + s);
  }

  lemma PlusSecondsWraps(t: Time, amount: int)
    requires ValidTime(t)
    ensures SecondOfDay(PlusSeconds(t, amount)) == (SecondOfDay(t) + amount) % SecondsPerDay
  {
    var sofd := SecondOfDay(t);
    Wrap86400(amount, sofd);
    var n := (sofd + amount) % SecondsPerDay;
    assert PlusSeconds(t, amount) == t.(hour := n / 3600, minute := (n / 60) % 60, second := n % 60);
    assert n == (n / 3600) * 3600 + ((n / 60) % 60) * 60 + n % 60;
  }

  lemma PlusMinutesWraps(t: Time, amount: int)
    requires ValidTime(t)
    ensures SecondOfDay(PlusMinutes(t, amount)) == (SecondOfDay(t) + amount * 60) % SecondsPerDay
  {
    var mofd := t.hour * 60 + t.minute;
    Wrap1440(amount, mofd);
    var n := (mofd + amount) % 1440;
    assert PlusMinutes(t, amount) == t.(hour := n / 60, minute := n % 60);
    assert n == (n / 60) * 60 + n % 60;
    assert SecondOfDay(t) + amount * 60 == (mofd + amount) * 60 + t.second;
    MinuteWrap(mofd + amount, t.second);
  }

  lemma PlusHoursWraps(t: Time, amount: int)
    requires ValidTime(t)
    ensures SecondOfDay(PlusHours(t, amount)) == (SecondOfDay(t) + amount * 3600) % SecondsPerDay
  {
    Wrap24(amount, t.hour);
    assert SecondOfDay(t) + amount * 3600 == (t.hour + amount) * 3600 + (t.minute * 60 + t.second);
    HourWrap(t.hour + amount, t.minute * 60 + t.second);
  }

  /** Adding a whole number of units moves the second of the day around the clock and
      keeps the nanosecond: the result is the source shifted modulo one day. */
  lemma PlusTimeWraps(t: Time, amount: int, u: TimeUnit)
    requires ValidTime(t)
    ensures PlusTime(t, amount, u).nano == t.nano
    ensures SecondOfDay(PlusTime(t, amount, u)) == (SecondOfDay(t) + amount * UnitSeconds(u)) % SecondsPerDay
  {
    match u
    case Seconds => PlusSecondsWraps(t, amount);
    case Minutes => PlusMinutesWraps(t, amount);
    case Hours => PlusHoursWraps(t, amount);
  }

  // ----- date-time -----

  datatype DateTime = DateTime(date: Date, time: Time)

  predicate ValidDateTime(dt: DateTime) {
    Valid(dt.date) && ValidTime(dt.time)
  }

  /** The key that orders date-times: days times the length of a day, plus the time. */
  function DateTimeKey(dt: DateTime): int
    requires ValidDateTime(dt)
  {
    DayNumber(dt.date) * NanosPerDay + NanoOfDay(dt.time)
  }

  /** LocalDateTime.isBefore: the date first, then the time. */
  predicate DateTimeBefore(a: DateTime, b: DateTime) {
    Before(a.date, b.date) || (a.date == b.date && TimeBefore(a.time, b.time))
  }

  lemma DateTimeKeyOrder(a: DateTime, b: DateTime)
    requires ValidDateTime(a) && ValidDateTime(b)
    ensures DateTimeBefore(a, b) <==> DateTimeKey(a) < DateTimeKey(b)
    ensures DateTimeKey(a) == DateTimeKey(b) <==> a == b
  {
    DayNumberOrder(a.date, b.date);
    DayNumberOrder(b.date, a.date);
    NanoOfDayOrder(a.time, b.time);
    var da, db := DayNumber(a.date), DayNumber(b.date);
    if da < db {
      assert da * NanosPerDay + NanosPerDay <= db * NanosPerDay;
    } else if db < da {
      assert db * NanosPerDay + NanosPerDay <= da * NanosPerDay;
    } else {
      DayNumberInjective(a.date, b.date);
    }
  }

  /** LocalDate.atStartOfDay. */
  function AtStartOfDay(d: Date): DateTime {
    DateTime(d, Midnight)
  }
}

# DateTimeUtil in Dafny

`DateTimeUtil` is a static Java utility over `java.time`. It accepts dates, times and
date-times as plain `Object` arguments: a `String`, an `Integer`, a `LocalDate`, a
`LocalTime`, a `LocalDateTime` and several legacy types. It reads each one through a
cascade of preset formats. On top of that reading it offers:

- a six-way comparison whose codes also encode which side failed to parse;
- sequence tests under four "forbidden outcome" policies;
- min/max folds;
- calendar anchors (a weekday in the source's week, a day of its month, the first or last day of a year that starts in a given month, and the next or previous such date);
- truncation of a time of day to its minute or hour;
- the Japanese era notation ("令和6年7月1日") and Japanese weekday names.

This project models that core in Dafny and proves what it promises:

| module | file | what it models |
|---|---|---|
| `Wrappers` | wrappers.dfy | `Option` (Java's null) and `Result`, where `Raise` is the `DateTimeParseException` thrown for an unsupported argument |
| `Numerals` | numerals.dfy | Java `int` (`Int32`), 32-bit wrap-around, `Integer.toString`, `Integer.parseInt` |
| `Blank` | blank.dfy | `EmbeddedStringUtil`: `FHLTrim`, `FHRTrim`, `FHTrim` and `isNullOrBlank` as loops over indices |
| `Calendar` | calendar.dfy | the proleptic Gregorian calendar of `LocalDate`: month lengths, a day number, the day of week (Monday = 1), plus days/weeks/months/years with the day clamped |
| `Clock` | clock.dfy | `LocalTime`/`LocalDateTime`, the nanosecond-of-day key, `plus` by seconds, minutes or hours around the clock |
| `Patterns` | patterns.dfy | the preset formats as token sequences, the SMART resolution of their fields, the completion suffixes, and the first-success cascade (a loop with `break`) |
| `Era` | era.dfy | the era table, `parseDate_jp`, the era loop of `formatDate_jp` |
| `Parsing` | dispatch.dfy | `parseDate`, `parseTime`, `parse` and `mergeDateTime` over an argument datatype with one case per supported kind and an `Other` case for the rest; the zero-padding loop for an `Integer` time |
| `Comparison` | compare.dfy | `compare`, `compareDate`, `compareTime` |
| `Sequence` | sequence.dfy | `areInSequenceCore` (the loop carrying the previous valid comparand) and its twelve public variants |
| `Folds` | folds.dfy | `maxDate`/`minDate`, `maxTime`/`minTime`, `max`/`min` |
| `Anchors` | anchors.dfy | `parseDayOfWeek`, `atDateInWeek*`, `atDateOfWeekCore`, `atDateInMonth`, `atDateOfMonthCore`, `atFirstDateOfYear`, `atLastDateOfYear`, `atMonthOfYearCore` |
| `DateOps` | dateops.dfy | `plusToDateCore` (behind `plusDays/Weeks/Months/YearsToDate`), `areInSameMonth`, `areInSameYear` |
| `TimeOps` | timeops.dfy | `atStartOfMinute`, `atStartOfHour`, `atHalfOfHour`, `plusToTimeCore` |
| `JapaneseText` | jpformat.dfy | `formatDate_jp` and `formatDayOfWeek_jp` on arguments |

Every entry point takes an argument of type `Parsing.Input` and returns a
`Result<Option<…>, Input>`:

- `Raise(x)` is the exception, naming the argument that caused it.
- `Ok(None)` is Java's `null`.

The current date, which the library reads from the system clock, is the parameter `today`.

## Model

| member | source | states |
|---|---|---|
| Blank.FHLTrim | DateTimeUtil.java:2872-2888 | the result is a suffix of the input, everything removed is blank, and the result is empty or starts with a non-blank character |
| Blank.FHRTrim | DateTimeUtil.java:2889-2905 | an all-blank input comes back unchanged, because `pos` stays 0; otherwise the result is a non-empty prefix, only blanks were removed, and it ends in a non-blank character |
| Blank.FHTrim | DateTimeUtil.java:2869-2871 | the result is empty exactly when the input is blank; otherwise it is the slice between two blank margins, with non-blank characters at both ends |
| Blank.IsNullOrBlank | DateTimeUtil.java:2907-2909 | true exactly when the string is null or every character is a space, U+3000 or a tab |
| Numerals.Wrap32 | DateTimeUtil.java:150 | Java `int` addition: the result is in the 32-bit range, differs from the exact sum by a multiple of 2^32, and equals it whenever the sum is in range |
| Numerals.ParseIntToString | DateTimeUtil.java:150 | `Integer.parseInt` reads back every `int` written by `Integer.toString` |
| Patterns.FirstSuccess | DateTimeUtil.java:60-65 | the value comes from the first preset whose attempt succeeds, and every earlier preset failed; the value is absent exactly when every attempt fails |
| Patterns.Cascade | DateTimeUtil.java:60-65 | the loop that breaks at the first success returns that first success |
| Patterns.FirstSuccessOrderFree | DateTimeUtil.java:2790-2825 | any other order of the same preset table gives the same result whenever all succeeding presets agree, so then the order of the HashMap cannot matter |
| Patterns.AmbiguousSixDigits | DateTimeUtil.java:2711-2717 | "020721" reads as 2002-07-21 under yyMMdd and as 2021-02-07 under MMddyy, so in general the table order does matter |
| Patterns.ParseDateFormat | DateTimeUtil.java:110-119 | blank text gives null; any date read is valid |
| Patterns.ParseTimeFormat | DateTimeUtil.java:1204-1213 | blank text gives null; any time read is valid |
| Patterns.BasicColonReadsBack | DateTimeUtil.java:2726 | HH:mm:ss reads back any time without a fraction of a second, written with two-digit fields |
| Patterns.ShortMdCharReadsBack | DateTimeUtil.java:2709 | yyyy年M月d日 reads back any date with a four-digit year written with an unpadded month and day |
| Parsing.ParseDateText | DateTimeUtil.java:57-69 | blank text is null; otherwise the date comes from some date preset or from `parseDate_jp`, and it is null only when every preset and the era form fail |
| Parsing.ParseTimeText | DateTimeUtil.java:1155-1163 | blank text is null; otherwise the time comes from some time preset, and it is null only when every preset fails |
| Parsing.ParseText | DateTimeUtil.java:1848-1869 | the order for a String: the first date-time preset that reads the text gives the result, then the date at the start of its day, then the time on `today`; the result is null exactly when all three fail, and blank text is null |
| Parsing.PadToSix | DateTimeUtil.java:1172-1176 | the loop prepends '0' until the text has six characters: the result is the text left-padded with zeros to width six, and unchanged if it is already longer |
| Parsing.ParseDate | DateTimeUtil.java:53-88 | raises exactly for an unsupported kind, naming the argument; null gives null, a `LocalDate` itself, a `LocalDateTime` its date, text the preset cascade and an `Integer` the cascade on its decimal text; any date returned is valid |
| Parsing.ParseTime | DateTimeUtil.java:1150-1182 | raises exactly for an unsupported kind (a `LocalDate` is one), naming the argument; null gives null, a `LocalTime` itself, a `LocalDateTime` its time, text the preset cascade and an `Integer` the cascade on its decimal text padded with zeros to six characters; any time returned is valid |
| Parsing.Parse | DateTimeUtil.java:1844-1898 | raises exactly for an unsupported kind; null gives null, text the date-time cascade, a `LocalDateTime` itself, a `LocalDate` the start of its day, a `LocalTime` that time today; an `Integer` is read as a date at the start of its day before it is tried as a time today, and is null only when it is neither |
| Parsing.MergeDateTime | DateTimeUtil.java:1940-1953 | null exactly when neither half parses; otherwise the parsed date (or `today`) at the parsed time (or midnight); raises when either argument is unsupported, naming the date argument when it is unsupported and the time argument otherwise |
| Parsing.BlankTextIsAbsent | DateTimeUtil.java:57-59 | blank text is null for `parseDate`, `parseTime` and `parse` alike, before any preset is tried |
| Parsing.IntDateIsText | DateTimeUtil.java:82-83 | an `Integer` is read as a date exactly as its decimal text is |
| Calendar.PlusMonths | DateTimeUtil.java:381 | `plusMonths` moves the month count by n and clamps the day to the new month's length |
| Calendar.PlusYears | DateTimeUtil.java:542 | `plusYears` keeps the month, moves the year and clamps the day (29 February becomes 28 February) |
| Calendar.PlusDays | DateTimeUtil.java:418 | `plusDays` gives the valid date whose day number is n more |
| Calendar.DayNumberRoundTrip | DateTimeUtil.java:418 | converting a valid date to its day number and back gives the same date |
| Calendar.DayNumberOrder | DateTimeUtil.java:2358-2366 | the day number orders dates exactly as `isBefore` does |
| Calendar.DayOfWeekShift | DateTimeUtil.java:329-333 | n days later the weekday has moved by n modulo 7 |
| Calendar.WithDayOfWeek | DateTimeUtil.java:295 | `LocalDate.with(dayOfWeek)` gives the date with that weekday in the same Monday-to-Sunday week |
| Clock.PlusTimeWraps | DateTimeUtil.java:1374 | `LocalTime.plus` keeps the nanosecond and moves the second of the day by the span modulo one day |
| Clock.NanoOfDayOrder | DateTimeUtil.java:1623-1625 | the nanosecond of the day orders times exactly as `LocalTime` does, and equal keys mean equal times |
| Clock.DateTimeKeyOrder | DateTimeUtil.java:2358-2366 | the date-time key orders date-times exactly as `isBefore` does, and equal keys mean equal date-times |
| Era.EraTableUnique | DateTimeUtil.java:2830-2834 | no two eras share a name or a year |
| Era.EraTableCovers | DateTimeUtil.java:2830-2834 | every year from 1868 to 9999 lies in some era |
| Era.EraContainingIs | DateTimeUtil.java:1098-1104 | an era whose span holds the year is the one found for that year |
| Era.ParseDateJp | DateTimeUtil.java:129-156 | null for blank text, for text of length 2 or less, for an unknown era name, for a text without 年 and for an era year that `Integer.parseInt` rejects; any date returned is valid |
| Era.EraYearNumeral | DateTimeUtil.java:1101 | the era year is written 元 exactly when it is 1, and never contains 年 |
| Era.EraYearReadsBack | DateTimeUtil.java:150 | the era year as `formatDate_jp` writes it, 元 or the number, reads back in `parseDate_jp` as that year |
| Era.FormatEraDate | DateTimeUtil.java:1096-1105 | the loop over the era map, taken in any order of the table, gives the era text of the date |
| Era.ParseEraText | DateTimeUtil.java:145-155 | reading "<era><n>年<M>月<d>日" gives year begin + n - 1, whether or not that year is past the era's end |
| Era.JpRoundTrip | DateTimeUtil.java:1090-1106 | `parseDate_jp(formatDate_jp(d)) == d` for every date in the years 1868 to 9999 |
| Era.JpTextFallback | DateTimeUtil.java:1095-1097 | outside the eras' years the text is "<year>年<M>月<d>日", with no era name |
| JapaneseText.FormatDateJp | DateTimeUtil.java:1090-1106 | raises for an unsupported kind; null exactly when the argument is null as a date; otherwise the era text of the parsed date |
| JapaneseText.ListedDay | DateTimeUtil.java:2836-2842 | a listed argument maps to one of the seven names |
| JapaneseText.FormatDayOfWeekJp | DateTimeUtil.java:1115-1131 | a listed Integer, String or `DayOfWeek` gets its table name; anything else gets the name of its parsed date's weekday, or null |
| JapaneseText.DayNamesDistinct | DateTimeUtil.java:2836-2842 | two `DayOfWeek` values get the same name exactly when they are equal |
| JapaneseText.IntegerDayAsParsed | DateTimeUtil.java:2836 | an Integer from 0 to 7 is named as `parseDayOfWeek` reads it: 0 and 7 are Sunday |
| JapaneseText.DateNamedByWeekday | DateTimeUtil.java:1122-1129 | a date is named by its own weekday |
| Comparison.Compare | DateTimeUtil.java:2347-2368 | raises for an unsupported argument, naming the first one; otherwise 22, -2 or 2 by which side is null, and else the order of the two date-time keys |
| Comparison.CompareValuesByKeys | DateTimeUtil.java:2349-2367 | the chain of `isEqual`, `isAfter` and `isBefore` is the order of the keys, so the final `return 0` is reached only on equal values |
| Comparison.CompareKeysFlip | DateTimeUtil.java:2349-2366 | swapping the sides negates the code, except for the symmetric 22 |
| Comparison.CompareKeysTransitive | DateTimeUtil.java:2358-2366 | -1 or 0 followed by -1 or 0 gives -1 or 0, and 0 only when both are 0 |
| Comparison.CompareAntisymmetric | DateTimeUtil.java:2347-2368 | `compare(a, b) == -compare(b, a)` unless both are 22 |
| Comparison.CompareReflexive | DateTimeUtil.java:2347-2368 | `compare(x, x)` is 0 for any x that parses, and 22 otherwise |
| Comparison.CompareAbsence | DateTimeUtil.java:2349-2357 | 22, -2 and 2 occur exactly when both, only the first or only the second side is null |
| Comparison.CompareChronological | DateTimeUtil.java:2358-2366 | on two parsed values, 1, -1 and 0 occur exactly when the first is after, before or equal to the second |
| Comparison.CompareDate | DateTimeUtil.java:921-923 | raises for an unsupported argument; otherwise the order of the parsed dates' day numbers, absent dates first |
| Comparison.CompareDateIsCompare | DateTimeUtil.java:921-923 | `compareDate` is `compare` of the two parsed dates, each taken at the start of its day |
| Comparison.CompareTime | DateTimeUtil.java:1623-1625 | raises for an unsupported argument; otherwise the order of the parsed times' nanosecond keys |
| Comparison.CompareTimesOfDay | DateTimeUtil.java:1623-1625 | `compare` of two times orders them by time of day, since both are put on the same date |
| Comparison.CompareBy | DateTimeUtil.java:2313-2315 | each comparator behind the sequence tests orders its arguments by their keys |
| Sequence.AreInSequenceCore | DateTimeUtil.java:2317-2328 | lists of length 0 or 1 are true; when every comparison succeeds, the loop's verdict is the verdict on the keys, each compared with the last key present before it; otherwise the result is false or the exception of an argument without a key |
| Sequence.AreInSequence | DateTimeUtil.java:2313-2315 | each of the twelve variants (policy × kind) gives the verdict on the arguments' keys under its forbidden codes |
| Sequence.InSequencePrefix | DateTimeUtil.java:2320-2326 | every prefix of a list in sequence is in sequence |
| Sequence.LastSomeIsLastPresent | DateTimeUtil.java:2325 | the carried comparand is the last argument that parsed |
| Sequence.LenientVerdict | DateTimeUtil.java:2783-2784 | under {1} the list is in sequence exactly when its parsed values are non-decreasing, and under {1, 0} exactly when they are strictly increasing |
| Sequence.NullRejectingVerdict | DateTimeUtil.java:2785-2786 | under the two NULL policies a list of length 2 or more is in sequence exactly when every element parses and the values are ordered (strictly under {1, 0, 2, -2, 22}) |
| Folds.Extreme | DateTimeUtil.java:764-774 | the fold replacing on 1 (or -1) and on 2 raises at the first unsupported argument; otherwise it returns null exactly when nothing parses, and else the earliest parsed value that no other value exceeds (or undercuts) |
| Folds.DatesFit | DateTimeUtil.java:921-923 | `compareDate` on two parsed dates orders them by day number |
| Folds.TimesFit | DateTimeUtil.java:1623-1625 | `compareTime` on two parsed times orders them by nanosecond of the day |
| Folds.DateTimesFit | DateTimeUtil.java:2347-2368 | `compare` on two parsed date-times orders them by their keys |
| Folds.FoldDates | DateTimeUtil.java:764-793 | `maxDate`/`minDate`: null iff no argument parses; otherwise the earliest latest (or earliest) date among the parsed arguments |
| Folds.FoldTimes | DateTimeUtil.java:1460-1489 | `maxTime`/`minTime`: the same over parsed times |
| Folds.FoldDateTimes | DateTimeUtil.java:2214-2243 | `max`/`min`: the same over parsed date-times |
| Anchors.ParseDayOfWeek | DateTimeUtil.java:337-341 | 1 to 6 are Monday to Saturday; anything at most 0 or at least 7 is Sunday |
| Anchors.WeekdayInWeekUnique | DateTimeUtil.java:289-295 | a week, Monday-first or Sunday-first, holds exactly one date of each weekday |
| Anchors.AtDateInWeek | DateTimeUtil.java:289-295 | the date with the given weekday in the parsed date's Monday-to-Sunday week; null iff the argument is null as a date |
| Anchors.InSundayWeek | DateTimeUtil.java:325-335 | the adjusted date has the given weekday and lies in the source's Sunday-to-Saturday week |
| Anchors.SundayAdjustment | DateTimeUtil.java:329-334 | the whole-week adjustment for a Sunday source and a Sunday target keeps the weekday and moves into the Sunday-first week |
| Anchors.AtDateInWeekSundayFirst | DateTimeUtil.java:325-335 | the date with the given weekday in the parsed date's Sunday-to-Saturday week |
| Anchors.WeekStepDate | DateTimeUtil.java:252-261 | with offset 1 the result is the given weekday 1 to 7 days after the date, with offset -1 it is 1 to 7 days before; a same-day match moves a full week |
| Anchors.WeekStep | DateTimeUtil.java:257-259 | moving the in-week date one week, unless the comparison already shows it on the right side, lands 1 to 7 days away in the offset's direction |
| Anchors.AtDateOfWeekCore | DateTimeUtil.java:252-261 | `atNextDateOfWeek`/`atPreviousDateOfWeek`: null iff the argument is null as a date, otherwise the step of the parsed date |
| Anchors.CompareWithAnchor | DateTimeUtil.java:257 | `compareDate(source, anchor)` orders the parsed source against the anchor's day number |
| Anchors.InMonth | DateTimeUtil.java:416-418 | the date in the same year and month whose day is the target clamped to [1, lengthOfMonth] |
| Anchors.InMonthFromFirst | DateTimeUtil.java:417-418 | that date is the first of the month plus the clamped day minus one |
| Anchors.AtDateInMonth | DateTimeUtil.java:399-419 | a text completed by the first preset that reads it gives the month; failing that, the parsed argument does; the result is the clamped day in that month |
| Anchors.NonTextMonthAnchor | DateTimeUtil.java:412-418 | for an argument that is not text the month is the parsed date's own |
| Anchors.MonthStep | DateTimeUtil.java:380-382 | with offset 1 the result is strictly after the date, with offset -1 strictly before, in the same or the adjacent month, with the target day clamped to that month; it stays in the date's month exactly when that month's target day lies strictly ahead in the direction of travel, so it is the nearest such date |
| Anchors.AtDateOfMonthCore | DateTimeUtil.java:375-384 | null iff the month anchor is null; otherwise the anchor, or the anchor moved one month and re-clamped |
| Anchors.ParsedMonthStep | DateTimeUtil.java:375-384 | when the anchor lies in the parsed source's month, `atNextDateOfMonth`/`atPreviousDateOfMonth` give the month step of the source |
| Anchors.PartialTextMonthShifts | DateTimeUtil.java:380-382 | a year-month text such as "2002-07" does not parse in `compareDate`, so the code is -2 and the one-month shift is always applied |
| Anchors.FirstOfYear | DateTimeUtil.java:540-542 | day 1 of month clamp(m, 1, 12) such that first ≤ d < first plus one year |
| Anchors.FirstOfYearUnique | DateTimeUtil.java:540-542 | that first date is the only one with those properties |
| Anchors.AtFirstDateOfYear | DateTimeUtil.java:522-543 | a text is completed with "1231" as yyyyMMdd, then as `atDateInMonth` completes it; failing both, the parsed argument gives the year; the result is the first date of the year holding that date; a non-blank text neither completion reads gives null |
| Anchors.NonTextYearAnchor | DateTimeUtil.java:536-542 | for an argument that is not text the year anchor is the first date of the parsed date's year |
| Anchors.YearEnd | DateTimeUtil.java:594 | the last day of the year is a month's last day, the day before the first date plus one year |
| Anchors.YearEndIsDayBefore | DateTimeUtil.java:594 | that day is `first.plusYears(1).minusDays(1)` |
| Anchors.YearBrackets | DateTimeUtil.java:522-595 | every date lies between the first and the last date of its year |
| Anchors.AtLastDateOfYear | DateTimeUtil.java:589-595 | null iff the first date is; otherwise the first date plus one year minus one day, which is the last day of a month |
| Anchors.AtMonthOfYearCore | DateTimeUtil.java:483-492 | null iff the year anchor is; otherwise the anchor or the anchor moved one year |
| Anchors.MonthOfYearStep | DateTimeUtil.java:483-492 | on a parsed source, `atNextMonthOfYear`/`atPreviousMonthOfYear` give day 1 of the target month strictly after/before the source and within a year of it |
| Anchors.PartialTextYearShifts | DateTimeUtil.java:488-490 | a year-only or year-month text does not parse in `compareDate`, so the one-year shift is always applied |
| DateOps.PlusToDateCore | DateTimeUtil.java:661-667 | null iff the argument is null as a date; otherwise the parsed date moved by the span (0 when null) in days, weeks, months or years, with the day clamped for months and years |
| DateOps.MovedByUnique | DateTimeUtil.java:666 | a date moved by an amount of a unit is unique |
| DateOps.AbsentSpanKeepsDate | DateTimeUtil.java:666 | a null span leaves the parsed date unchanged |
| DateOps.PlusDaysUndone | DateTimeUtil.java:621-635 | adding days or weeks and then their negation gives the parsed date back |
| DateOps.PlusMonthsNotUndone | DateTimeUtil.java:645-647 | month steps cannot always be undone: 2001-01-31 plus one month minus one month is 2001-01-28 |
| DateOps.AreInSameMonth | DateTimeUtil.java:815-824 | false unless both arguments parse and share year and month; the first argument is parsed first |
| DateOps.AreInSameYear | DateTimeUtil.java:832-838 | false unless both arguments parse and share the year |
| DateOps.SameMonthSymmetricAndWithinYear | DateTimeUtil.java:815-838 | sharing a month is symmetric, and dates sharing a month share the year |
| DateOps.InMonthAnchorSameMonth | DateTimeUtil.java:399-419 | the `atDateInMonth` date of a non-text argument lies in that argument's month |
| TimeOps.StartOfMinuteIsStart | DateTimeUtil.java:1278 | `withSecond(0).withNano(0)` is the one minute-aligned time at or before t and within a minute of it |
| TimeOps.StartOfHourIsStart | DateTimeUtil.java:1311 | `withMinute(0).withSecond(0).withNano(0)` is the one hour-aligned time at or before t and within an hour of it |
| TimeOps.AtStartOfMinute | DateTimeUtil.java:1261-1279 | text completed by the first time preset that reads it, else the parsed argument, truncated to the minute |
| TimeOps.AtStartOfHour | DateTimeUtil.java:1292-1312 | blank text is null; text is completed with "0000" as HHmmss, then read as `atStartOfMinute` reads it; any other argument is parsed; the result is always on the hour |
| TimeOps.StartOfHourOfMinute | DateTimeUtil.java:1299-1302 | truncating to the hour after truncating to the minute is truncating to the hour |
| TimeOps.AtHalfOfHour | DateTimeUtil.java:1325-1331 | null iff `atStartOfHour` is; otherwise half past that hour |
| TimeOps.PlusToTimeCore | DateTimeUtil.java:1369-1375 | null iff the argument is null as a time; otherwise the parsed time moved by the span (0 when null) around the clock, modulo one day |
| TimeOps.MovedAroundUnique | DateTimeUtil.java:1374 | a time moved around the clock by an amount is unique |
| TimeOps.PlusTimeUndone | DateTimeUtil.java:1341-1367 | adding seconds, minutes or hours and then their negation gives the time back |
| TimeOps.AbsentSpanKeepsTime | DateTimeUtil.java:1374 | a null span leaves the parsed time unchanged |

## Left out

- The `java.time` pattern engine is modelled only for the preset patterns.
  - Each pattern is a sequence of fixed-width digit fields, whole-run `M`/`d` fields and literals, with the SMART resolver's range checks and day-of-month clamping.
  - Not modelled: signed or over-long years, hour 24, the `parse*(String, String)` overloads with caller-supplied patterns, and `formatDate` with an arbitrary pattern.
- Patterns.ParseDateFormat: stated only as "blank text is null and any result is valid". What a preset reads is stated for the Japanese pattern only (`ShortMdCharReadsBack`, `AmbiguousSixDigits`).
- Patterns.ParseTimeFormat: stated only as "blank text is null and any result is valid". What a preset reads is stated for HH:mm:ss only (`BasicColonReadsBack`).
- The preset tables are `HashMap`s whose iteration order is unspecified. They are modelled as a fixed sequence in declaration order. `FirstSuccessOrderFree` states when the order cannot matter and `AmbiguousSixDigits` shows an input where it does. `FormatEraDate` is proved for every order of the era table.
- `Timestamp`, `java.util.Date`, `Calendar` and `Long` arguments are left out. Converting them depends on the system time zone. Any other kind of object is the `Other` case, which raises.
- `LocalDate.now()` and `LocalTime.now()` are the parameter `today`.
- Duration and unit-span arithmetic (`DateTimeUtil.java:677-683`, `:733-755`, `:1385-1451`, `:2091-2205`) is not part of this model.
- Also not part of this model: the comparator builders, the `now*` and `format*` one-liners, `isDate`/`isTime`/`isDateTime` (modelled as "the argument parses"), and `areInSameSecond`/`areInSameMinute`/`areInSameHour`.
- Overloads are modelled once:
  - The `int` overloads of the weekday anchors are the `DayOfWeek` versions after `ParseDayOfWeek`.
  - The `Month` overloads are the `int` versions.
  - `atNext*`/`atPrevious*` are the `*Core` functions with offset 1 and -1.
  - The twelve `areInSequence*` methods are `AreInSequence` with a policy and a kind.
  - The six max/min methods are three fold methods with the replacing outcome as a parameter.
  - `plus{Days,Weeks,Months,Years}ToDate` and `plus{Seconds,Minutes,Hours}ToTime` are the two core functions with a unit.
- Years are unbounded integers. `LocalDate`'s year range and the exception past it are not modelled. The one Java `int` overflow the core can reach, the era year sum in `parseDate_jp`, is modelled with `Wrap32`.
- `Integer.parseInt` is modelled for ASCII digits with an optional sign. Java also accepts other Unicode decimal digits.
- Strings are sequences of Unicode scalar values rather than UTF-16 units. Every character the core compares is in the Basic Multilingual Plane.
- Sequence.AreInSequenceCore: when an argument is of an unsupported kind, the contract says only that the result is false or an exception naming some unsupported argument, not which one.
- Sequence.AreInSequence: the same as `AreInSequenceCore` for unsupported arguments.
- Anchors.AtDateOfMonthCore: says only that the result is the anchor or the anchor moved one month. Which one is stated by `ParsedMonthStep` (the anchor in the source's own month) and `PartialTextMonthShifts` (a year-month text). A text that parses as a date but whose completion picks another month is covered only by the general statement.
- Anchors.AtMonthOfYearCore: says only that the result is the anchor or the anchor moved one year. Which one is stated by `MonthOfYearStep` and `PartialTextYearShifts`.
- JapaneseText.ListedDay: a listed argument is an `Integer`, a one-character `String` or a `DayOfWeek`. `List.contains` on a `Long` or a `Short` never matches, and those kinds are not modelled.
- Two documentation examples contradict the code, and the model follows the code:
  - `DateTimeUtil.java:427` and `:442` show 2001-07-01 where the code gives 2002-07-01.
  - `:582` and `:602` show 2001-12-31 where the code, like the example at `:566`, gives 2002-12-31.

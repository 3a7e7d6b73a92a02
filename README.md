# chronos, modelled in Dafny

A model of the Go library `chronos` and its internal packages. The library
works on `time.Time` values in several ways:

- it finds the first and last instants of the hour, day, week, month,
  quarter and year that contain a time;
- it steps a day forward and back;
- it picks the latest or earliest of several times;
- it measures and prints the difference between two times;
- it adds years, months and days, with an option that keeps month-end
  dates inside the target month;
- it reads a time from a `time.Time`, a pointer, an integer Unix
  timestamp, a layout-formatted string or an English phrase such as
  "2 hours ago".

Modules, one per source file or concern:

| module | models |
|---|---|
| `GoInt` | `int64` wrap-around and saturation, Go's truncating `/` and `%` |
| `GoTime` | the part of Go's `time` package the library relies on: instants in fixed zones, `time.Date` normalisation, civil fields, `Add`, `AddDate`, `Sub`, `In`, `Unix` |
| `Types` | `MixedTime` (a value or a possibly nil pointer), the input kinds of `Parse`, the error values |
| `Decimal`, `Text` | `strconv.Itoa`/`Atoi`; `strings.ToLower`, the `(?i)` case folding of Go's `regexp` and the whitespace runs the expression pattern accepts |
| `Comparer` | `comparer.go` |
| `Boundary` | `boundary.go` |
| `Skewing` | `skewing.go` |
| `Difference` | `diff_value.go` |
| `Helper` | `internal/helper/helper.go` |
| `Calculator` | `internal/calculator` |
| `FromUnix`, `FromString`, `NaturalLanguage` | `internal/parse`; `NaturalLanguageExamples` holds worked phrases |
| `Parser` | `parser.go` |

An instant is a count of nanoseconds since the Unix epoch together with a
fixed zone offset. The wall clock is the count shifted by the offset;
civil dates are computed from it the way Go does, with 400-, 100- and
4-year cycles. Both round trips between day counts and civil dates are
proved. The code that loops or updates records in place is modelled in
that form:

- `Comparer.Max` and `Comparer.Min` are loops;
- `Calculator.AddDate` keeps its two month-normalising loops;
- `FromString.TryFormats` is the loop over the candidate layouts;
- `Parser.ParseOption` is a class whose methods append to its option lists.

Each of these is proved against a specification function. The properties
are proved about those functions.

The string parser tries 25 built-in layouts after the user's own.
`ParseWithLocation(nil)` is passed on to both parsers, and in each of them
it resets a zone given earlier.

## Model

| member | source | states |
|---|---|---|
| Comparer.NilIsZero | comparer.go:6-16 | a nil pointer reads as the zero time, the same as the zero value |
| Comparer.Max | comparer.go:19-28 | the result is one of the arguments, no argument is after it, and it is the first argument that is as late as any other (an equal later argument does not replace it) |
| Comparer.Min | comparer.go:31-40 | the result is one of the arguments, no argument is before it, and it is the first of the earliest ones |
| Comparer.Diff | comparer.go:43-52 | zero when either side is the zero time or a nil pointer; otherwise positive exactly when the first is after the second and negative exactly when it is before |
| Comparer.DiffExact | comparer.go:43-52 | for two non-zero times the difference is the exact nanosecond gap when that fits in 64 bits |
| Comparer.DiffClamps | comparer.go:43-52 | a gap beyond the 64-bit range saturates at the largest or smallest duration |
| Comparer.DiffAntisymmetric | comparer.go:43-52 | swapping the arguments negates the difference |
| Comparer.DiffIgnoresZones | comparer.go:43-52 | showing either time in another zone does not change the difference |
| Comparer.DiffAdd | comparer.go:43-52 | the difference between `t.Add(d)` and `t` is `d` |
| Comparer.DiffZeroString | comparer.go:43-52 | a difference against a nil time prints as the empty string |
| Boundary.DayEnd | boundary.go:8-10 | the clock 23:59:59.999999999 is valid and is the last nanosecond of the day |
| Boundary.StartOfHour | boundary.go:13-17 | in the input's zone; `Boundary.StartOfHourSpec` states which instant it is |
| Boundary.EndOfHour | boundary.go:20-25 | in the input's zone; `Boundary.EndOfHourSpec` states which instant it is |
| Boundary.StartOfDay | boundary.go:28-32 | in the input's zone; `Boundary.StartOfDaySpec` states which instant it is |
| Boundary.EndOfDay | boundary.go:35-40 | in the input's zone; `Boundary.EndOfDaySpec` states which instant it is |
| Boundary.StartOfWeek | boundary.go:44-79 | in the input's zone; `Boundary.StartOfWeekSpec` states which instant it is |
| Boundary.EndOfWeek | boundary.go:70-110 | in the input's zone; `Boundary.EndOfWeekSpec` states which instant it is |
| Boundary.StartOfMonth | boundary.go:113-117 | in the input's zone; `Boundary.StartOfMonthSpec` states which instant it is |
| Boundary.EndOfMonth | boundary.go:120-132 | in the input's zone; `Boundary.EndOfMonthSpec` states which instant it is |
| Boundary.StartOfQuarter | boundary.go:135-142 | in the input's zone; `Boundary.StartOfQuarterSpec` states which instant it is |
| Boundary.EndOfQuarter | boundary.go:145-159 | in the input's zone; `Boundary.EndOfQuarterSpec` states which instant it is |
| Boundary.StartOfYear | boundary.go:162-165 | in the input's zone; `Boundary.StartOfYearSpec` states which instant it is |
| Boundary.EndOfYear | boundary.go:168-173 | in the input's zone; `Boundary.EndOfYearSpec` states which instant it is |
| Boundary.StartOfHourSpec | boundary.go:13-17 | same zone, date and hour, zero minutes, seconds and nanoseconds; the input lies within the hour that starts there |
| Boundary.EndOfHourSpec | boundary.go:20-25 | same zone, date and hour at 59:59.999999999; one nanosecond short of an hour after the start of the hour, and not before the input |
| Boundary.StartOfDaySpec | boundary.go:28-32 | same zone and date at midnight; the input lies within the day that starts there |
| Boundary.EndOfDaySpec | boundary.go:35-40 | same zone and date at 23:59:59.999999999, one nanosecond short of a day after midnight |
| Boundary.StartOfHourIdempotent | boundary.go:13-17 | taking the start of the hour twice gives the same instant |
| Boundary.StartOfDayIdempotent | boundary.go:28-32 | taking the start of the day twice gives the same instant |
| Boundary.StartOfWeekSpec | boundary.go:44-79 | midnight of the configured start weekday, Monday by default, in the input's zone; 0 to 6 days back; the input lies within the 7 days that start there |
| Boundary.StartOfWeekDefault | boundary.go:44-67 | without options the week starts on a Monday |
| Boundary.EndOfWeekSpec | boundary.go:70-110 | the last nanosecond of the weekday before the start day (Sunday by default), 0 to 6 days ahead, not before the input |
| Boundary.EndOfWeekDefault | boundary.go:83-110 | without options the week ends on a Sunday |
| Boundary.WeekSpan | boundary.go:44-110 | the end of the week is 6 days after its start, one nanosecond short of 7 days |
| Boundary.StartOfMonthSpec | boundary.go:113-117 | midnight of the first of the input's month, in its zone |
| Boundary.EndOfMonthSpec | boundary.go:120-132 | the last nanosecond of the month's last day; in February that day is the 29th exactly in leap years |
| Boundary.MonthsAdjoin | boundary.go:120-132 | one nanosecond after the end of the month is midnight of the first of the next month, across December too |
| Boundary.QuarterRange | boundary.go:135-159 | the quarter of a month is 1 to 4, and it starts in January, April, July or October and covers the month |
| Boundary.StartOfQuarterSpec | boundary.go:135-142 | midnight of the first day of the quarter's first month, not after the input |
| Boundary.EndOfQuarterSpec | boundary.go:145-159 | the last nanosecond of the last day of the quarter's last month, not before the input |
| Boundary.StartOfYearSpec | boundary.go:162-165 | midnight of 1 January of the input's year |
| Boundary.EndOfYearSpec | boundary.go:168-173 | 23:59:59.999999999 on 31 December of the input's year |
| Boundary.YearSpan | boundary.go:162-173 | the end of the year is one nanosecond short of 365 or 366 days after its start |
| Boundary.StartOfMonthIdempotent | boundary.go:113-117 | taking the start of the month twice gives the same instant |
| Boundary.StartOfQuarterIdempotent | boundary.go:135-142 | taking the start of the quarter twice gives the same instant |
| Boundary.StartOfYearIdempotent | boundary.go:162-165 | taking the start of the year twice gives the same instant |
| Boundary.StartOfWeekIdempotent | boundary.go:44-67 | taking the start of the week twice, with the same options, gives the same instant |
| Skewing.Source | skewing.go:9-17 | the time given, the time pointed to, or the clock for a nil pointer; `Skewing.SourceCases` states which |
| Skewing.Tomorrow | skewing.go:8-19 | later than the base, in its zone; `Skewing.TomorrowSpec` states by how much |
| Skewing.Yesterday | skewing.go:22-33 | earlier than the base, in its zone; `Skewing.YesterdaySpec` states by how much |
| Skewing.SourceCases | skewing.go:8-19 | the base is the value, the pointed-to time, or the clock for a nil pointer |
| Skewing.TomorrowSpec | skewing.go:8-19 | exactly 24 hours after the base, in its zone: the next day at the same clock time and weekday plus one; equal to adding one day |
| Skewing.YesterdaySpec | skewing.go:22-33 | exactly 24 hours before the base: the previous day at the same clock time and weekday minus one |
| Skewing.TomorrowYesterdayInverse | skewing.go:8-33 | yesterday of tomorrow, and tomorrow of yesterday, are the base again |
| Skewing.TwoDaysApart | skewing.go:8-33 | tomorrow and yesterday are two days apart |
| Difference.Nanoseconds | diff_value.go:12-15 | the value itself |
| Difference.Microseconds | diff_value.go:18-20 | the quotient by 1000, truncated toward zero |
| Difference.Milliseconds | diff_value.go:23-25 | the quotient by 10^6, truncated toward zero |
| Difference.Seconds | diff_value.go:28-30 | the quotient by 10^9, truncated toward zero |
| Difference.Minutes | diff_value.go:33-35 | the quotient by a minute, truncated toward zero |
| Difference.Hours | diff_value.go:38-40 | the quotient by an hour, truncated toward zero |
| Difference.Days | diff_value.go:43-45 | the quotient by a day, truncated toward zero |
| Difference.Weeks | diff_value.go:48-50 | the quotient by a week, truncated toward zero |
| Difference.PerDays | diff_value.go:62-67 | the quotient by a configured number of days, when that many days fit in 64 bits |
| Difference.Months | diff_value.go:54-67 | the quotient by the configured month length, 30 days by default |
| Difference.Years | diff_value.go:62-77 | the quotient by the configured year length, 365 days by default |
| Difference.AccessorsOdd | diff_value.go:12-50 | negating the difference negates every unit reading |
| Difference.AccessorsNest | diff_value.go:12-50 | each unit reading is the next smaller one divided by the ratio of the units |
| Difference.PeriodsFromDays | diff_value.go:54-77 | months and years are whole days divided by the days per month or year |
| Difference.String | diff_value.go:80-120 | a negative difference prints with a leading minus; the lemmas below state the rest |
| Difference.Render | diff_value.go:80-120 | the rendering with the exact magnitude, also with a leading minus when negative; `Difference.DecodeRender` reads it back |
| Difference.StringEmpty | diff_value.go:80-120 | the text is empty exactly for a zero difference |
| Difference.StringSign | diff_value.go:80-120 | a non-zero difference has text that starts with a minus exactly when it is negative |
| Difference.StringNegate | diff_value.go:80-120 | a negative difference prints as a minus followed by the text of its magnitude |
| Difference.TermsShape | diff_value.go:90-118 | the magnitude prints as at least one unit term, none with a negative count, and a non-zero magnitude leads with a non-zero count |
| Difference.StringAgrees | diff_value.go:80-120 | apart from the most negative value, the text equals the corrected rendering |
| Difference.StringBelowMinute | diff_value.go:97-108 | below a minute the text is one term: nanoseconds, else truncated microseconds, milliseconds or seconds, after the sign |
| Difference.StringMinutes | diff_value.go:109-112 | from a minute to an hour the text is whole minutes (1 to 59), then the leftover seconds only when there are some |
| Difference.StringHours | diff_value.go:113-118 | from an hour up the text is whole hours, then the leftover minutes and seconds, each only when non-zero |
| Difference.HourAndAHalf | diff_value.go:80-120 | 90 minutes prints as "1h30m", and minus 90 minutes as "-1h30m" |
| Difference.HourMinutesSeconds | diff_value.go:80-120 | 3725 seconds prints as "1h2m5s" |
| Difference.MinuteAndAHalf | diff_value.go:80-120 | 90 seconds prints as "1m30s" |
| Difference.SingleUnits | diff_value.go:80-120 | one second prints as "1s", and 500 microseconds as "500μs" |
| Difference.StringMostNegative | diff_value.go:80-88 | the most negative value prints with two minus signs and is not readable |
| Difference.DecodeRender | diff_value.go:80-120 | the corrected text reads back as the difference cut to the precision of its leading unit, with the same sign, and exactly for magnitudes under a microsecond |
| Difference.DecodeString | diff_value.go:80-120 | apart from the most negative value, the text reads back as the corrected rendering does |
| Helper.IsLeap | internal/helper/helper.go:6-14 | a leap year is divisible by 4 and every multiple of 400 is one; `Helper.IsLeapRule` states the whole rule |
| Helper.DaysInMonth | internal/helper/helper.go:17-20 | a day number from 1 to 31; `Helper.DaysInMonthTable` states the table |
| Helper.IsLeapRule | internal/helper/helper.go:6-14 | the divisibility chain is the Gregorian rule, including for negative years |
| Helper.KnownYears | internal/helper/helper.go:6-14 | 2000, 2020 and 2024 are leap years; 1900, 2021 and 2023 are not |
| Helper.DayZero | internal/helper/helper.go:17-20 | day 0 of the next month is the last day of the month, across December too |
| Helper.DaysInMonthIsLastDay | internal/helper/helper.go:17-20 | the helper returns the length of the month |
| Helper.DaysInMonthTable | internal/helper/helper.go:17-20 | 31, 30 or 28/29 days by month; February has 29 exactly in leap years |
| Calculator.Configure | internal/calculator/add_date_option.go:3-12 | clamping is on exactly when the last option disables overflow |
| Calculator.TargetMonth | internal/calculator/add_date.go:28-35 | the normalised month is 1 to 12 and names the same month count as the unnormalised pair |
| Calculator.AddDate | internal/calculator/add_date.go:9-57 | equals Go's `AddDate` unless overflow is disabled; then it is the target month with the day clamped in the listed cases, at the input's clock time and zone |
| Calculator.OverflowByDefault | internal/calculator/add_date.go:15-17 | without options, or when the last option enables overflow, the result is Go's `AddDate` |
| Calculator.NoOverflowKeepsClock | internal/calculator/add_date.go:20-56 | the no-overflow result keeps the zone and the clock fields, and its day count is the target date's |
| Calculator.ClampedDay | internal/calculator/add_date.go:38-52 | a listed month-end date moves to the target month with its day capped at that month's length |
| Calculator.UnclampedDay | internal/calculator/add_date.go:38-56 | any other date keeps its day number, and `time.Date` normalises it |
| Calculator.EndOfMonthStaysInMonth | internal/calculator/add_date.go:38-52 | the 31st plus one month, with overflow disabled, is the last day of the next month |
| Calculator.SpillsPastTarget | internal/calculator/add_date.go:38-52 | a valid date outside the list whose day exceeds the target month's length can only target February, and it spills into March |
| Calculator.MarchThirtiethSpills | internal/calculator/add_date.go:38-52 | 30 March 2023 minus one month, with overflow disabled, lands on 2 March |
| Calculator.ClampingSpec | internal/calculator/add_date.go:38-52 | the corrected rule lands every valid date in the target month with the day capped, at the same clock time and zone |
| Calculator.ClampingAgrees | internal/calculator/add_date.go:38-52 | the corrected rule differs from the code only in the spill case |
| FromUnix.FromUnixTime | internal/parse/from_unix.go:9-45 | fails exactly for a `uint64` above the `int64` range; otherwise an instant in the local zone |
| FromUnix.FromUnixTimeExact | internal/parse/from_unix.go:9-45 | the same error and zone behaviour, with exact scaling |
| FromUnix.FromUnixTimeExactSpec | internal/parse/from_unix.go:13-44 | an `int64` is nanoseconds, microseconds, milliseconds or seconds by its size; other kinds are seconds, `uint` and `uintptr` after conversion to `int64` |
| FromUnix.FromUnixTimeAgrees | internal/parse/from_unix.go:19-28 | where the products fit in 64 bits the code and the exact version agree |
| FromUnix.MicrosecondsWrap | internal/parse/from_unix.go:22-23 | 10^16 read as microseconds wraps to a time before 1970 |
| FromUnix.MillisecondsWrap | internal/parse/from_unix.go:24-25 | 10^13 read as milliseconds wraps to a time before 1970 |
| FromUnix.UintWrapsToPast | internal/parse/from_unix.go:29-30 | a `uint` above the `int64` range converts to a time before 1970 |
| FromString.FromStringFormat | internal/parse/from_string.go:25-48 | the outcome of the first candidate layout that reads the string, in the configured zone |
| FromString.TryFormats | internal/parse/from_string.go:41-47 | the loop returns the first successful reading, or the could-not-parse error |
| FromString.FirstSuccess | internal/parse/from_string.go:41-45 | every earlier candidate fails and the one found, if any, succeeds |
| FromString.FirstSuccessIs | internal/parse/from_string.go:41-45 | the first success is unique |
| FromString.BuiltInLayouts | internal/parse/from_string.go:10-22 | 25 built-in layouts, from `time.Layout` to the slash-separated date |
| FromString.CandidateOrder | internal/parse/from_string.go:31-34 | the user's layouts, in option order, ahead of the built-in ones |
| FromString.CollectedLayouts | internal/parse/from_string_option.go:10-18 | the options collect every layout given, in order |
| FromString.LastLocationWins | internal/parse/from_string_option.go:20-24 | the last zone option wins, and a nil zone falls back to the local zone |
| FromString.LocalByDefault | internal/parse/from_string.go:36-39 | without a zone option the string is read in the local zone |
| FromString.FromStringSpec | internal/parse/from_string.go:25-48 | the only error names the string; `FromString.FromStringOutcome` states when it occurs |
| FromString.FromStringOutcome | internal/parse/from_string.go:41-47 | an error, naming the string, exactly when no candidate reads it; otherwise the reading of the first candidate that does |
| FromString.OnlyPrefixConsulted | internal/parse/from_string.go:41-45 | candidates after the first success play no part |
| NaturalLanguage.Folded | internal/parse/from_natural_language.go:41 | a word matches case-insensitively, by Go's folding rules, exactly when it is found |
| NaturalLanguage.Quantity | internal/parse/from_natural_language.go:48-57 | exactly "a" and "an" are 1; any other token is its `Atoi` value and fails exactly when `Atoi` does, with an invalid-quantity error naming the token |
| NaturalLanguage.UnitShift | internal/parse/from_natural_language.go:60-85 | the only error is an unknown unit naming the word |
| NaturalLanguage.Directed | internal/parse/from_natural_language.go:88-98 | the only error is an unknown direction naming the word |
| NaturalLanguage.ApplyShift | internal/parse/from_natural_language.go:100-107 | the result is shown in the chosen zone |
| NaturalLanguage.Interpret | internal/parse/from_natural_language.go:48-107 | the result is in the chosen zone; errors come only from the quantity, the unit or the direction |
| NaturalLanguage.Relative | internal/parse/from_natural_language.go:41-107 | unsupported exactly when the pattern does not match |
| NaturalLanguage.FromNaturalLanguage | internal/parse/from_natural_language.go:13-108 | a result is in the configured zone, else the base time's zone |
| NaturalLanguage.Dispatch | internal/parse/from_natural_language.go:29-38 | "now", "today", "yesterday" and "tomorrow", in any case, are the base time and midnights around it; anything else goes to the pattern |
| NaturalLanguage.DayWords | internal/parse/from_natural_language.go:32-37 | "today", "yesterday" and "tomorrow" are midnight of the base day, the day before and the day after |
| NaturalLanguage.Match | internal/parse/from_natural_language.go:41-45 | a match's groups are a quantity token, a unit spelling and a direction spelling; `NaturalLanguage.MatchOf` and `NaturalLanguage.MatchSplit` state which strings match |
| NaturalLanguage.MatchOf | internal/parse/from_natural_language.go:41-42 | a phrase spelled as quantity, unit, optional plural, direction, separated by whitespace, matches with those three groups |
| NaturalLanguage.MatchSplit | internal/parse/from_natural_language.go:41-42 | every match is such a spelling |
| NaturalLanguage.UnitKnownIff | internal/parse/from_natural_language.go:62-84 | a matched unit is known exactly when it has no long s (U+017F), which the pattern folds to 's' and lower-casing does not |
| NaturalLanguage.DirectionAlwaysKnown | internal/parse/from_natural_language.go:88-98 | every matched direction is known |
| NaturalLanguage.InterpretErrors | internal/parse/from_natural_language.go:48-98 | which error, if any, a matched phrase gets |
| NaturalLanguage.RelativeErrors | internal/parse/from_natural_language.go:41-98 | the same, from the whole phrase |
| NaturalLanguage.NeverUnknownDirection | internal/parse/from_natural_language.go:96-97 | the unknown-direction error never occurs |
| NaturalLanguage.QuantityNonNegative | internal/parse/from_natural_language.go:48-57 | a matched quantity is never negative |
| NaturalLanguage.DurationShift | internal/parse/from_natural_language.go:63-74 | the clock units give the quantity times the unit as a duration |
| NaturalLanguage.CalendarShift | internal/parse/from_natural_language.go:75-82 | days, weeks, months and years give calendar amounts, a week being 7 days |
| NaturalLanguage.DirectedBySign | internal/parse/from_natural_language.go:88-95 | "ago" and "before" negate every amount; "later" and "after" keep them |
| NaturalLanguage.DurationOffset | internal/parse/from_natural_language.go:60-107 | a clock-unit phrase is the base moved by the signed duration, in the chosen zone |
| NaturalLanguage.CalendarOffset | internal/parse/from_natural_language.go:60-107 | a calendar-unit phrase is Go's `AddDate` of the signed amounts, in the chosen zone |
| NaturalLanguage.ArticleNotNumber | internal/parse/from_natural_language.go:49-56 | `Atoi` rejects every spelling of `a` or `an` |
| NaturalLanguage.QuantityFolded | internal/parse/from_natural_language.go:49-56 | the corrected article check: every case of `a` or `an` is one, so a token the pattern accepts fails only as a number beyond 64 bits |
| NaturalLanguage.QuantityFoldedAgrees | internal/parse/from_natural_language.go:49-56 | the corrected check differs from the code exactly on an article not all in lower case, which the code rejects |
| NaturalLanguage.InterpretFolded | internal/parse/from_natural_language.go:48-107 | the corrected reading is the code's reading with an article of any case replaced by `1` |
| NaturalLanguage.InterpretFoldedAgrees | internal/parse/from_natural_language.go:48-107 | the corrected reading differs from the code exactly on such an article, where the code's result is an invalid quantity |
| NaturalLanguage.RelativeFolded | internal/parse/from_natural_language.go:41-107 | the corrected phrase reader: unsupported exactly when the pattern does not match, and a result in the chosen zone |
| NaturalLanguage.RelativeFoldedAgrees | internal/parse/from_natural_language.go:41-107 | it differs from the code exactly on a matched phrase whose article is not all lower case |
| NaturalLanguage.LastLocationWins | internal/parse/from_natural_language_option.go:18-22 | the last zone option wins, even a nil one |
| NaturalLanguage.NoLocation | internal/parse/from_natural_language.go:23-26 | without a zone option the base time's zone is used |
| NaturalLanguage.LastBaseWins | internal/parse/from_natural_language_option.go:10-16 | the last non-zero base time wins; zero base times are ignored |
| NaturalLanguage.NoBase | internal/parse/from_natural_language.go:19-22 | without a non-zero base time the clock is used |
| NaturalLanguageExamples.TwoHoursAgo | internal/parse/from_natural_language_test.go:116-119 | "2 hours ago" is two hours before the base |
| NaturalLanguageExamples.ThreeMonthsLater | internal/parse/from_natural_language_test.go:43-47 | "3 months later", with surrounding spaces, is three calendar months after the base |
| NaturalLanguageExamples.CapitalArticleFails | internal/parse/from_natural_language.go:49-55 | "A HOUR AGO" matches but fails as an invalid quantity, since the article check is case-sensitive |
| NaturalLanguageExamples.MixedArticleFails | internal/parse/from_natural_language.go:49-56 | "An HoUr AgO" matches but fails as an invalid quantity, as written |
| NaturalLanguageExamples.OneHourBack | internal/parse/from_natural_language.go:60-107 | a quantity of 1, any spelling of `hour` and a backward direction give the base minus one hour |
| NaturalLanguageExamples.CapitalArticleFolded | internal/parse/from_natural_language_test.go:143 | with the corrected check, "A HOUR AGO" is one hour before the base, as the test expects |
| NaturalLanguageExamples.MixedArticleFolded | internal/parse/from_natural_language_test.go:144 | with the corrected check, "An HoUr AgO" is one hour before the base, as the test expects |
| NaturalLanguageExamples.LongSecondFails | internal/parse/from_natural_language.go:62-84 | a unit spelled with a long s matches but is an unknown unit |
| NaturalLanguageExamples.NegativeUnsupported | internal/parse/from_natural_language_test.go:72 | "-1 hour ago" is an unsupported expression |
| Parser.ParseOption.constructor | parser.go:10-16 | a new record has no options for either parser and natural language off |
| Parser.ParseOption.ParseWithLayout | parser.go:67-77 | appends one layout option per layout, in argument order, and changes nothing else |
| Parser.ParseOption.ParseWithLocation | parser.go:80-92 | appends the zone to both parsers' options |
| Parser.ParseOption.ParseWithBaseTime | parser.go:95-102 | appends the base time to the natural-language options only |
| Parser.ParseOption.ParseWithNaturalLanguage | parser.go:105-109 | sets the natural-language switch only |
| Parser.NewParseOption | parser.go:20-23 | a fresh record holding the options applied in order |
| Parser.Parse | parser.go:19-64 | the dispatch on the input's kind, as specified by `Resolve`, with integers read by `FromUnix.FromUnixTime` as written |
| Parser.Resolve | parser.go:25-63 | every error is wrapped as an invalid Unix time or an invalid time string, and only an integer gives the former; the lemmas below state each case |
| Parser.Textual | parser.go:49-61 | every error is wrapped as an invalid time string, and without natural language it wraps the could-not-parse error |
| Parser.TimesPassThrough | parser.go:27-30 | a time comes back as given; a pointer comes back as given, nil included |
| Parser.IntegersAreUnixTimes | parser.go:31-36 | integers are Unix times in the local zone, scaled by size for an `int64`; only a `uint64` above the `int64` range fails, wrapped as an invalid Unix time |
| Parser.LargeMillisecondsWrap | parser.go:31-36 | 10^13 milliseconds is parsed as a time before 1970, since the product wraps |
| Parser.ClockWords | parser.go:39-47 | "now" is the clock, and "yesterday" and "tomorrow" are the clock 24 hours back and ahead, whatever the options |
| Parser.LayoutsFirst | parser.go:49-50 | a string a layout reads is returned as read, whether or not natural language is on |
| Parser.LayoutsOnly | parser.go:51-54 | without natural language, an unreadable string is an invalid time string wrapping the could-not-parse error |
| Parser.LanguageFallback | parser.go:55-61 | with natural language on, the natural-language result is used, and an error wraps its error, never the layout error |
| Parser.LocationFeedsBoth | parser.go:80-92 | the last zone option sets the zone of both parsers |
| Parser.BaseTimeOnlyForLanguage | parser.go:95-102 | a base time leaves the layout options alone and becomes the natural-language base |
| Parser.LanguageSwitch | parser.go:105-109 | natural language is on exactly when the last switch option turns it on |
| Parser.LayoutOrder | parser.go:67-77 | the candidates are the option layouts, in order, ahead of the built-in ones |
| Decimal.AtoiItoa | internal/parse/from_natural_language.go:53 | every 64-bit integer's decimal text reads back as that integer |
| Decimal.AtoiDigits | internal/parse/from_natural_language.go:53 | a digit string reads as its value when that fits in 64 bits, and fails otherwise |
| Text.FieldsOfGlue | internal/parse/from_natural_language.go:41 | words joined by whitespace runs split back into those words |
| Text.LowerFolded | internal/parse/from_natural_language.go:62 | a word that matches a lower-case word under folding lowers to it exactly when it has no long s |
| GoTime.DateRoundTrip | internal/helper/helper.go:19 | reading a valid date as a day count and back gives the same date |
| GoTime.DateFromDays | boundary.go:65 | every day count names one valid date |
| GoTime.DateFields | boundary.go:66 | `time.Date` of a valid date and clock reads back those fields |
| GoTime.Recompose | internal/calculator/add_date.go:54-56 | rebuilding an instant from its own fields and zone gives the same instant |
| GoTime.AddDaysShift | boundary.go:64 | adding whole days is adding that many 24-hour spans, in a fixed zone |

## Left out

- Zones are fixed offsets. Daylight saving and zone databases are not modelled, so every day is 24 hours long.
- The clock and the local zone are parameters. `time.Now()` is read once by `Parse` and again inside the natural-language parser, so `Parse` takes two clock readings, `now` and `later`.
- `time.ParseInLocation` is a parameter (`FromString.LayoutParser`). Go's layout language itself is not part of this model.
- Go's time internals are not modelled beyond the range the unbounded day count represents. Years past roughly 2.9 × 10^11 are out of scope.
- Options given as closures are modelled as data values that are applied in order. Only `ParseOption` keeps its records as a class, because `parser.go` appends to its slices.
- Pointers are optional values. The identity of the pointer `Parse` returns is not modelled.
- Parser.IntegersAreUnixTimes: stated where the microsecond and millisecond products fit in 64 bits. Beyond that `Parse` returns the wrapped value of `FromUnix.FromUnixTime` (see Findings and `Parser.LargeMillisecondsWrap`).
- Only the exact predeclared types of the `TimeValue` constraint are modelled. A value of a named type built on `string` or an integer kind (types.go:5-10) matches no case of the type switch at parser.go:26-31, and `val.(string)` at parser.go:38 then panics.
- Calculator.AddDate: the sums of the original fields and the offsets are not wrapped at 64 bits. The Go code would wrap for offsets near the `int` limits.
- Boundary.StartOfWeekSpec: stated for start days at least `MinInt64 + 7`. For smaller start days Go's `weekday - startDay` wraps; the function models that wrap, but the lemma does not cover it.
- Boundary.EndOfWeekSpec: stated for start days at most `MaxInt64 - 6`, where `startDay + 6` does not wrap.
- Boundary.StartOfWeekIdempotent: stated for start days at least `MinInt64 + 7`, like `Boundary.StartOfWeekSpec`.
- Boundary.WeekSpan: stated for the start days where both lemmas above hold.
- Difference.Months, Difference.Years and Difference.PerDays require that the day count's nanosecond product does not wrap to zero. Go panics with a division by zero there.
- Difference.PerDays: the quotient is stated only when the day count is positive and its product fits in 64 bits. Otherwise the function divides by the wrapped product, as Go does, but no property is stated.
- Comparer.DiffExact and Comparer.DiffAntisymmetric are stated where the gap fits in 64 bits. Comparer.DiffClamps covers the rest.
- NaturalLanguage.DurationShift and NaturalLanguage.CalendarShift are stated where the products do not overflow. `NaturalLanguage.UnitShift` wraps them as Go does.
- Helper.DaysInMonthTable and Helper.DaysInMonthIsLastDay are stated for months 1 to 12. The function accepts any month and normalises it like `time.Date`.
- NaturalLanguage.FromNaturalLanguage and Parser.Parse keep the case-sensitive article check as written. `NaturalLanguage.RelativeFolded` is the corrected phrase reader, and `NaturalLanguage.RelativeFoldedAgrees` says where the two differ (see Findings).
- Error messages are error values carrying the offending input, not formatted text.

## Findings

| source | as written | input that shows it | evidently intended | confidence | as-written member | corrected member |
|---|---|---|---|---|---|---|
| diff_value.go:81-88 | the magnitude is `-d`, which stays negative for the most negative `int64`, and a second minus is printed | `DiffValue(-9223372036854775808).String()` gives `--9223372036854775808ns` | a single leading minus and a readable duration | not executed | Difference.StringMostNegative | Difference.DecodeRender |
| internal/parse/from_unix.go:22-25 | `val*1e3` and `val*1e6` are computed in `int64` and wrap | `FromUnixTime(int64(1e16))` (microseconds) and `FromUnixTime(int64(1e13))` (milliseconds) give times before 1970 | the instant the timestamp denotes | not executed | FromUnix.MicrosecondsWrap | FromUnix.FromUnixTimeExactSpec |
| internal/calculator/add_date.go:38-52 | the day is capped only for the 31st, 29-31 January and 29 February, so other days beyond the target month spill into the next month | 30 March 2023 with `month = -1`, `day = 0` and `WithOverflow(false)` gives 2 March 2023 | with overflow disabled, a year or month step stays inside the target month | not executed | Calculator.MarchThirtiethSpills | Calculator.ClampingSpec |
| internal/parse/from_natural_language.go:49 | the article test compares the group with `a` and `an` exactly, although the pattern matches them in any case, so an upper-case article falls to `strconv.Atoi` and fails | `FromNaturalLanguage("A HOUR AGO")` is an invalid-quantity error; from_natural_language_test.go:143-144 expects one hour before the base | an article in any case is one | not executed | NaturalLanguageExamples.CapitalArticleFails | NaturalLanguage.QuantityFolded |

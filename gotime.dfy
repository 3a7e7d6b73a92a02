/**
 * The part of Go's `time` package that the toolkit relies on, for fixed-offset
 * zones: an instant is a count of nanoseconds since the Unix epoch together
 * with the zone it is displayed in.  Civil fields come from the proleptic
 * Gregorian calendar; `Date` is `time.Date` with its normalisation of
 * out-of-range fields, and `AddDate`, `Add` and `In` are the methods of the
 * same names.
 */
module GoTime {
  import opened GoInt


  const NsPerSecond: int := 1_000_000_000
  const NsPerMinute: int := 60 * NsPerSecond
  const NsPerHour: int := 3600 * NsPerSecond
  const NsPerDay: int := 86400 * NsPerSecond

  /** A zone with a fixed offset, in seconds east of UTC. */
  datatype Location = FixedZone(offsetSeconds: int)

  const UTC: Location := FixedZone(0)

  /** An instant: nanoseconds since 1970-01-01T00:00:00Z and its display zone. */
  datatype Instant = Instant(unixNano: int, loc: Location)

  datatype CivilDate = CivilDate(year: int, month: int, day: int)

  /** Days from 0001-01-01 to 1970-01-01. */
  const UnixEpochDays: int := 719162

  /** Go's zero `time.Time`, 0001-01-01 00:00:00 UTC, the "unset" value. */
  const ZeroUnixNano: int := -UnixEpochDays * NsPerDay

  const Zero: Instant := Instant(ZeroUnixNano, UTC)

  /** `t.IsZero()`: only the absolute instant matters, not the zone. */
  predicate IsZero(t: Instant) {
    t.unixNano == ZeroUnixNano
  }

  // ---------------------------------------------------------------------
  // The Gregorian calendar
  // ---------------------------------------------------------------------

  predicate IsLeapYear(y: int) {
    y % 4 == 0 && (y % 100 != 0 || y % 400 == 0)
  }

  function DaysInYear(y: int): int {
    if IsLeapYear(y) then 366 else 365
  }

  function DaysIn(y: int, m: int): int
    requires 1 <= m <= 12
  {
    if m == 2 then (if IsLeapYear(y) then 29 else 28)
    else if m == 4 || m == 6 || m == 9 || m == 11 then 30
    else 31
  }

  /** Days of year `y` that come before the first of month `m`. */
  function DaysBefore(y: int, m: int): int
    requires 1 <= m <= 12
  {
    var leap := if m > 2 && IsLeapYear(y) then 1 else 0;
    leap +
    if m == 1 then 0 else if m == 2 then 31 else if m == 3 then 59
    else if m == 4 then 90 else if m == 5 then 120 else if m == 6 then 151
    else if m == 7 then 181 else if m == 8 then 212 else if m == 9 then 243
    else if m == 10 then 273 else if m == 11 then 304 else 334
  }

  predicate ValidDate(d: CivilDate) {
    1 <= d.month <= 12 && 1 <= d.day <= DaysIn(d.year, d.month)
  }

  /** Days from 0001-01-01 to the first of January of year `y`. */
  function DaysBeforeYear(y: int): int {
    var p := y - 1;
    365 * p + p / 4 - p / 100 + p / 400
  }

  /** Days since 1970-01-01 of the given day of month `m` (the day may overflow). */
  function DaysSinceEpoch(y: int, m: int, d: int): int
    requires 1 <= m <= 12
  {
    DaysBeforeYear(y) + DaysBefore(y, m) + d - 1 - UnixEpochDays
  }

  lemma MonthsTile(y: int, m: int)
    requires 1 <= m <= 12
    ensures m < 12 ==> DaysBefore(y, m + 1) == DaysBefore(y, m) + DaysIn(y, m)
    ensures m == 12 ==> DaysBefore(y, 12) + DaysIn(y, 12) == DaysInYear(y)
  {
  }

  lemma YearsTile(y: int)
    ensures DaysBeforeYear(y + 1) == DaysBeforeYear(y) + DaysInYear(y)
  {
    var p := y - 1;
    assert y == p + 1;
    assert (p + 1) / 4 == p / 4 + (if y % 4 == 0 then 1 else 0);
    assert (p + 1) / 100 == p / 100 + (if y % 100 == 0 then 1 else 0);
    assert (p + 1) / 400 == p / 400 + (if y % 400 == 0 then 1 else 0);
  }

  /**
   * Years before `400e + 100c + 4q + r + 1` split into whole 400-, 100- and
   * 4-year cycles plus single years.
   */
  lemma DaysBeforeYearCycles(e: int, c: int, q: int, r: int)
    requires 0 <= c <= 3 && 0 <= q <= 24 && 0 <= r <= 3
    ensures DaysBeforeYear(400 * e + 100 * c + 4 * q + r + 1)
            == 146097 * e + 36524 * c + 1461 * q + 365 * r
  {
    var p := 400 * e + 100 * c + 4 * q + r;
    assert p == 4 * (100 * e + 25 * c + q) + r;
    assert p / 4 == 100 * e + 25 * c + q;
    assert p == 100 * (4 * e + c) + (4 * q + r);
    assert p / 100 == 4 * e + c;
    assert p == 400 * e + (100 * c + 4 * q + r);
    assert p / 400 == e;
  }

  lemma CenturyStep(k: int, c: int)
    requires 0 <= k < 146097
    requires c == if k / 36524 == 4 then 3 else k / 36524
    ensures 0 <= c <= 3 && 0 <= k - 36524 * c <= 36524
    ensures k - 36524 * c == 36524 ==> c == 3
  {
  }

  lemma QuadStep(k2: int)
    requires 0 <= k2 <= 36524
    ensures 0 <= k2 / 1461 <= 24 && k2 == 1461 * (k2 / 1461) + k2 % 1461
    ensures k2 / 1461 == 24 && k2 % 1461 == 1460 ==> k2 == 36524
  {
  }

  lemma SingleYearStep(k3: int, r: int)
    requires 0 <= k3 < 1461
    requires r == if k3 / 365 == 4 then 3 else k3 / 365
    ensures 0 <= r <= 3 && 0 <= k3 - 365 * r <= 365
    ensures k3 - 365 * r == 365 ==> r == 3
  {
  }

  lemma MultipleOf4(k: int, y: int)
    requires y == 4 * k
    ensures y % 4 == 0
  {
  }

  lemma NotCentury(e: int, c: int, q: int, y: int)
    requires 0 <= q < 24
    requires y == 100 * (4 * e + c) + (4 * q + 4)
    ensures y % 100 != 0
  {
  }

  lemma MultipleOf400(e: int, y: int)
    requires y == 400 * e
    ensures y % 400 == 0
  {
  }

  /** The year after the last of a 4-year cycle is a leap year, except at most centuries. */
  lemma CycleEndLeap(e: int, c: int, q: int)
    requires 0 <= c <= 3 && 0 <= q <= 24
    requires q < 24 || c == 3
    ensures IsLeapYear(400 * e + 100 * c + 4 * q + 4)
  {
    var y := 400 * e + 100 * c + 4 * q + 4;
    MultipleOf4(100 * e + 25 * c + q + 1, y);
    if q < 24 {
      NotCentury(e, c, q, y);
    } else {
      MultipleOf400(e + 1, y);
    }
  }

  /** The year containing day `a` (counted from 0001-01-01) and the 0-based day in it. */
  function YearAndYearDay(a: int): (r: (int, int))
    ensures 0 <= r.1 < DaysInYear(r.0)
    ensures DaysBeforeYear(r.0) + r.1 == a
  {
    var e := a / 146097;
    var k := a % 146097;
    var c := if k / 36524 == 4 then 3 else k / 36524;
    var k2 := k - 36524 * c;
    var q := k2 / 1461;
    var k3 := k2 % 1461;
    var r := if k3 / 365 == 4 then 3 else k3 / 365;
    var year := 400 * e + 100 * c + 4 * q + r + 1;
    var yday := k3 - 365 * r;
    CenturyStep(k, c);
    QuadStep(k2);
    SingleYearStep(k3, r);
    DaysBeforeYearCycles(e, c, q, r);
    assert yday == 365 ==> IsLeapYear(year) by {
      if yday == 365 {
        CycleEndLeap(e, c, q);
      }
    }
    (year, yday)
  }

  /** The month and day of the 0-based day `yday` of year `y`. */
  function MonthAndDay(y: int, yday: int): (d: CivilDate)
    requires 0 <= yday < DaysInYear(y)
    ensures ValidDate(d) && d.year == y
    ensures DaysBefore(y, d.month) + d.day - 1 == yday
  {
    var leap := if IsLeapYear(y) then 1 else 0;
    var m :=
      if yday < 31 then 1 else if yday < 59 + leap then 2
      else if yday < 90 + leap then 3 else if yday < 120 + leap then 4
      else if yday < 151 + leap then 5 else if yday < 181 + leap then 6
      else if yday < 212 + leap then 7 else if yday < 243 + leap then 8
      else if yday < 273 + leap then 9 else if yday < 304 + leap then 10
      else if yday < 334 + leap then 11 else 12;
    CivilDate(y, m, yday - DaysBefore(y, m) + 1)
  }

  /** The civil date of the day `n` days after 1970-01-01. */
  function DateFromDays(n: int): (d: CivilDate)
    ensures ValidDate(d)
    ensures DaysSinceEpoch(d.year, d.month, d.day) == n
  {
    var yd := YearAndYearDay(n + UnixEpochDays);
    MonthAndDay(yd.0, yd.1)
  }

  /** Converting a valid date to a day count and back gives the date again. */
  lemma {:induction false} DateRoundTrip(d: CivilDate)
    requires ValidDate(d)
    ensures DateFromDays(DaysSinceEpoch(d.year, d.month, d.day)) == d
  {
    YearDayOf(d);
    MonthDayOf(d);
  }

  /** The day of the year of a valid date, counted from 0. */
  lemma YearDayBound(d: CivilDate)
    requires ValidDate(d)
    ensures 0 <= DaysBefore(d.year, d.month) + d.day - 1 < DaysInYear(d.year)
  {
    MonthsTile(d.year, d.month);
    if d.month < 12 {
      MonthsTile(d.year, d.month + 1);
    }
  }

  lemma YearDayOf(d: CivilDate)
    requires ValidDate(d)
    ensures YearAndYearDay(DaysSinceEpoch(d.year, d.month, d.day) + UnixEpochDays)
            == (d.year, DaysBefore(d.year, d.month) + d.day - 1)
  {
    var yday := DaysBefore(d.year, d.month) + d.day - 1;
    YearDayBound(d);
    var yd := YearAndYearDay(DaysSinceEpoch(d.year, d.month, d.day) + UnixEpochDays);
    YearDayUnique(d.year, yday, yd.0, yd.1);
  }

  lemma MonthDayOf(d: CivilDate)
    requires ValidDate(d)
    ensures 0 <= DaysBefore(d.year, d.month) + d.day - 1 < DaysInYear(d.year)
    ensures MonthAndDay(d.year, DaysBefore(d.year, d.month) + d.day - 1) == d
  {
    YearDayBound(d);
    var m := MonthAndDay(d.year, DaysBefore(d.year, d.month) + d.day - 1);
    MonthDayUnique(d, m);
  }

  /** Two (year, day-of-year) pairs that name the same day are equal. */
  lemma YearDayUnique(y1: int, d1: int, y2: int, d2: int)
    requires 0 <= d1 < DaysInYear(y1) && 0 <= d2 < DaysInYear(y2)
    requires DaysBeforeYear(y1) + d1 == DaysBeforeYear(y2) + d2
    ensures y1 == y2 && d1 == d2
  {
    if y1 < y2 {
      YearsBeforeGrow(y1 + 1, y2);
      YearsTile(y1);
    } else if y2 < y1 {
      YearsBeforeGrow(y2 + 1, y1);
      YearsTile(y2);
    }
  }

  /** Later years start later. */
  lemma YearsBeforeGrow(a: int, b: int)
    requires a <= b
    ensures DaysBeforeYear(a) <= DaysBeforeYear(b)
  {
    var pa, pb := a - 1, b - 1;
    assert pa / 4 - pa / 100 >= pb / 4 - pb / 100 - (pb - pa) by {
      assert pb / 4 - pa / 4 <= (pb - pa) / 4 + 1;
      assert pb / 100 - pa / 100 >= 0;
    }
  }

  lemma MonthDayUnique(d1: CivilDate, d2: CivilDate)
    requires ValidDate(d1) && ValidDate(d2) && d1.year == d2.year
    requires DaysBefore(d1.year, d1.month) + d1.day == DaysBefore(d2.year, d2.month) + d2.day
    ensures d1 == d2
  {
    MonthsTile(d1.year, d1.month);
    MonthsTile(d2.year, d2.month);
  }

  // ---------------------------------------------------------------------
  // Instants and their civil fields
  // ---------------------------------------------------------------------

  /** Nanoseconds since the epoch on the wall clock of `t`'s zone. */
  function Wall(t: Instant): int {
    t.unixNano + t.loc.offsetSeconds * NsPerSecond
  }

  /** Days since 1970-01-01 of `t`'s date in its own zone. */
  function LocalDays(t: Instant): int {
    Wall(t) / NsPerDay
  }

  function NanoOfDay(t: Instant): int {
    Wall(t) % NsPerDay
  }

  /** `t.Date()`. */
  function DateOf(t: Instant): (d: CivilDate)
    ensures ValidDate(d)
  {
    DateFromDays(LocalDays(t))
  }

  function Year(t: Instant): int { DateOf(t).year }
  function Month(t: Instant): int { DateOf(t).month }
  function Day(t: Instant): int { DateOf(t).day }
  function Hour(t: Instant): int { NanoOfDay(t) / NsPerHour }
  function Minute(t: Instant): int { NanoOfDay(t) % NsPerHour / NsPerMinute }
  function Second(t: Instant): int { NanoOfDay(t) % NsPerMinute / NsPerSecond }
  function Nanosecond(t: Instant): int { NanoOfDay(t) % NsPerSecond }

  /** `t.Weekday()`: 0 is Sunday; 1970-01-01 was a Thursday. */
  function Weekday(t: Instant): int {
    (LocalDays(t) + 4) % 7
  }

  /** `time.Date` in a fixed-offset zone: every field may be out of range and is normalised. */
  function Date(year: int, month: int, day: int, hour: int, min: int, sec: int, nsec: int,
                loc: Location): Instant
  {
    var y := year + (month - 1) / 12;
    var m := (month - 1) % 12 + 1;
    var days := DaysSinceEpoch(y, m, 1) + day - 1;
    Instant(days * NsPerDay + hour * NsPerHour + min * NsPerMinute + sec * NsPerSecond + nsec
            - loc.offsetSeconds * NsPerSecond, loc)
  }

  /** `t.After(u)`, `t.Before(u)`: comparisons of the absolute instants, whatever the zones. */
  predicate After(t: Instant, u: Instant) {
    t.unixNano > u.unixNano
  }

  predicate Before(t: Instant, u: Instant) {
    t.unixNano < u.unixNano
  }

  /** `t.Sub(u)`: the elapsed nanoseconds, clamped to the 64-bit range. */
  function Sub(t: Instant, u: Instant): int {
    Saturate(t.unixNano - u.unixNano)
  }

  /** `t.Add(d)`. */
  function Add(t: Instant, d: int): Instant {
    Instant(t.unixNano + d, t.loc)
  }

  /** `t.In(loc)`: the same instant shown in another zone. */
  function In(t: Instant, loc: Location): Instant {
    Instant(t.unixNano, loc)
  }

  /** `t.AddDate(years, months, days)`: calendar fields are added and the result normalised. */
  function AddDate(t: Instant, years: int, months: int, days: int): Instant {
    Date(Year(t) + years, Month(t) + months, Day(t) + days,
         Hour(t), Minute(t), Second(t), Nanosecond(t), t.loc)
  }

  /** `time.Unix(sec, nsec)` shown in the zone `local`. */
  function Unix(sec: int, nsec: int, local: Location): Instant {
    Instant(sec * NsPerSecond + nsec, local)
  }

  predicate ValidClock(hour: int, min: int, sec: int, nsec: int) {
    0 <= hour < 24 && 0 <= min < 60 && 0 <= sec < 60 && 0 <= nsec < NsPerSecond
  }

  function ClockNanos(hour: int, min: int, sec: int, nsec: int): int {
    hour * NsPerHour + min * NsPerMinute + sec * NsPerSecond + nsec
  }

  /** The clock fields of an instant are in range and make up its time of day. */
  lemma ClockOf(t: Instant)
    ensures ValidClock(Hour(t), Minute(t), Second(t), Nanosecond(t))
    ensures NanoOfDay(t) == ClockNanos(Hour(t), Minute(t), Second(t), Nanosecond(t))
    ensures 0 <= NanoOfDay(t) < NsPerDay
    ensures t.unixNano == LocalDays(t) * NsPerDay + NanoOfDay(t) - t.loc.offsetSeconds * NsPerSecond
  {
    var n := NanoOfDay(t);
    var h, r := n / NsPerHour, n % NsPerHour;
    assert n == h * NsPerHour + r;
    var m, r2 := r / NsPerMinute, r % NsPerMinute;
    assert r == m * NsPerMinute + r2;
    ModMod(n, 60, NsPerMinute);
    var s, ns := r2 / NsPerSecond, r2 % NsPerSecond;
    assert r2 == s * NsPerSecond + ns;
    ModMod(n, 60, NsPerSecond);
  }

  /** Splitting a day count and an in-range clock back out of a wall time. */
  lemma WallSplit(days: int, clock: int, t: Instant)
    requires 0 <= clock < NsPerDay
    requires Wall(t) == days * NsPerDay + clock
    ensures LocalDays(t) == days && NanoOfDay(t) == clock
  {
  }

  lemma ClockSplit(hour: int, min: int, sec: int, nsec: int, n: int)
    requires ValidClock(hour, min, sec, nsec)
    requires n == ClockNanos(hour, min, sec, nsec)
    ensures 0 <= n < NsPerDay
    ensures n / NsPerHour == hour && n % NsPerHour / NsPerMinute == min
    ensures n % NsPerMinute / NsPerSecond == sec && n % NsPerSecond == nsec
  {
    var r2 := sec * NsPerSecond + nsec;
    var r := min * NsPerMinute + r2;
    DivModOf(n, NsPerHour, hour, r);
    DivModOf(r, NsPerMinute, min, r2);
    DivModOf(n, NsPerMinute, hour * 60 + min, r2);
    DivModOf(r2, NsPerSecond, sec, nsec);
    DivModOf(n, NsPerSecond, hour * 3600 + min * 60 + sec, nsec);
  }

  /**
   * `time.Date` with a valid date and clock builds an instant whose fields,
   * read back in the same zone, are exactly the ones given.
   */
  lemma {:induction false} DateFields(year: int, month: int, day: int, hour: int, min: int, sec: int,
                                      nsec: int, loc: Location)
    requires ValidDate(CivilDate(year, month, day))
    requires ValidClock(hour, min, sec, nsec)
    ensures var t := Date(year, month, day, hour, min, sec, nsec, loc);
      && t.loc == loc
      && LocalDays(t) == DaysSinceEpoch(year, month, day)
      && NanoOfDay(t) == ClockNanos(hour, min, sec, nsec)
      && DateOf(t) == CivilDate(year, month, day)
      && Hour(t) == hour && Minute(t) == min && Second(t) == sec && Nanosecond(t) == nsec
  {
    var t := Date(year, month, day, hour, min, sec, nsec, loc);
    var clock := ClockNanos(hour, min, sec, nsec);
    ClockSplit(hour, min, sec, nsec, clock);
    assert (month - 1) / 12 == 0 && (month - 1) % 12 + 1 == month;
    WallSplit(DaysSinceEpoch(year, month, day), clock, t);
    DateRoundTrip(CivilDate(year, month, day));
  }

  /** Reading the fields of an instant and rebuilding it with `time.Date` gives it back. */
  lemma {:induction false} Recompose(t: Instant)
    ensures Date(Year(t), Month(t), Day(t), Hour(t), Minute(t), Second(t), Nanosecond(t), t.loc) == t
  {
    ClockOf(t);
    var d := DateOf(t);
    assert DaysSinceEpoch(d.year, d.month, d.day) == LocalDays(t);
    assert (d.month - 1) / 12 == 0 && (d.month - 1) % 12 + 1 == d.month;
  }

  /**
   * In a fixed-offset zone, adding days with `AddDate` moves the instant by
   * whole days of 24 hours and keeps the clock.
   */
  lemma {:induction false} AddDaysShift(t: Instant, k: int)
    ensures AddDate(t, 0, 0, k) == Add(t, k * NsPerDay)
    ensures LocalDays(AddDate(t, 0, 0, k)) == LocalDays(t) + k
  {
    DateClockShift(Year(t), Month(t), Day(t), Hour(t), Minute(t), Second(t), Nanosecond(t), k, t.loc);
    Recompose(t);
    ShiftByDays(t, k);
  }

  /** Moving the day argument of `time.Date` by `k`, whatever the clock, moves the instant by `k` whole days. */
  lemma DateClockShift(y: int, m: int, d: int, h: int, mi: int, s: int, ns: int, k: int, loc: Location)
    ensures Date(y, m, d + k, h, mi, s, ns, loc) == Add(Date(y, m, d, h, mi, s, ns, loc), k * NsPerDay)
  {
  }

  /** `time.Date` with an in-range month, in closed form: whole days since the epoch, the clock, the zone offset. */
  lemma DateNanos(y: int, m: int, d: int, h: int, mi: int, s: int, ns: int, loc: Location)
    requires 1 <= m <= 12
    ensures Date(y, m, d, h, mi, s, ns, loc)
            == Instant(DaysSinceEpoch(y, m, d) * NsPerDay + ClockNanos(h, mi, s, ns) - loc.offsetSeconds * NsPerSecond, loc)
  {
    assert (m - 1) / 12 == 0 && (m - 1) % 12 + 1 == m;
  }

  /** Midnight of a date with an in-range month, in closed form. */
  lemma MidnightNanos(y: int, m: int, d: int, loc: Location)
    requires 1 <= m <= 12
    ensures Date(y, m, d, 0, 0, 0, 0, loc)
            == Instant(DaysSinceEpoch(y, m, d) * NsPerDay - loc.offsetSeconds * NsPerSecond, loc)
  {
    DateNanos(y, m, d, 0, 0, 0, 0, loc);
  }

  /** The last nanosecond of a date with an in-range month, in closed form. */
  lemma LastNanoNanos(y: int, m: int, d: int, loc: Location)
    requires 1 <= m <= 12
    ensures Date(y, m, d, 23, 59, 59, NsPerSecond - 1, loc)
            == Instant((DaysSinceEpoch(y, m, d) + 1) * NsPerDay - 1 - loc.offsetSeconds * NsPerSecond, loc)
  {
    DateNanos(y, m, d, 23, 59, 59, NsPerSecond - 1, loc);
  }

  /** The first instant of a valid date in zone `loc`, and how it relates to the date's days. */
  lemma {:induction false} MidnightOf(d: CivilDate, loc: Location)
    requires ValidDate(d)
    ensures Date(d.year, d.month, d.day, 0, 0, 0, 0, loc).unixNano
            == DaysSinceEpoch(d.year, d.month, d.day) * NsPerDay - loc.offsetSeconds * NsPerSecond
  {
    assert (d.month - 1) / 12 == 0 && (d.month - 1) % 12 + 1 == d.month;
  }

  /** The day before the first of a month is the last day of the previous month. */
  lemma {:induction false} FirstOfNextMonth(y: int, m: int)
    requires 1 <= m <= 12
    ensures var ny := if m == 12 then y + 1 else y;
            var nm := if m == 12 then 1 else m + 1;
            DaysSinceEpoch(ny, nm, 1) == DaysSinceEpoch(y, m, DaysIn(y, m)) + 1
  {
    MonthsTile(y, m);
    if m == 12 {
      YearsTile(y);
    }
  }

  /** Moving the day argument of `time.Date` by `k` moves the instant by `k` whole days. */
  lemma DateDayShift(y: int, m: int, d: int, k: int, loc: Location)
    ensures Date(y, m, d + k, 0, 0, 0, 0, loc) == Add(Date(y, m, d, 0, 0, 0, 0, loc), k * NsPerDay)
  {
  }

  /** Moving an instant by whole days in its own fixed zone shifts its date and keeps its clock. */
  lemma ShiftByDays(t: Instant, k: int)
    ensures var r := Add(t, k * NsPerDay);
      && r.loc == t.loc && LocalDays(r) == LocalDays(t) + k && NanoOfDay(r) == NanoOfDay(t)
      && Hour(r) == Hour(t) && Minute(r) == Minute(t) && Second(r) == Second(t)
      && Nanosecond(r) == Nanosecond(t)
  {
    var r := Add(t, k * NsPerDay);
    ClockOf(t);
    assert Wall(r) == (LocalDays(t) + k) * NsPerDay + NanoOfDay(t);
    WallSplit(LocalDays(t) + k, NanoOfDay(t), r);
  }
}

/**
 * The first and last instants of the hour, day, week, month, quarter and
 * year that contain a given time, in that time's own zone.
 */
module Boundary {
  import opened Results
  import opened GoInt
  import opened GoTime
  import opened Types
  import opened Comparer

  /** `time.Monday`; weekdays count from Sunday = 0. */
  const Monday: int := 1

  /** `dayEnd`: the clock of the last nanosecond of a day. */
  function DayEnd(): (r: (int, int, int, int))
    ensures ValidClock(r.0, r.1, r.2, r.3)
    ensures ClockNanos(r.0, r.1, r.2, r.3) == NsPerDay - 1
  {
    (23, 59, 59, NsPerSecond - 1)
  }

  /** The start day left by a sequence of `WithWeekStartDay` options over the default Monday. */
  function WeekStart(opts: seq<Int64>): Int64 {
    if opts == [] then Monday else opts[|opts| - 1]
  }

  function StartOfHour(v: MixedTime): (r: Instant)
    ensures r.loc == GetTime(v).loc
  {
    var at := GetTime(v);
    var d := DateOf(at);
    Date(d.year, d.month, d.day, Hour(at), 0, 0, 0, at.loc)
  }

  function EndOfHour(v: MixedTime): (r: Instant)
    ensures r.loc == GetTime(v).loc
  {
    var at := GetTime(v);
    var d := DateOf(at);
    var (_, minute, sec, nsec) := DayEnd();
    Date(d.year, d.month, d.day, Hour(at), minute, sec, nsec, at.loc)
  }

  function StartOfDay(v: MixedTime): (r: Instant)
    ensures r.loc == GetTime(v).loc
  {
    var at := GetTime(v);
    var d := DateOf(at);
    Date(d.year, d.month, d.day, 0, 0, 0, 0, at.loc)
  }

  function EndOfDay(v: MixedTime): (r: Instant)
    ensures r.loc == GetTime(v).loc
  {
    var at := GetTime(v);
    var d := DateOf(at);
    var (hour, minute, sec, nsec) := DayEnd();
    Date(d.year, d.month, d.day, hour, minute, sec, nsec, at.loc)
  }

  /** Go's `x % 7` followed by the `+7` fix-up of a negative remainder. */
  function Mod7(x: int): int {
    var k := Rem(x, 7);
    if k < 0 then k + 7 else k
  }

  /** How many days back the week containing `at` started, for the given start day. */
  function DaysToSubtract(at: Instant, startDay: Int64): int {
    Mod7(Wrap(Weekday(at) - startDay))
  }

  /** How many days ahead the week containing `at` ends, for the given start day. */
  function DaysToAdd(at: Instant, startDay: Int64): int {
    var endDay := Rem(Wrap(startDay + 6), 7);
    Mod7(Wrap(endDay - Weekday(at)))
  }

  /** The body of `StartOfWeek` once the options have been folded into a start day. */
  function WeekStartFor(at: Instant, startDay: Int64): Instant {
    var start := AddDate(at, 0, 0, -DaysToSubtract(at, startDay));
    var d := DateOf(start);
    Date(d.year, d.month, d.day, 0, 0, 0, 0, at.loc)
  }

  /** The body of `EndOfWeek` once the options have been folded into a start day. */
  function WeekEndFor(at: Instant, startDay: Int64): Instant {
    var end := AddDate(at, 0, 0, DaysToAdd(at, startDay));
    var d := DateOf(end);
    var (hour, minute, sec, nsec) := DayEnd();
    Date(d.year, d.month, d.day, hour, minute, sec, nsec, at.loc)
  }

  function StartOfWeek(v: MixedTime, opts: seq<Int64>): (r: Instant)
    ensures r.loc == GetTime(v).loc
  {
    WeekStartFor(GetTime(v), WeekStart(opts))
  }

  function EndOfWeek(v: MixedTime, opts: seq<Int64>): (r: Instant)
    ensures r.loc == GetTime(v).loc
  {
    WeekEndFor(GetTime(v), WeekStart(opts))
  }

  function StartOfMonth(v: MixedTime): (r: Instant)
    ensures r.loc == GetTime(v).loc
  {
    var at := GetTime(v);
    var d := DateOf(at);
    Date(d.year, d.month, 1, 0, 0, 0, 0, at.loc)
  }

  /** The month after `(y, m)`, rolling December over into January of the next year. */
  function NextMonth(y: int, m: int): (int, int) {
    if m + 1 > 12 then (y + 1, 1) else (y, m + 1)
  }

  function EndOfMonth(v: MixedTime): (r: Instant)
    ensures r.loc == GetTime(v).loc
  {
    var at := GetTime(v);
    var d := DateOf(at);
    var (year, nextMonth) := NextMonth(d.year, d.month);
    Add(Date(year, nextMonth, 1, 0, 0, 0, 0, at.loc), -1)
  }

  /** `(month-1)/3 + 1`; the month is 1..12, so Go's truncating division agrees with `/`. */
  function Quarter(month: int): int {
    (month - 1) / 3 + 1
  }

  function StartOfQuarter(v: MixedTime): (r: Instant)
    ensures r.loc == GetTime(v).loc
  {
    var at := GetTime(v);
    var d := DateOf(at);
    var startMonth := (Quarter(d.month) - 1) * 3 + 1;
    Date(d.year, startMonth, 1, 0, 0, 0, 0, at.loc)
  }

  function EndOfQuarter(v: MixedTime): (r: Instant)
    ensures r.loc == GetTime(v).loc
  {
    var at := GetTime(v);
    var d := DateOf(at);
    var endMonth := Quarter(d.month) * 3;
    var (year, next) := NextMonth(d.year, endMonth);
    Add(Date(year, next, 1, 0, 0, 0, 0, at.loc), -1)
  }

  function StartOfYear(v: MixedTime): (r: Instant)
    ensures r.loc == GetTime(v).loc
  {
    var at := GetTime(v);
    Date(Year(at), 1, 1, 0, 0, 0, 0, at.loc)
  }

  function EndOfYear(v: MixedTime): (r: Instant)
    ensures r.loc == GetTime(v).loc
  {
    var at := GetTime(v);
    Add(Date(Year(at) + 1, 1, 1, 0, 0, 0, 0, at.loc), -1)
  }

  // ---- Hours and days ----

  /** The date of an instant, read as days since the epoch, is its local day count. */
  lemma DateDays(t: Instant)
    ensures DaysSinceEpoch(DateOf(t).year, DateOf(t).month, DateOf(t).day) == LocalDays(t)
  {
  }

  /**
   * `StartOfHour` keeps the date, hour and zone and zeroes the rest, so it
   * is the latest whole hour not after the time.
   */
  lemma StartOfHourSpec(v: MixedTime)
    ensures var at, r := GetTime(v), StartOfHour(v);
      && r.loc == at.loc && DateOf(r) == DateOf(at) && Hour(r) == Hour(at)
      && Minute(r) == 0 && Second(r) == 0 && Nanosecond(r) == 0
      && r.unixNano <= at.unixNano < r.unixNano + NsPerHour
  {
    var at, r := GetTime(v), StartOfHour(v);
    var d := DateOf(at);
    ClockOf(at);
    DateDays(at);
    DateFields(d.year, d.month, d.day, Hour(at), 0, 0, 0, at.loc);
    HourWithin(r, at);
  }

  /** The top of the hour of `at`, on its date and in its zone, is within the hour before it. */
  lemma HourWithin(r: Instant, at: Instant)
    requires r.loc == at.loc && LocalDays(r) == LocalDays(at) && NanoOfDay(r) == ClockNanos(Hour(at), 0, 0, 0)
    ensures r.unixNano <= at.unixNano < r.unixNano + NsPerHour
  {
    ClockOf(at);
    Apart(r, at);
  }

  /** `EndOfHour` is the same hour at 59:59.999999999: one hour after its start, less a nanosecond. */
  lemma EndOfHourSpec(v: MixedTime)
    ensures var at, r := GetTime(v), EndOfHour(v);
      && r.loc == at.loc && DateOf(r) == DateOf(at) && Hour(r) == Hour(at)
      && Minute(r) == 59 && Second(r) == 59 && Nanosecond(r) == NsPerSecond - 1
      && r.unixNano == StartOfHour(v).unixNano + NsPerHour - 1
      && at.unixNano <= r.unixNano
  {
    var at, r := GetTime(v), EndOfHour(v);
    var d := DateOf(at);
    ClockOf(at);
    DateDays(at);
    DateFields(d.year, d.month, d.day, Hour(at), 59, 59, NsPerSecond - 1, at.loc);
    ClockOf(r);
    StartOfHourSpec(v);
    ClockOf(StartOfHour(v));
  }

  /** `StartOfDay` is midnight of the time's date in its zone, at most a day before it. */
  lemma StartOfDaySpec(v: MixedTime)
    ensures var at, r := GetTime(v), StartOfDay(v);
      && r.loc == at.loc && DateOf(r) == DateOf(at)
      && Hour(r) == 0 && Minute(r) == 0 && Second(r) == 0 && Nanosecond(r) == 0
      && r.unixNano <= at.unixNano < r.unixNano + NsPerDay
  {
    var at, r := GetTime(v), StartOfDay(v);
    var d := DateOf(at);
    ClockOf(at);
    DateDays(at);
    DateFields(d.year, d.month, d.day, 0, 0, 0, 0, at.loc);
    ClockOf(r);
  }

  /** `EndOfDay` is 23:59:59.999999999 of the same date: a day after its start, less a nanosecond. */
  lemma EndOfDaySpec(v: MixedTime)
    ensures var at, r := GetTime(v), EndOfDay(v);
      && r.loc == at.loc && DateOf(r) == DateOf(at)
      && Hour(r) == 23 && Minute(r) == 59 && Second(r) == 59 && Nanosecond(r) == NsPerSecond - 1
      && r.unixNano == StartOfDay(v).unixNano + NsPerDay - 1
      && at.unixNano <= r.unixNano
  {
    var at, r := GetTime(v), EndOfDay(v);
    var d := DateOf(at);
    ClockOf(at);
    DateDays(at);
    DateFields(d.year, d.month, d.day, 23, 59, 59, NsPerSecond - 1, at.loc);
    ClockOf(r);
    StartOfDaySpec(v);
    ClockOf(StartOfDay(v));
  }

  lemma StartOfHourIdempotent(v: MixedTime)
    ensures StartOfHour(Value(StartOfHour(v))) == StartOfHour(v)
  {
    StartOfHourSpec(v);
  }

  lemma StartOfDayIdempotent(v: MixedTime)
    ensures StartOfDay(Value(StartOfDay(v))) == StartOfDay(v)
  {
    StartOfDaySpec(v);
  }

  // ---- Weeks ----

  /** Go's remainder by 7 lies strictly between -7 and 7 and is congruent to the dividend. */
  lemma Rem7(x: int)
    ensures -7 < Rem(x, 7) < 7
    ensures Rem(x, 7) % 7 == x % 7
  {
    RemSign(x, 7);
    var a: int := Abs(x);
    assert a == (a / 7) * 7 + a % 7;
    if x < 0 {
      assert x == 0 - (a / 7) * 7 - a % 7;
    }
  }

  /** The `+7` fix-up turns Go's remainder into the non-negative one. */
  lemma Mod7Euclid(x: int)
    ensures Mod7(x) == x % 7
    ensures 0 <= Mod7(x) < 7
  {
    Rem7(x);
  }

  /** Stepping back by `(w - s) % 7` days from weekday `w` lands on weekday `s`. */
  lemma WeekdayBack(a: int, s: int)
    ensures (a - (a % 7 - s) % 7) % 7 == s % 7
  {
    var w := a % 7;
    var q := (w - s) % 7;
    assert a == (a / 7) * 7 + w;
    assert w - s == ((w - s) / 7) * 7 + q;
    assert a - q == s + (a / 7 + (w - s) / 7) * 7;
  }

  /** Stepping forward by `(e - w) % 7` days from weekday `w` lands on weekday `e`. */
  lemma WeekdayAhead(a: int, e: int)
    ensures (a + (e - a % 7) % 7) % 7 == e % 7
  {
    var w := a % 7;
    var q := (e - w) % 7;
    assert a == (a / 7) * 7 + w;
    assert e - w == ((e - w) / 7) * 7 + q;
    assert a + q == e + (a / 7 - (e - w) / 7) * 7;
  }

  /** From the start of a week to its end is six days. */
  lemma WeekLength(e: int, w: int, s: int)
    requires e % 7 == (s + 6) % 7
    ensures (e - w) % 7 + (w - s) % 7 == 6
  {
    var p, q := (e - w) % 7, (w - s) % 7;
    assert e - w == ((e - w) / 7) * 7 + p;
    assert w - s == ((w - s) / 7) * 7 + q;
    assert e == (e / 7) * 7 + e % 7;
    assert s + 6 == ((s + 6) / 7) * 7 + (s + 6) % 7;
    assert p + q == 6 + (e / 7 - (s + 6) / 7 - (e - w) / 7 - (w - s) / 7) * 7;
  }

  /** Without wrap-around, the days to subtract are `(weekday - startDay)` modulo 7. */
  lemma DaysToSubtractMod(at: Instant, startDay: Int64)
    requires startDay >= MinInt64 + 7
    ensures DaysToSubtract(at, startDay) == (Weekday(at) - startDay) % 7
  {
    Mod7Euclid(Weekday(at) - startDay);
  }

  /** Without wrap-around, the days to add are `((startDay + 6) - weekday)` modulo 7. */
  lemma DaysToAddMod(at: Instant, startDay: Int64)
    requires startDay <= MaxInt64 - 6
    ensures var e := Rem(startDay + 6, 7);
      DaysToAdd(at, startDay) == (e - Weekday(at)) % 7 && e % 7 == (startDay + 6) % 7
  {
    var e := Rem(startDay + 6, 7);
    Rem7(startDay + 6);
    Mod7Euclid(e - Weekday(at));
  }

  /** Midnight or the last nanosecond of the date of `t`, in zone `loc`. */
  lemma DayBounds(t: Instant, loc: Location)
    ensures var d := DateOf(t);
      var s := Date(d.year, d.month, d.day, 0, 0, 0, 0, loc);
      var e := Date(d.year, d.month, d.day, 23, 59, 59, NsPerSecond - 1, loc);
      && s.loc == loc && e.loc == loc && LocalDays(s) == LocalDays(t) && LocalDays(e) == LocalDays(t)
      && NanoOfDay(s) == 0 && NanoOfDay(e) == NsPerDay - 1
      && Hour(s) == 0 && Minute(s) == 0 && Second(s) == 0 && Nanosecond(s) == 0
      && Hour(e) == 23 && Minute(e) == 59 && Second(e) == 59 && Nanosecond(e) == NsPerSecond - 1
  {
    var d := DateOf(t);
    DateDays(t);
    DateFields(d.year, d.month, d.day, 0, 0, 0, 0, loc);
    DateFields(d.year, d.month, d.day, 23, 59, 59, NsPerSecond - 1, loc);
  }

  /** Midnight of the date `k` days before `at`, in `at`'s zone. */
  lemma MidnightDaysBefore(at: Instant, k: int)
    ensures var d := DateOf(AddDate(at, 0, 0, -k));
      var r := Date(d.year, d.month, d.day, 0, 0, 0, 0, at.loc);
      r.loc == at.loc && NanoOfDay(r) == 0 && LocalDays(r) == LocalDays(at) - k
  {
    AddDaysShift(at, -k);
    DayBounds(AddDate(at, 0, 0, -k), at.loc);
  }

  /** The last nanosecond of the date `k` days after `at`, in `at`'s zone. */
  lemma DayEndDaysAfter(at: Instant, k: int)
    ensures var d := DateOf(AddDate(at, 0, 0, k));
      var r := Date(d.year, d.month, d.day, 23, 59, 59, NsPerSecond - 1, at.loc);
      r.loc == at.loc && NanoOfDay(r) == NsPerDay - 1 && LocalDays(r) == LocalDays(at) + k
  {
    AddDaysShift(at, k);
    DayBounds(AddDate(at, 0, 0, k), at.loc);
  }

  lemma WeekStartDays(at: Instant, s: Int64)
    requires s >= MinInt64 + 7
    ensures var r := WeekStartFor(at, s);
      && r.loc == at.loc && NanoOfDay(r) == 0
      && LocalDays(r) == LocalDays(at) - (Weekday(at) - s) % 7
  {
    DaysToSubtractMod(at, s);
    MidnightDaysBefore(at, DaysToSubtract(at, s));
  }

  lemma WeekEndDays(at: Instant, s: Int64)
    requires s <= MaxInt64 - 6
    ensures var r := WeekEndFor(at, s);
      && r.loc == at.loc && NanoOfDay(r) == NsPerDay - 1
      && LocalDays(r) == LocalDays(at) + (Rem(s + 6, 7) - Weekday(at)) % 7
  {
    DaysToAddMod(at, s);
    DayEndDaysAfter(at, DaysToAdd(at, s));
  }

  /** Two instants in the same zone, `k` whole days and a clock difference apart. */
  lemma Apart(r: Instant, at: Instant)
    requires r.loc == at.loc
    ensures at.unixNano - r.unixNano
      == (LocalDays(at) - LocalDays(r)) * NsPerDay + NanoOfDay(at) - NanoOfDay(r)
    ensures 0 <= NanoOfDay(at) < NsPerDay && 0 <= NanoOfDay(r) < NsPerDay
  {
    ClockOf(r);
    ClockOf(at);
  }

  /** Midnight of a day up to six days before `at` is within the seven days before it. */
  lemma MidnightWithin(r: Instant, at: Instant, k: int)
    requires r.loc == at.loc && NanoOfDay(r) == 0 && LocalDays(r) == LocalDays(at) - k && 0 <= k <= 6
    ensures LocalDays(at) - 6 <= LocalDays(r) <= LocalDays(at)
    ensures r.unixNano <= at.unixNano < r.unixNano + 7 * NsPerDay
  {
    Apart(r, at);
    assert 0 <= k * NsPerDay <= 6 * NsPerDay;
  }

  /** The end of a day up to six days after `at` is within the seven days after it. */
  lemma DayEndWithin(r: Instant, at: Instant, k: int)
    requires r.loc == at.loc && NanoOfDay(r) == NsPerDay - 1 && LocalDays(r) == LocalDays(at) + k && 0 <= k <= 6
    ensures LocalDays(at) <= LocalDays(r) <= LocalDays(at) + 6
    ensures at.unixNano <= r.unixNano < at.unixNano + 7 * NsPerDay
  {
    Apart(at, r);
    assert 0 <= k * NsPerDay <= 6 * NsPerDay;
  }

  /** The day `(e - w) % 7` days after a day of weekday `w` has weekday `e % 7`. */
  lemma EndWeekdayOn(r: Instant, at: Instant, s: int)
    requires LocalDays(r) == LocalDays(at) + (Rem(s + 6, 7) - Weekday(at)) % 7
    ensures Weekday(r) == (s + 6) % 7
  {
    Rem7(s + 6);
    WeekdayAhead(LocalDays(at) + 4, Rem(s + 6, 7));
  }

  /** The day `(w - s) % 7` days before a day of weekday `w` has weekday `s % 7`. */
  lemma StartWeekdayOn(r: Instant, at: Instant, s: int)
    requires LocalDays(r) == LocalDays(at) - (Weekday(at) - s) % 7
    ensures Weekday(r) == s % 7
  {
    WeekdayBack(LocalDays(at) + 4, s);
  }

  lemma WeekStartWeekday(at: Instant, s: Int64)
    requires s >= MinInt64 + 7
    ensures Weekday(WeekStartFor(at, s)) == s % 7
  {
    WeekStartDays(at, s);
    StartWeekdayOn(WeekStartFor(at, s), at, s);
  }

  lemma WeekStartNear(at: Instant, s: Int64)
    requires s >= MinInt64 + 7
    ensures var r := WeekStartFor(at, s);
      && LocalDays(at) - 6 <= LocalDays(r) <= LocalDays(at)
      && r.unixNano <= at.unixNano < r.unixNano + 7 * NsPerDay
  {
    WeekStartDays(at, s);
    MidnightWithin(WeekStartFor(at, s), at, (Weekday(at) - s) % 7);
  }

  lemma WeekEndWeekday(at: Instant, s: Int64)
    requires s <= MaxInt64 - 6
    ensures Weekday(WeekEndFor(at, s)) == (s + 6) % 7
  {
    WeekEndDays(at, s);
    EndWeekdayOn(WeekEndFor(at, s), at, s);
  }

  lemma WeekEndNear(at: Instant, s: Int64)
    requires s <= MaxInt64 - 6
    ensures var r := WeekEndFor(at, s);
      && LocalDays(at) <= LocalDays(r) <= LocalDays(at) + 6
      && at.unixNano <= r.unixNano < at.unixNano + 7 * NsPerDay
  {
    WeekEndDays(at, s);
    DayEndWithin(WeekEndFor(at, s), at, (Rem(s + 6, 7) - Weekday(at)) % 7);
  }

  lemma WeekStartSpecFor(at: Instant, s: Int64)
    requires s >= MinInt64 + 7
    ensures var r := WeekStartFor(at, s);
      && r.loc == at.loc && NanoOfDay(r) == 0
      && Weekday(r) == s % 7
      && LocalDays(at) - 6 <= LocalDays(r) <= LocalDays(at)
      && r.unixNano <= at.unixNano < r.unixNano + 7 * NsPerDay
  {
    WeekStartDays(at, s);
    WeekStartWeekday(at, s);
    WeekStartNear(at, s);
  }

  /** The weekday a week starts on, for a start day known only through its residue. */
  lemma WeekdayOfStart(at: Instant, s: Int64, w: int)
    requires s >= MinInt64 + 7 && s % 7 == w
    ensures Weekday(WeekStartFor(at, s)) == w
  {
    WeekStartWeekday(at, s);
  }

  /** The weekday a week ends on, for a start day known only through its residue. */
  lemma WeekdayOfEnd(at: Instant, s: Int64, w: int)
    requires s <= MaxInt64 - 6 && (s + 6) % 7 == w
    ensures Weekday(WeekEndFor(at, s)) == w
  {
    WeekEndWeekday(at, s);
  }

  /**
   * `StartOfWeek` is midnight of the latest day on or before the time whose
   * weekday is the configured start day (Monday by default), so less than
   * seven days before it.
   */
  lemma StartOfWeekSpec(v: MixedTime, opts: seq<Int64>)
    requires WeekStart(opts) >= MinInt64 + 7
    ensures var at, r, s := GetTime(v), StartOfWeek(v, opts), WeekStart(opts);
      && r.loc == at.loc && NanoOfDay(r) == 0
      && Weekday(r) == s % 7
      && (opts == [] ==> Weekday(r) == Monday)
      && LocalDays(at) - 6 <= LocalDays(r) <= LocalDays(at)
      && r.unixNano <= at.unixNano < r.unixNano + 7 * NsPerDay
  {
    var at, s := GetTime(v), WeekStart(opts);
    WeekStartSpecFor(at, s);
    StartOfWeekDefault(v, opts);
  }

  /** Without options, weeks start on Monday. */
  lemma StartOfWeekDefault(v: MixedTime, opts: seq<Int64>)
    ensures opts == [] ==> Weekday(StartOfWeek(v, opts)) == Monday
  {
    if opts == [] {
      WeekdayOfStart(GetTime(v), WeekStart(opts), Monday);
    }
  }

  /**
   * `EndOfWeek` is the last nanosecond of the earliest day on or after the
   * time whose weekday is `(startDay + 6) % 7` (Sunday by default).
   */
  lemma EndOfWeekSpec(v: MixedTime, opts: seq<Int64>)
    requires WeekStart(opts) <= MaxInt64 - 6
    ensures var at, r, s := GetTime(v), EndOfWeek(v, opts), WeekStart(opts);
      && r.loc == at.loc && NanoOfDay(r) == NsPerDay - 1
      && Weekday(r) == (s + 6) % 7
      && (opts == [] ==> Weekday(r) == 0)
      && LocalDays(at) <= LocalDays(r) <= LocalDays(at) + 6
      && at.unixNano <= r.unixNano
  {
    var at, s := GetTime(v), WeekStart(opts);
    WeekEndDays(at, s);
    WeekEndWeekday(at, s);
    WeekEndNear(at, s);
    EndOfWeekDefault(v, opts);
  }

  /** Without options, weeks end on Sunday. */
  lemma EndOfWeekDefault(v: MixedTime, opts: seq<Int64>)
    ensures opts == [] ==> Weekday(EndOfWeek(v, opts)) == 0
  {
    if opts == [] {
      WeekdayOfEnd(GetTime(v), WeekStart(opts), 0);
    }
  }

  /** The days back to the start of a week and ahead to its end add up to six. */
  lemma SixDaysApart(r: Instant, e: Instant, at: Instant, s: int, end: int)
    requires LocalDays(r) == LocalDays(at) - (Weekday(at) - s) % 7
    requires LocalDays(e) == LocalDays(at) + (end - Weekday(at)) % 7 && end % 7 == (s + 6) % 7
    ensures LocalDays(e) == LocalDays(r) + 6
  {
    WeekLength(end, Weekday(at), s);
  }

  lemma WeekSpanDays(at: Instant, s: Int64)
    requires MinInt64 + 7 <= s <= MaxInt64 - 6
    ensures LocalDays(WeekEndFor(at, s)) == LocalDays(WeekStartFor(at, s)) + 6
  {
    WeekStartDays(at, s);
    WeekEndDays(at, s);
    Rem7(s + 6);
    SixDaysApart(WeekStartFor(at, s), WeekEndFor(at, s), at, s, Rem(s + 6, 7));
  }

  /** From midnight of one day to the last nanosecond of the day `n` days later. */
  lemma MidnightToEnd(r: Instant, e: Instant, n: int)
    requires r.loc == e.loc && NanoOfDay(r) == 0 && NanoOfDay(e) == NsPerDay - 1
    requires LocalDays(e) == LocalDays(r) + n
    ensures e.unixNano == r.unixNano + (n + 1) * NsPerDay - 1
  {
    Apart(r, e);
  }

  lemma WeekSpanFor(at: Instant, s: Int64)
    requires MinInt64 + 7 <= s <= MaxInt64 - 6
    ensures LocalDays(WeekEndFor(at, s)) == LocalDays(WeekStartFor(at, s)) + 6
    ensures WeekEndFor(at, s).unixNano == WeekStartFor(at, s).unixNano + 7 * NsPerDay - 1
  {
    WeekSpanDays(at, s);
    WeekStartDays(at, s);
    WeekEndDays(at, s);
    MidnightToEnd(WeekStartFor(at, s), WeekEndFor(at, s), 6);
  }

  /** A week runs for seven days less a nanosecond: its end is six days after its start. */
  lemma WeekSpan(v: MixedTime, opts: seq<Int64>)
    requires MinInt64 + 7 <= WeekStart(opts) <= MaxInt64 - 6
    ensures LocalDays(EndOfWeek(v, opts)) == LocalDays(StartOfWeek(v, opts)) + 6
    ensures EndOfWeek(v, opts).unixNano == StartOfWeek(v, opts).unixNano + 7 * NsPerDay - 1
  {
    WeekSpanFor(GetTime(v), WeekStart(opts));
  }

  // ---- Months, quarters and years ----

  /** One nanosecond before the first of the next month is the last nanosecond of this month's last day. */
  lemma LastNanoOfMonth(y: int, m: int, loc: Location)
    requires 1 <= m <= 12
    ensures var (ny, nm) := NextMonth(y, m);
      Add(Date(ny, nm, 1, 0, 0, 0, 0, loc), -1)
        == Date(y, m, DaysIn(y, m), 23, 59, 59, NsPerSecond - 1, loc)
  {
    var (ny, nm) := NextMonth(y, m);
    assert DaysSinceEpoch(ny, nm, 1) == DaysSinceEpoch(y, m, DaysIn(y, m)) + 1 by {
      FirstOfNextMonth(y, m);
    }
    MidnightNanos(ny, nm, 1, loc);
    LastNanoNanos(y, m, DaysIn(y, m), loc);
  }

  /** Midnight of a valid date, and the last nanosecond of it. */
  lemma MidnightFields(y: int, m: int, d: int, loc: Location)
    requires ValidDate(CivilDate(y, m, d))
    ensures var r := Date(y, m, d, 0, 0, 0, 0, loc);
      && r.loc == loc && DateOf(r) == CivilDate(y, m, d) && NanoOfDay(r) == 0
      && LocalDays(r) == DaysSinceEpoch(y, m, d)
    ensures var r := Date(y, m, d, 23, 59, 59, NsPerSecond - 1, loc);
      && r.loc == loc && DateOf(r) == CivilDate(y, m, d) && NanoOfDay(r) == NsPerDay - 1
      && LocalDays(r) == DaysSinceEpoch(y, m, d)
  {
    DateFields(y, m, d, 0, 0, 0, 0, loc);
    DateFields(y, m, d, 23, 59, 59, NsPerSecond - 1, loc);
  }

  /** An earlier or equal date in the same zone, at midnight, is not later. */
  lemma MidnightNotAfter(r: Instant, at: Instant)
    requires r.loc == at.loc && NanoOfDay(r) == 0 && LocalDays(r) <= LocalDays(at)
    ensures r.unixNano <= at.unixNano
  {
    Apart(r, at);
  }

  /** A later or equal date in the same zone, at its last nanosecond, is not earlier. */
  lemma DayEndNotBefore(r: Instant, at: Instant)
    requires r.loc == at.loc && NanoOfDay(r) == NsPerDay - 1 && LocalDays(at) <= LocalDays(r)
    ensures at.unixNano <= r.unixNano
  {
    Apart(at, r);
  }

  /** Within a year, a later valid date has at least as many days since the epoch. */
  lemma {:induction false} DaysInYearOrder(y: int, m1: int, d1: int, m2: int, d2: int)
    requires ValidDate(CivilDate(y, m1, d1)) && ValidDate(CivilDate(y, m2, d2))
    requires m1 < m2 || (m1 == m2 && d1 <= d2)
    ensures DaysSinceEpoch(y, m1, d1) <= DaysSinceEpoch(y, m2, d2)
    decreases m2 - m1
  {
    if m1 < m2 {
      MonthsTile(y, m1);
      DaysInYearOrder(y, m1 + 1, 1, m2, d2);
    }
  }

  /** `StartOfMonth` is midnight of the first of the time's month, in its zone. */
  lemma StartOfMonthSpec(v: MixedTime)
    ensures var at, r := GetTime(v), StartOfMonth(v);
      && r.loc == at.loc && NanoOfDay(r) == 0
      && DateOf(r) == CivilDate(Year(at), Month(at), 1)
      && LocalDays(r) == LocalDays(at) - (Day(at) - 1)
      && r.unixNano <= at.unixNano
  {
    var at := GetTime(v);
    var d := DateOf(at);
    DateDays(at);
    DaysInYearOrder(d.year, d.month, 1, d.month, d.day);
    MidnightBefore(at, StartOfMonth(v), d.year, d.month, 1);
  }

  /**
   * `EndOfMonth` is the last nanosecond of the month's last day: 31, 30, or
   * for February 29 in leap years and 28 otherwise; December's end comes
   * from January 1 of the next year.
   */
  lemma EndOfMonthSpec(v: MixedTime)
    ensures var at, r := GetTime(v), EndOfMonth(v);
      && r.loc == at.loc && NanoOfDay(r) == NsPerDay - 1
      && DateOf(r) == CivilDate(Year(at), Month(at), DaysIn(Year(at), Month(at)))
      && Hour(r) == 23 && Minute(r) == 59 && Second(r) == 59 && Nanosecond(r) == NsPerSecond - 1
      && (Month(at) == 2 ==> (Day(r) == 29 <==> IsLeapYear(Year(at))) && 28 <= Day(r) <= 29)
      && at.unixNano <= r.unixNano
  {
    var at := GetTime(v);
    var d := DateOf(at);
    var last := DaysIn(d.year, d.month);
    LastNanoOfMonth(d.year, d.month, at.loc);
    DateFields(d.year, d.month, last, 23, 59, 59, NsPerSecond - 1, at.loc);
    DateDays(at);
    DayEndNotBefore(EndOfMonth(v), at);
  }

  /** The end of a month is one nanosecond before the start of the next one. */
  lemma MonthsAdjoin(v: MixedTime)
    ensures var at := GetTime(v); var (ny, nm) := NextMonth(Year(at), Month(at));
      Add(EndOfMonth(v), 1) == Date(ny, nm, 1, 0, 0, 0, 0, at.loc)
  {
  }

  /** The quarter of a month and the months it spans. */
  lemma QuarterRange(m: int)
    requires 1 <= m <= 12
    ensures 1 <= Quarter(m) <= 4
    ensures var start := (Quarter(m) - 1) * 3 + 1;
      start in {1, 4, 7, 10} && start <= m <= start + 2 && Quarter(m) * 3 == start + 2
  {
  }

  /** The first month of a quarter lies in that quarter. */
  lemma QuarterStartFixed(m: int)
    requires 1 <= m <= 12
    ensures Quarter((Quarter(m) - 1) * 3 + 1) == Quarter(m)
  {
    QuarterRange(m);
  }

  /** `StartOfQuarter` is midnight of the first day of the quarter's first month. */
  lemma StartOfQuarterSpec(v: MixedTime)
    ensures var at, r := GetTime(v), StartOfQuarter(v);
      var start := (Quarter(Month(at)) - 1) * 3 + 1;
      && r.loc == at.loc && NanoOfDay(r) == 0
      && DateOf(r) == CivilDate(Year(at), start, 1)
      && start in {1, 4, 7, 10} && start <= Month(at) <= start + 2
      && r.unixNano <= at.unixNano
  {
    var at := GetTime(v);
    var d := DateOf(at);
    var start := (Quarter(d.month) - 1) * 3 + 1;
    QuarterRange(d.month);
    DateDays(at);
    DaysInYearOrder(d.year, start, 1, d.month, d.day);
    MidnightBefore(at, StartOfQuarter(v), d.year, start, 1);
  }

  /** Midnight of a valid date not after the local date of `at` is not after `at`. */
  lemma MidnightBefore(at: Instant, r: Instant, y: int, m: int, d: int)
    requires ValidDate(CivilDate(y, m, d)) && r == Date(y, m, d, 0, 0, 0, 0, at.loc)
    requires DaysSinceEpoch(y, m, d) <= LocalDays(at)
    ensures r.loc == at.loc && NanoOfDay(r) == 0 && DateOf(r) == CivilDate(y, m, d)
    ensures LocalDays(r) == DaysSinceEpoch(y, m, d)
    ensures r.unixNano <= at.unixNano
  {
    MidnightFields(y, m, d, at.loc);
    MidnightNotAfter(r, at);
  }

  /** The last nanosecond of a valid date not before the local date of `at` is not before `at`. */
  lemma DayEndAfter(at: Instant, r: Instant, y: int, m: int, d: int)
    requires ValidDate(CivilDate(y, m, d)) && r == Date(y, m, d, 23, 59, 59, NsPerSecond - 1, at.loc)
    requires LocalDays(at) <= DaysSinceEpoch(y, m, d)
    ensures r.loc == at.loc && NanoOfDay(r) == NsPerDay - 1 && DateOf(r) == CivilDate(y, m, d)
    ensures Hour(r) == 23 && Minute(r) == 59 && Second(r) == 59 && Nanosecond(r) == NsPerSecond - 1
    ensures at.unixNano <= r.unixNano
  {
    DateFields(y, m, d, 23, 59, 59, NsPerSecond - 1, at.loc);
    DayEndNotBefore(r, at);
  }

  /** `EndOfQuarter` is the end of the last day of month `quarter * 3`. */
  lemma EndOfQuarterIs(v: MixedTime)
    ensures var at := GetTime(v); var end := Quarter(Month(at)) * 3;
      EndOfQuarter(v) == Date(Year(at), end, DaysIn(Year(at), end), 23, 59, 59, NsPerSecond - 1, at.loc)
  {
    var at := GetTime(v);
    var d := DateOf(at);
    QuarterRange(d.month);
    LastNanoOfMonth(d.year, Quarter(d.month) * 3, at.loc);
  }

  /** `EndOfQuarter` is the last nanosecond of the last day of month `quarter * 3`. */
  lemma EndOfQuarterSpec(v: MixedTime)
    ensures var at, r := GetTime(v), EndOfQuarter(v);
      var end := Quarter(Month(at)) * 3;
      && r.loc == at.loc && NanoOfDay(r) == NsPerDay - 1
      && DateOf(r) == CivilDate(Year(at), end, DaysIn(Year(at), end))
      && end in {3, 6, 9, 12} && end - 2 <= Month(at) <= end
      && at.unixNano <= r.unixNano
  {
    var at := GetTime(v);
    var d := DateOf(at);
    var end := Quarter(d.month) * 3;
    QuarterRange(d.month);
    EndOfQuarterIs(v);
    DateDays(at);
    DaysInYearOrder(d.year, d.month, d.day, end, DaysIn(d.year, end));
    DayEndAfter(at, EndOfQuarter(v), d.year, end, DaysIn(d.year, end));
  }

  /** `StartOfYear` is January 1 at midnight of the time's year. */
  lemma StartOfYearSpec(v: MixedTime)
    ensures var at, r := GetTime(v), StartOfYear(v);
      && r.loc == at.loc && NanoOfDay(r) == 0
      && DateOf(r) == CivilDate(Year(at), 1, 1)
      && r.unixNano <= at.unixNano
  {
    var at := GetTime(v);
    var d := DateOf(at);
    DateDays(at);
    DaysInYearOrder(d.year, 1, 1, d.month, d.day);
    MidnightBefore(at, StartOfYear(v), d.year, 1, 1);
  }

  /** `EndOfYear` is the end of December 31. */
  lemma EndOfYearIs(v: MixedTime)
    ensures EndOfYear(v) == Date(Year(GetTime(v)), 12, 31, 23, 59, 59, NsPerSecond - 1, GetTime(v).loc)
  {
    LastNanoOfMonth(Year(GetTime(v)), 12, GetTime(v).loc);
  }

  /** `EndOfYear` is December 31 at 23:59:59.999999999 of the time's year. */
  lemma EndOfYearSpec(v: MixedTime)
    ensures var at, r := GetTime(v), EndOfYear(v);
      && r.loc == at.loc && NanoOfDay(r) == NsPerDay - 1
      && DateOf(r) == CivilDate(Year(at), 12, 31)
      && Hour(r) == 23 && Minute(r) == 59 && Second(r) == 59 && Nanosecond(r) == NsPerSecond - 1
      && at.unixNano <= r.unixNano
  {
    var at := GetTime(v);
    var d := DateOf(at);
    EndOfYearIs(v);
    DateDays(at);
    DaysInYearOrder(d.year, d.month, d.day, 12, 31);
    DayEndAfter(at, EndOfYear(v), d.year, 12, 31);
  }

  /** A year lasts 365 or 366 days, less a nanosecond, from its start to its end. */
  lemma YearSpan(v: MixedTime)
    ensures EndOfYear(v).unixNano == StartOfYear(v).unixNano + DaysInYear(Year(GetTime(v))) * NsPerDay - 1
  {
    var at := GetTime(v);
    var y := Year(at);
    StartOfYearSpec(v);
    EndOfYearSpec(v);
    YearsTile(y);
    MonthsTile(y, 12);
    MidnightToEnd(StartOfYear(v), EndOfYear(v), DaysInYear(y) - 1);
  }

  /** Truncating to the month twice is truncating once. */
  lemma StartOfMonthIdempotent(v: MixedTime)
    ensures StartOfMonth(Value(StartOfMonth(v))) == StartOfMonth(v)
  {
    StartOfMonthSpec(v);
  }

  /** Truncating to the quarter twice is truncating once. */
  lemma StartOfQuarterIdempotent(v: MixedTime)
    ensures StartOfQuarter(Value(StartOfQuarter(v))) == StartOfQuarter(v)
  {
    StartOfQuarterSpec(v);
    QuarterStartFixed(Month(GetTime(v)));
  }

  /** Truncating to the year twice is truncating once. */
  lemma StartOfYearIdempotent(v: MixedTime)
    ensures StartOfYear(Value(StartOfYear(v))) == StartOfYear(v)
  {
    StartOfYearSpec(v);
  }

  /** Two day counts at most 6 apart that fall on the same weekday are the same day. */
  lemma SameWeekdayWithinWeek(x: int, y: int)
    requires x - 6 <= y <= x && (x + 4) % 7 == (y + 4) % 7
    ensures x == y
  {
    var q, r := (y + 4) / 7, (y + 4) % 7;
    var k := x - y;
    if r + k < 7 {
      DivModOf(x + 4, 7, q, r + k);
    } else {
      DivModOf(x + 4, 7, q + 1, r + k - 7);
    }
  }

  /** Two instants in the same zone on the same local day at the same clock time are equal. */
  lemma SameLocalInstant(t: Instant, u: Instant)
    requires t.loc == u.loc && LocalDays(t) == LocalDays(u) && NanoOfDay(t) == NanoOfDay(u)
    ensures t == u
  {
    Apart(t, u);
  }

  /** Taking the start of the week twice, with the same options, gives the same instant. */
  lemma StartOfWeekIdempotent(v: MixedTime, opts: seq<Int64>)
    requires WeekStart(opts) >= MinInt64 + 7
    ensures StartOfWeek(Value(StartOfWeek(v, opts)), opts) == StartOfWeek(v, opts)
  {
    var r := StartOfWeek(v, opts);
    var r2 := StartOfWeek(Value(r), opts);
    StartOfWeekSpec(v, opts);
    StartOfWeekSpec(Value(r), opts);
    SameWeekdayWithinWeek(LocalDays(r), LocalDays(r2));
    SameLocalInstant(r2, r);
  }
}

// Calendar arithmetic that can keep to the target month (internal/calculator).

module Calculator {
  import opened GoInt
  import opened GoTime
  import opened Helper

  // ---- Options ----

  /** `WithOverflow(enabled)`. */
  datatype AddDateSetting = WithOverflow(enabled: bool)

  /** `AddDateOption`: set when month arithmetic must not spill into the following month. */
  datatype AddDateOption = AddDateOption(notOverflow: bool)

  /** The options applied in order to an empty configuration. */
  function Configure(opts: seq<AddDateSetting>): (c: AddDateOption)
    ensures c.notOverflow <==> opts != [] && !opts[|opts| - 1].enabled
  {
    if opts == [] then AddDateOption(false)
    else Configure(opts[..|opts| - 1]).(notOverflow := !opts[|opts| - 1].enabled)
  }

  // ---- The specification ----

  /**
   * The year and month `months` months after January of `year`, counting
   * from month 1: the month lands in 1..12 and the total month count is kept.
   */
  function TargetMonth(year: int, months: int): (ym: (int, int))
    ensures 1 <= ym.1 <= 12
    ensures ym.0 * 12 + ym.1 == year * 12 + months
  {
    (year + (months - 1) / 12, (months - 1) % 12 + 1)
  }

  /** The dates the code singles out for clamping: a pure month or year step from the 31st, January 29-31 or February 29. */
  predicate Clamped(d: CivilDate, day: int) {
    day == 0 && (d.day == 31 || (d.month == 1 && d.day >= 29) || (d.month == 2 && d.day == 29))
  }

  /** `day`, lowered to `limit` when it is larger. */
  function Cap(day: int, limit: int): int {
    if day > limit then limit else day
  }

  /** The day of the month the no-overflow arithmetic asks `time.Date` for. */
  function TargetDay(d: CivilDate, day: int, ny: int, nm: int): int
    requires 1 <= nm <= 12
  {
    if Clamped(d, day) then Cap(d.day, DaysIn(ny, nm)) else d.day + day
  }

  /** `time.Date` at the clock time and in the zone of `at`. */
  function AtClockOf(at: Instant, y: int, m: int, d: int): Instant {
    Date(y, m, d, Hour(at), Minute(at), Second(at), Nanosecond(at), at.loc)
  }

  /**
   * The no-overflow arithmetic as written, from the date `original` that
   * `at.Date()` gives: the target month, the day (clamped in the singled-out
   * cases), and the clock time and zone of `at`.
   */
  function NoOverflow(at: Instant, original: CivilDate, year: int, month: int, day: int): Instant {
    var ym := TargetMonth(original.year + year, original.month + month);
    AtClockOf(at, ym.0, ym.1, TargetDay(original, day, ym.0, ym.1))
  }

  /** What `AddDate` returns: `time.AddDate` by default, the no-overflow arithmetic when overflow is disabled. */
  function AddDateSpec(at: Instant, year: int, month: int, day: int, opts: seq<AddDateSetting>): Instant {
    if Configure(opts).notOverflow then NoOverflow(at, DateOf(at), year, month, day)
    else GoTime.AddDate(at, year, month, day)
  }

  // ---- The code ----

  /**
   * `AddDate`: the month is normalised by stepping a year at a time, and the
   * day is clamped to the target month's length in the listed cases.
   */
  method AddDate(at: Instant, year: int, month: int, day: int, opts: seq<AddDateSetting>) returns (r: Instant)
    ensures r == AddDateSpec(at, year, month, day, opts)
  {
    var cnf := Configure(opts);
    if !cnf.notOverflow {
      return GoTime.AddDate(at, year, month, day);
    }
    var original := DateOf(at);
    var newYear := original.year + year;
    var newMonth := original.month + month;
    var newDay := original.day + day;
    ghost var total := newYear * 12 + newMonth;
    while newMonth > 12
      invariant newYear * 12 + newMonth == total
      decreases newMonth
    {
      newYear := newYear + 1;
      newMonth := newMonth - 12;
    }
    while newMonth < 1
      invariant newYear * 12 + newMonth == total
      invariant newMonth <= 12
      decreases -newMonth
    {
      newYear := newYear - 1;
      newMonth := newMonth + 12;
    }
    SameTarget(original.year + year, original.month + month, newYear, newMonth);
    if Clamped(original, day) {
      var daysInNewMonth := DaysInMonth(newYear, newMonth);
      DaysInMonthIsLastDay(newYear, newMonth);
      newDay := original.day;
      if newDay > daysInNewMonth {
        newDay := daysInNewMonth;
      }
    }
    r := AtClockOf(at, newYear, newMonth, newDay);
    NoOverflowIs(at, original, year, month, day, newYear, newMonth, newDay);
  }

  // ---- Properties ----

  /** A year and an in-range month with the same total month count are the target month. */
  lemma SameTarget(year: int, months: int, ny: int, nm: int)
    requires 1 <= nm <= 12 && ny * 12 + nm == year * 12 + months
    ensures TargetMonth(year, months) == (ny, nm)
  {
    DivModOf(months - 1, 12, ny - year, nm - 1);
  }

  /** The no-overflow result, given its target month and day. */
  lemma NoOverflowIs(at: Instant, original: CivilDate, year: int, month: int, day: int, ny: int, nm: int, nd: int)
    requires TargetMonth(original.year + year, original.month + month) == (ny, nm)
    requires nd == TargetDay(original, day, ny, nm)
    ensures NoOverflow(at, original, year, month, day) == AtClockOf(at, ny, nm, nd)
  {
  }

  /** Without options, or with `WithOverflow(true)` last, the result is `time.AddDate`, which may spill over. */
  lemma OverflowByDefault(at: Instant, year: int, month: int, day: int, opts: seq<AddDateSetting>)
    requires opts == [] || opts[|opts| - 1].enabled
    ensures AddDateSpec(at, year, month, day, opts) == GoTime.AddDate(at, year, month, day)
  {
  }

  /** On an in-range month, the clock time and zone of `at` are kept and the date is the given day count. */
  lemma {:induction false} DateKeepsClock(at: Instant, r: Instant, y: int, m: int, d: int)
    requires 1 <= m <= 12 && r == AtClockOf(at, y, m, d)
    ensures && r.loc == at.loc && LocalDays(r) == DaysSinceEpoch(y, m, d) && NanoOfDay(r) == NanoOfDay(at)
            && Hour(r) == Hour(at) && Minute(r) == Minute(at) && Second(r) == Second(at)
            && Nanosecond(r) == Nanosecond(at)
  {
    ClockOf(at);
    DateNanos(y, m, d, Hour(at), Minute(at), Second(at), Nanosecond(at), at.loc);
    WallSplit(DaysSinceEpoch(y, m, d), NanoOfDay(at), r);
  }

  /** An instant whose local day count is that of a valid date is on that date. */
  lemma {:induction false} ReadsAs(r: Instant, y: int, m: int, d: int)
    requires ValidDate(CivilDate(y, m, d)) && LocalDays(r) == DaysSinceEpoch(y, m, d)
    ensures DateOf(r) == CivilDate(y, m, d)
  {
    DateRoundTrip(CivilDate(y, m, d));
  }

  /** An instant built at the clock of `at` on a day within an in-range month: its date, clock and zone. */
  lemma LandsOn(at: Instant, r: Instant, y: int, m: int, d: int)
    requires 1 <= m <= 12 && 1 <= d <= DaysIn(y, m)
    requires r == AtClockOf(at, y, m, d)
    ensures DateOf(r) == CivilDate(y, m, d) && r.loc == at.loc && NanoOfDay(r) == NanoOfDay(at)
  {
    DateKeepsClock(at, r, y, m, d);
    ReadsAs(r, y, m, d);
  }

  /**
   * With overflow disabled, the hour, minute, second, nanosecond and zone of
   * `at` are kept, and the date is the computed day counted from the first
   * of the target month, whose total month count is the original one plus
   * `year` years and `month` months.
   */
  lemma NoOverflowKeepsClock(at: Instant, original: CivilDate, year: int, month: int, day: int)
    ensures var r := NoOverflow(at, original, year, month, day);
      var ym := TargetMonth(original.year + year, original.month + month);
      && 1 <= ym.1 <= 12 && ym.0 * 12 + ym.1 == (original.year + year) * 12 + original.month + month
      && r.loc == at.loc && LocalDays(r) == DaysSinceEpoch(ym.0, ym.1, TargetDay(original, day, ym.0, ym.1))
      && Hour(r) == Hour(at) && Minute(r) == Minute(at) && Second(r) == Second(at)
      && Nanosecond(r) == Nanosecond(at)
  {
    var ym := TargetMonth(original.year + year, original.month + month);
    DateKeepsClock(at, NoOverflow(at, original, year, month, day), ym.0, ym.1, TargetDay(original, day, ym.0, ym.1));
  }

  /**
   * In the singled-out cases the result is in the target month, on the
   * original day or on the target month's last day when that is earlier.
   */
  lemma ClampedDay(at: Instant, original: CivilDate, year: int, month: int)
    requires Clamped(original, 0)
    ensures var ym := TargetMonth(original.year + year, original.month + month);
      DateOf(NoOverflow(at, original, year, month, 0)) == CivilDate(ym.0, ym.1, Cap(original.day, DaysIn(ym.0, ym.1)))
  {
    var ym := TargetMonth(original.year + year, original.month + month);
    var nd := Cap(original.day, DaysIn(ym.0, ym.1));
    NoOverflowIs(at, original, year, month, 0, ym.0, ym.1, nd);
    LandsOn(at, NoOverflow(at, original, year, month, 0), ym.0, ym.1, nd);
  }

  /** Outside the singled-out cases the day is `originalDay + day`, left to `time.Date` to normalise. */
  lemma UnclampedDay(at: Instant, original: CivilDate, year: int, month: int, day: int)
    requires !Clamped(original, day)
    ensures var ym := TargetMonth(original.year + year, original.month + month);
      NoOverflow(at, original, year, month, day) == AtClockOf(at, ym.0, ym.1, original.day + day)
  {
  }

  /** The 31st plus one month, with overflow disabled, is the last day of the following month. */
  lemma EndOfMonthStaysInMonth(at: Instant)
    requires Day(at) == 31
    ensures var ym := TargetMonth(Year(at), Month(at) + 1);
      DateOf(AddDateSpec(at, 0, 1, 0, [WithOverflow(false)])) == CivilDate(ym.0, ym.1, DaysIn(ym.0, ym.1))
  {
    ClampedDay(at, DateOf(at), 0, 1);
  }

  // ---- The cases the list misses ----

  /** A day count past the end of February is the matching day of March. */
  lemma PastFebruary(y: int, nd: int)
    requires DaysIn(y, 2) < nd
    ensures DaysSinceEpoch(y, 2, nd) == DaysSinceEpoch(y, 3, nd - DaysIn(y, 2))
  {
    MonthsTile(y, 2);
  }

  /** A day number past the end of February, at the clock of `at`, is read back as a March date. */
  lemma {:induction false} FebruarySpill(at: Instant, r: Instant, y: int, nd: int)
    requires DaysIn(y, 2) < nd <= 30 && r == AtClockOf(at, y, 2, nd)
    ensures DateOf(r) == CivilDate(y, 3, nd - DaysIn(y, 2))
  {
    PastFebruary(y, nd);
    DateKeepsClock(at, r, y, 2, nd);
    ReadsAs(r, y, 3, nd - DaysIn(y, 2));
  }

  /**
   * As written, a pure month or year step from a date outside the listed
   * ones that lands on a too-short month spills over: that can only happen
   * when the target is February, and the result is then a March date.
   */
  lemma SpillsPastTarget(at: Instant, original: CivilDate, year: int, month: int)
    requires ValidDate(original) && !Clamped(original, 0)
    requires var ym := TargetMonth(original.year + year, original.month + month);
      original.day > DaysIn(ym.0, ym.1)
    ensures var ym := TargetMonth(original.year + year, original.month + month);
      && ym.1 == 2
      && DateOf(NoOverflow(at, original, year, month, 0)) == CivilDate(ym.0, 3, original.day - DaysIn(ym.0, 2))
  {
    var ym := TargetMonth(original.year + year, original.month + month);
    FebruarySpill(at, NoOverflow(at, original, year, month, 0), ym.0, original.day);
  }

  /** As written, 2023-03-30 minus one month with overflow disabled is 2023-03-02, not a February date. */
  lemma MarchThirtiethSpills(at: Instant)
    requires DateOf(at) == CivilDate(2023, 3, 30)
    ensures DateOf(AddDateSpec(at, 0, -1, 0, [WithOverflow(false)])) == CivilDate(2023, 3, 2)
  {
    SameTarget(2023, 2, 2023, 2);
    SpillsPastTarget(at, DateOf(at), 0, -1);
  }

  /**
   * The intended no-overflow arithmetic: a pure month or year step keeps the
   * original day unless the target month is shorter, in which case it takes
   * the target month's last day; other steps are left to `time.Date`.
   */
  function Clamping(at: Instant, original: CivilDate, year: int, month: int, day: int): Instant {
    var ym := TargetMonth(original.year + year, original.month + month);
    AtClockOf(at, ym.0, ym.1, if day == 0 then Cap(original.day, DaysIn(ym.0, ym.1)) else original.day + day)
  }

  /**
   * With the intended rule, every pure month or year step from a valid date
   * lands in the target month, on the original day or the month's last day,
   * at the original clock time and in the original zone.
   */
  lemma ClampingSpec(at: Instant, original: CivilDate, year: int, month: int)
    requires ValidDate(original)
    ensures var r := Clamping(at, original, year, month, 0);
      var ym := TargetMonth(original.year + year, original.month + month);
      && DateOf(r) == CivilDate(ym.0, ym.1, Cap(original.day, DaysIn(ym.0, ym.1)))
      && r.loc == at.loc && NanoOfDay(r) == NanoOfDay(at)
  {
    var ym := TargetMonth(original.year + year, original.month + month);
    LandsOn(at, Clamping(at, original, year, month, 0), ym.0, ym.1, Cap(original.day, DaysIn(ym.0, ym.1)));
  }

  /** The intended rule and the code agree everywhere except on the spilled-over cases. */
  lemma ClampingAgrees(at: Instant, original: CivilDate, year: int, month: int, day: int)
    requires var ym := TargetMonth(original.year + year, original.month + month);
      day != 0 || Clamped(original, 0) || original.day <= DaysIn(ym.0, ym.1)
    ensures Clamping(at, original, year, month, day) == NoOverflow(at, original, year, month, day)
  {
  }
}

/** The calendar helpers of `internal/helper`: the leap-year rule and month lengths. */
module Helper {
  import opened GoInt
  import opened GoTime

  /** `IsLeap`: the chain of divisibility tests, with Go's truncating `%`. */
  predicate IsLeap(year: int)
    ensures IsLeap(year) ==> year % 4 == 0
    ensures year % 400 == 0 ==> IsLeap(year)
  {
    RemZero4(year);
    RemZero100(year);
    RemZero400(year);
    if Rem(year, 4) != 0 then false
    else if Rem(year, 100) != 0 then true
    else Rem(year, 400) == 0
  }

  /**
   * `DaysInMonth`: day 0 of the following month, which `time.Date`
   * normalises to the last day of `month` (December goes through month 13).
   */
  function DaysInMonth(year: int, month: int): (r: int)
    ensures 1 <= r <= 31
  {
    Day(Date(year, month + 1, 0, 0, 0, 0, 0, UTC))
  }

  lemma RemZero4(a: int)
    ensures (Rem(a, 4) == 0) <==> (a % 4 == 0)
  {
    RemSign(a, 4);
  }

  lemma RemZero100(a: int)
    ensures (Rem(a, 100) == 0) <==> (a % 100 == 0)
  {
    RemSign(a, 100);
  }

  lemma RemZero400(a: int)
    ensures (Rem(a, 400) == 0) <==> (a % 400 == 0)
  {
    RemSign(a, 400);
  }

  /** The divisibility chain is the Gregorian rule: every 4th year, except centuries not divisible by 400. */
  lemma IsLeapRule(year: int)
    ensures IsLeap(year) <==> (year % 4 == 0 && (year % 100 != 0 || year % 400 == 0))
    ensures IsLeap(year) <==> IsLeapYear(year)
  {
    RemZero4(year);
    RemZero100(year);
    RemZero400(year);
  }

  lemma KnownYears()
    ensures IsLeap(2000) && IsLeap(2020) && IsLeap(2024)
    ensures !IsLeap(1900) && !IsLeap(2021) && !IsLeap(2023)
  {
    IsLeapRule(2000);
    IsLeapRule(2020);
    IsLeapRule(2024);
    IsLeapRule(1900);
    IsLeapRule(2021);
    IsLeapRule(2023);
  }

  /** Day 0 of the month after `month` is the same instant as the last day of `month`. */
  lemma {:induction false} DayZero(year: int, month: int)
    requires 1 <= month <= 12
    ensures Date(year, month + 1, 0, 0, 0, 0, 0, UTC) == Date(year, month, DaysIn(year, month), 0, 0, 0, 0, UTC)
  {
    var ny := if month == 12 then year + 1 else year;
    var nm := if month == 12 then 1 else month + 1;
    assert DaysSinceEpoch(ny, nm, 1) == DaysSinceEpoch(year, month, DaysIn(year, month)) + 1 by {
      FirstOfNextMonth(year, month);
    }
    DayZeroNanos(year, month);
    MidnightNanos(year, month, DaysIn(year, month), UTC);
  }

  /** `time.Date` carries month 13 into January of the next year. */
  lemma DayZeroNanos(year: int, month: int)
    requires 1 <= month <= 12
    ensures var ny := if month == 12 then year + 1 else year;
      var nm := if month == 12 then 1 else month + 1;
      Date(year, month + 1, 0, 0, 0, 0, 0, UTC) == Instant(DaysSinceEpoch(ny, nm, 0) * NsPerDay, UTC)
  {
    assert month / 12 == (if month == 12 then 1 else 0);
    assert month % 12 + 1 == (if month == 12 then 1 else month + 1);
  }

  /** For a real month, "day 0 of the next month" is that month's last day. */
  lemma {:induction false} DaysInMonthIsLastDay(year: int, month: int)
    requires 1 <= month <= 12
    ensures DaysInMonth(year, month) == DaysIn(year, month)
  {
    DayZero(year, month);
    DateFields(year, month, DaysIn(year, month), 0, 0, 0, 0, UTC);
  }

  /**
   * Month lengths: 31 for January, March, May, July, August, October and
   * December, 30 for April, June, September and November, and 29 or 28 for
   * February as the year is leap or not.
   */
  lemma DaysInMonthTable(year: int, month: int)
    requires 1 <= month <= 12
    ensures 28 <= DaysInMonth(year, month) <= 31
    ensures month == 2 ==> (DaysInMonth(year, month) == 29 <==> IsLeap(year))
    ensures month == 2 && !IsLeap(year) ==> DaysInMonth(year, month) == 28
    ensures month in {1, 3, 5, 7, 8, 10, 12} ==> DaysInMonth(year, month) == 31
    ensures month in {4, 6, 9, 11} ==> DaysInMonth(year, month) == 30
  {
    IsLeapRule(year);
    DaysInMonthIsLastDay(year, month);
  }
}

/**
 * `DiffValue`, the difference between two instants in nanoseconds, its
 * conversions to coarser units and its human-readable form.
 */
module Difference {
  import opened Results
  import opened GoInt
  import opened GoTime
  import opened Decimal

  /** `DiffValue`: a signed 64-bit count of nanoseconds. */
  datatype DiffValue = DiffValue(ns: Int64)

  /** `r` is `n / unit` with the fraction dropped toward zero, as Go's integer division does. */
  predicate Truncates(n: int, unit: int, r: int)
    requires unit > 0
  {
    Abs(r) * unit <= Abs(n) < (Abs(r) + 1) * unit && (r > 0 ==> n > 0) && (r < 0 ==> n < 0)
  }

  /** Go's `int64(d) / unit` for a positive unit: never overflows. */
  function Per(d: DiffValue, unit: int): (r: Int64)
    requires unit > 0
    ensures Truncates(d.ns, unit, r)
  {
    QuoBounds(d.ns, unit);
    QuoShrinks(d.ns, unit);
    Quo(d.ns, unit)
  }

  function Nanoseconds(d: DiffValue): (r: Int64)
    ensures Truncates(d.ns, 1, r)
  {
    d.ns
  }

  function Microseconds(d: DiffValue): (r: Int64)
    ensures Truncates(d.ns, 1000, r)
  {
    Per(d, 1000)
  }

  function Milliseconds(d: DiffValue): (r: Int64)
    ensures Truncates(d.ns, 1_000_000, r)
  {
    Per(d, 1_000_000)
  }

  function Seconds(d: DiffValue): (r: Int64)
    ensures Truncates(d.ns, NsPerSecond, r)
  {
    Per(d, NsPerSecond)
  }

  function Minutes(d: DiffValue): (r: Int64)
    ensures Truncates(d.ns, NsPerMinute, r)
  {
    Per(d, NsPerMinute)
  }

  function Hours(d: DiffValue): (r: Int64)
    ensures Truncates(d.ns, NsPerHour, r)
  {
    Per(d, NsPerHour)
  }

  function Days(d: DiffValue): (r: Int64)
    ensures Truncates(d.ns, NsPerDay, r)
  {
    Per(d, NsPerDay)
  }

  function Weeks(d: DiffValue): (r: Int64)
    ensures Truncates(d.ns, 7 * NsPerDay, r)
  {
    Per(d, 7 * NsPerDay)
  }

  /** The day count left by a sequence of `DiffWithDaysPer(n)` options: the last one wins. */
  function DaysPer(opts: seq<int>, default: int): int {
    if opts == [] then default else opts[|opts| - 1]
  }

  /**
   * `int64(d) / (int64(days) * 24 * 3600 * 1e9)`, every step in 64-bit
   * arithmetic. A divisor that wraps to zero makes Go panic.
   */
  function PerDays(d: DiffValue, days: int): (r: Int64)
    requires Wrap(days * NsPerDay) != 0
    ensures 0 < days * NsPerDay <= MaxInt64 ==> Truncates(d.ns, days * NsPerDay, r)
  {
    var divisor := Wrap(days * NsPerDay);
    if 0 < days * NsPerDay <= MaxInt64 then
      assert divisor == days * NsPerDay;
      Per(d, divisor)
    else
      Wrap(Quo(d.ns, divisor))
  }

  /** `Months`: whole months of 30 days unless an option says otherwise. */
  function Months(d: DiffValue, opts: seq<int>): (r: Int64)
    requires Wrap(DaysPer(opts, 30) * NsPerDay) != 0
    ensures var days := DaysPer(opts, 30);
      0 < days * NsPerDay <= MaxInt64 ==> Truncates(d.ns, days * NsPerDay, r)
    ensures opts == [] ==> Truncates(d.ns, 30 * NsPerDay, r)
  {
    PerDays(d, DaysPer(opts, 30))
  }

  /** `Years`: whole years of 365 days unless an option says otherwise. */
  function Years(d: DiffValue, opts: seq<int>): (r: Int64)
    requires Wrap(DaysPer(opts, 365) * NsPerDay) != 0
    ensures var days := DaysPer(opts, 365);
      0 < days * NsPerDay <= MaxInt64 ==> Truncates(d.ns, days * NsPerDay, r)
    ensures opts == [] ==> Truncates(d.ns, 365 * NsPerDay, r)
  {
    PerDays(d, DaysPer(opts, 365))
  }

  /** Truncating toward zero: every accessor of the opposite difference is the opposite count. */
  lemma AccessorsOdd(d: DiffValue)
    requires d.ns != MinInt64
    ensures var e := DiffValue(-d.ns);
      && Nanoseconds(e) == -Nanoseconds(d) && Microseconds(e) == -Microseconds(d)
      && Milliseconds(e) == -Milliseconds(d) && Seconds(e) == -Seconds(d)
      && Minutes(e) == -Minutes(d) && Hours(e) == -Hours(d)
      && Days(e) == -Days(d) && Weeks(e) == -Weeks(d)
  {
    QuoOdd(d.ns, 1000);
    QuoOdd(d.ns, 1_000_000);
    QuoOdd(d.ns, NsPerSecond);
    QuoOdd(d.ns, NsPerMinute);
    QuoOdd(d.ns, NsPerHour);
    QuoOdd(d.ns, NsPerDay);
    QuoOdd(d.ns, 7 * NsPerDay);
  }

  /** Each accessor is the next finer one divided by the ratio of their units, truncated again. */
  lemma AccessorsNest(d: DiffValue)
    ensures Microseconds(d) == Quo(Nanoseconds(d), 1000)
    ensures Milliseconds(d) == Quo(Microseconds(d), 1000)
    ensures Seconds(d) == Quo(Milliseconds(d), 1000)
    ensures Minutes(d) == Quo(Seconds(d), 60)
    ensures Hours(d) == Quo(Minutes(d), 60)
    ensures Days(d) == Quo(Hours(d), 24)
    ensures Weeks(d) == Quo(Days(d), 7)
  {
    QuoQuo(d.ns, 1000, 1000);
    QuoQuo(d.ns, 1_000_000, 1000);
    QuoQuo(d.ns, NsPerSecond, 60);
    QuoQuo(d.ns, NsPerMinute, 60);
    QuoQuo(d.ns, NsPerHour, 24);
    QuoQuo(d.ns, NsPerDay, 7);
  }

  /** Whole months and years are whole days divided by the days per period, when that divisor fits. */
  lemma PeriodsFromDays(d: DiffValue, opts: seq<int>)
    requires 0 < DaysPer(opts, 30) && DaysPer(opts, 30) * NsPerDay <= MaxInt64
    requires 0 < DaysPer(opts, 365) && DaysPer(opts, 365) * NsPerDay <= MaxInt64
    ensures Months(d, opts) == Quo(Days(d), DaysPer(opts, 30))
    ensures Years(d, opts) == Quo(Days(d), DaysPer(opts, 365))
  {
    QuoQuo(d.ns, NsPerDay, DaysPer(opts, 30));
    QuoQuo(d.ns, NsPerDay, DaysPer(opts, 365));
  }

  /** The units `String` writes. */
  datatype Unit = Nanos | Micros | Millis | Secs | Mins | Hrs

  function UnitName(u: Unit): string {
    match u
    case Nanos => "ns"
    case Micros => "μs"
    case Millis => "ms"
    case Secs => "s"
    case Mins => "m"
    case Hrs => "h"
  }

  function UnitLength(u: Unit): int {
    match u
    case Nanos => 1
    case Micros => 1000
    case Millis => 1_000_000
    case Secs => NsPerSecond
    case Mins => NsPerMinute
    case Hrs => NsPerHour
  }

  /** One `formatTime(value, unit)` call. */
  datatype Term = Term(count: int, unit: Unit)

  /** `formatTime`: nothing for a zero count, otherwise the count and its unit. */
  function FormatTime(t: Term): string {
    if t.count == 0 then "" else Itoa(t.count) + UnitName(t.unit)
  }

  /** Terms written one after another. */
  function Join(ts: seq<Term>): string {
    if ts == [] then "" else FormatTime(ts[0]) + Join(ts[1..])
  }

  /**
   * The terms `String` writes for the magnitude `abs`: the magnitude in the
   * largest unit below a second, or whole seconds, or minutes and seconds,
   * or hours, minutes and seconds.
   */
  function Terms(abs: int): seq<Term> {
    if abs < 1000 then [Term(abs, Nanos)]
    else if abs < 1_000_000 then [Term(abs / 1000, Micros)]
    else if abs < NsPerSecond then [Term(abs / 1_000_000, Millis)]
    else if abs < NsPerMinute then [Term(abs / NsPerSecond, Secs)]
    else if abs < NsPerHour then
      [Term(abs / NsPerMinute, Mins), Term(abs % NsPerMinute / NsPerSecond, Secs)]
    else
      var remaining := abs % NsPerHour;
      [Term(abs / NsPerHour, Hrs), Term(remaining / NsPerMinute, Mins),
       Term(remaining % NsPerMinute / NsPerSecond, Secs)]
  }

  /**
   * `String` as written: the magnitude is `-d` in 64-bit arithmetic, which
   * for the most negative value wraps back to itself.
   */
  function String(d: DiffValue): (r: string)
    ensures d.ns < 0 ==> |r| > 0 && r[0] == '-'
  {
    var n: int := d.ns;
    var abs := if n < 0 then Wrap(-n) else n;
    var sign := if d.ns < 0 then "-" else "";
    sign + Join(Terms(abs))
  }

  /** `String` with the magnitude taken exactly. */
  function Render(d: DiffValue): (r: string)
    ensures d.ns < 0 ==> |r| > 0 && r[0] == '-'
  {
    var sign := if d.ns < 0 then "-" else "";
    sign + Join(Terms(Abs(d.ns)))
  }

  /** `String` and `Render` differ only on the most negative difference. */
  lemma StringAgrees(d: DiffValue)
    requires d.ns != MinInt64
    ensures String(d) == Render(d)
  {
  }

  lemma JoinOne(t: Term)
    ensures Join([t]) == FormatTime(t)
  {
    assert [t][1..] == [];
    assert FormatTime(t) + "" == FormatTime(t);
  }

  /** A text whose terms start with a minus sign does not read back. */
  lemma DoubleMinus(s: string)
    requires |s| >= 2 && s[0] == '-' && s[1] == '-'
    ensures Decode(s) == None
  {
    assert s[1..][0] == '-';
  }

  lemma StringOfMostNegative(d: DiffValue)
    requires d.ns == MinInt64
    ensures String(d) == "-" + (Itoa(d.ns) + "ns")
  {
    var n: int := d.ns;
    assert Wrap(-n) == n;
    var t := Term(n, Nanos);
    assert Terms(n) == [t];
    JoinOne(t);
  }

  /**
   * The most negative difference is written with two minus signs, as
   * `-` followed by `Itoa` of the most negative value, and does not read back.
   */
  lemma StringMostNegative(d: DiffValue)
    requires d.ns == MinInt64
    ensures String(d) == "-" + Itoa(d.ns) + "ns"
    ensures String(d)[..2] == "--"
    ensures Decode(String(d)) == None
  {
    StringOfMostNegative(d);
    MinusBeforeNegative(String(d), Itoa(d.ns));
  }

  /** A minus sign written before a negative number's text. */
  lemma MinusBeforeNegative(s: string, i: string)
    requires |i| >= 1 && i[0] == '-' && s == "-" + (i + "ns")
    ensures s == "-" + i + "ns" && s[..2] == "--" && Decode(s) == None
  {
    assert s[1] == i[0];
    DoubleMinus(s);
  }

  /** Whether a sequence of terms can be read back: non-negative counts. */
  predicate Readable(ts: seq<Term>) {
    forall i :: 0 <= i < |ts| ==> ts[i].count >= 0
  }

  /** The nanoseconds a sequence of terms stands for. */
  function Sum(ts: seq<Term>): int {
    if ts == [] then 0 else ts[0].count * UnitLength(ts[0].unit) + Sum(ts[1..])
  }

  lemma TermsShape(abs: int)
    requires abs >= 0
    ensures |Terms(abs)| >= 1 && Readable(Terms(abs))
    ensures abs > 0 ==> Terms(abs)[0].count > 0
  {
  }

  lemma {:induction false} JoinLead(ts: seq<Term>)
    requires |ts| >= 1 && ts[0].count > 0
    ensures |Join(ts)| > 0 && IsDigit(Join(ts)[0])
  {
    assert Join(ts)[0] == Digits(ts[0].count)[0];
  }

  /** `String` is empty exactly when there is no difference. */
  lemma StringEmpty(d: DiffValue)
    ensures String(d) == "" <==> d.ns == 0
  {
    if d.ns > 0 {
      TermsShape(d.ns);
      JoinLead(Terms(d.ns));
    } else if d.ns == 0 {
      assert Terms(0) == [Term(0, Nanos)];
      assert Join(Terms(0)) == "" + Join([]);
    }
  }

  /** A non-zero difference is written with a leading minus sign exactly when it is negative. */
  lemma StringSign(d: DiffValue)
    requires d.ns != 0
    ensures |String(d)| > 0
    ensures String(d)[0] == '-' <==> d.ns < 0
  {
    if d.ns > 0 {
      TermsShape(d.ns);
      JoinLead(Terms(d.ns));
    }
  }

  /** Negating a difference (other than the most negative) only adds or removes the minus sign. */
  lemma StringNegate(d: DiffValue)
    requires MinInt64 < d.ns < 0
    ensures String(d) == "-" + String(DiffValue(-d.ns))
  {
  }

  // ---- The written format, range by range ----

  /** The minus sign `String` writes for a negative difference. */
  function SignText(d: DiffValue): string {
    if d.ns < 0 then "-" else ""
  }

  lemma JoinTwo(a: Term, b: Term)
    ensures Join([a, b]) == FormatTime(a) + FormatTime(b)
  {
    assert [a, b][1..] == [b];
    JoinOne(b);
  }

  lemma JoinThree(a: Term, b: Term, c: Term)
    ensures Join([a, b, c]) == FormatTime(a) + (FormatTime(b) + FormatTime(c))
  {
    assert [a, b, c][1..] == [b, c];
    JoinTwo(b, c);
  }

  /** Regrouping a written text: concatenation is associative. */
  lemma Regroup(p: string, x: string, u: string, y: string, z: string)
    ensures p + ((x + u) + (y + z)) == p + x + u + y + z
  {
  }

  /** What one term writes for a positive count. */
  lemma WritesCount(t: Term)
    requires t.count > 0
    ensures FormatTime(t) == Itoa(t.count) + UnitName(t.unit)
  {
  }

  /** Whole minutes and seconds of a magnitude, as `String` takes them apart. */
  lemma MinutesSecondsOf(a: int, m: int, sec: int)
    requires a >= 0 && m * 60 + sec == a / NsPerSecond && 0 <= sec < 60
    ensures a / NsPerMinute == m && a % NsPerMinute / NsPerSecond == sec
  {
    var f := a % NsPerSecond;
    assert a == m * NsPerMinute + (sec * NsPerSecond + f);
    DivModOf(a, NsPerMinute, m, sec * NsPerSecond + f);
    DivModOf(sec * NsPerSecond + f, NsPerSecond, sec, f);
  }

  /** Whole hours, minutes and seconds of a magnitude, as `String` takes them apart. */
  lemma HoursMinutesSecondsOf(a: int, h: int, m: int, sec: int)
    requires a >= 0 && h * 3600 + m * 60 + sec == a / NsPerSecond && 0 <= m < 60 && 0 <= sec < 60
    ensures a / NsPerHour == h
    ensures a % NsPerHour / NsPerMinute == m && a % NsPerHour % NsPerMinute / NsPerSecond == sec
  {
    var f := a % NsPerSecond;
    var rem := m * NsPerMinute + sec * NsPerSecond + f;
    assert a == h * NsPerHour + rem;
    DivModOf(a, NsPerHour, h, rem);
    MinutesSecondsOf(rem, m, sec);
    assert rem / NsPerSecond == m * 60 + sec by {
      DivModOf(rem, NsPerSecond, m * 60 + sec, f);
    }
  }

  /** `String`, with the magnitude taken apart into its terms. */
  lemma StringTerms(d: DiffValue)
    requires d.ns != MinInt64
    ensures String(d) == SignText(d) + Join(Terms(Abs(d.ns)))
  {
  }

  /** A single term of a positive count is written as that count and its unit. */
  lemma SingleTerm(d: DiffValue, t: Term)
    requires d.ns != MinInt64 && Terms(Abs(d.ns)) == [t] && t.count > 0
    ensures String(d) == SignText(d) + Itoa(t.count) + UnitName(t.unit)
  {
    StringTerms(d);
    JoinOne(t);
    WritesCount(t);
  }

  /**
   * Below a minute exactly one unit is written: nanoseconds below 1μs,
   * microseconds below 1ms, milliseconds below 1s and seconds below 1m,
   * each count being the difference in that unit, truncated.
   */
  lemma StringBelowMinute(d: DiffValue)
    requires d.ns != MinInt64
    ensures var a := Abs(d.ns);
      && (0 < a < 1000 ==> String(d) == SignText(d) + Itoa(a) + "ns")
      && (1000 <= a < 1_000_000 ==> String(d) == SignText(d) + Itoa(Abs(Microseconds(d))) + "μs")
      && (1_000_000 <= a < NsPerSecond ==> String(d) == SignText(d) + Itoa(Abs(Milliseconds(d))) + "ms")
      && (NsPerSecond <= a < NsPerMinute ==> String(d) == SignText(d) + Itoa(Abs(Seconds(d))) + "s")
  {
    var a := Abs(d.ns);
    if 0 < a < 1000 {
      SingleTerm(d, Term(a, Nanos));
    } else if 1000 <= a < 1_000_000 {
      SingleTerm(d, Term(a / 1000, Micros));
      assert Abs(Microseconds(d)) == a / 1000;
    } else if 1_000_000 <= a < NsPerSecond {
      SingleTerm(d, Term(a / 1_000_000, Millis));
      assert Abs(Milliseconds(d)) == a / 1_000_000;
    } else if NsPerSecond <= a < NsPerMinute {
      SingleTerm(d, Term(a / NsPerSecond, Secs));
      assert Abs(Seconds(d)) == a / NsPerSecond;
    }
  }

  /**
   * From one minute up to one hour, whole minutes are written, followed by
   * whole seconds only when there are any.
   */
  lemma StringMinutes(d: DiffValue, m: int, sec: int)
    requires d.ns != MinInt64 && NsPerMinute <= Abs(d.ns) < NsPerHour
    requires m * 60 + sec == Abs(d.ns) / NsPerSecond && 0 <= sec < 60
    ensures 1 <= m < 60
    ensures String(d) == SignText(d) + Itoa(m) + "m" + (if sec > 0 then Itoa(sec) + "s" else "")
  {
    var a := Abs(d.ns);
    MinutesSecondsOf(a, m, sec);
    assert Terms(a) == [Term(m, Mins), Term(sec, Secs)];
    StringTerms(d);
    JoinTwo(Term(m, Mins), Term(sec, Secs));
    WritesCount(Term(m, Mins));
    var z := if sec > 0 then Itoa(sec) + "s" else "";
    assert FormatTime(Term(sec, Secs)) == z;
    Regroup(SignText(d), Itoa(m), "m", z, "");
    assert z + "" == z;
  }

  /**
   * From one hour up, whole hours are written, then whole minutes and whole
   * seconds, each only when non-zero.
   */
  lemma StringHours(d: DiffValue, h: int, m: int, sec: int)
    requires d.ns != MinInt64 && NsPerHour <= Abs(d.ns)
    requires h * 3600 + m * 60 + sec == Abs(d.ns) / NsPerSecond && 0 <= m < 60 && 0 <= sec < 60
    ensures h >= 1
    ensures String(d) == SignText(d) + Itoa(h) + "h" + (if m > 0 then Itoa(m) + "m" else "")
                         + (if sec > 0 then Itoa(sec) + "s" else "")
  {
    var a := Abs(d.ns);
    HoursMinutesSecondsOf(a, h, m, sec);
    assert Terms(a) == [Term(h, Hrs), Term(m, Mins), Term(sec, Secs)];
    StringTerms(d);
    JoinThree(Term(h, Hrs), Term(m, Mins), Term(sec, Secs));
    WritesCount(Term(h, Hrs));
    var y := if m > 0 then Itoa(m) + "m" else "";
    var z := if sec > 0 then Itoa(sec) + "s" else "";
    assert FormatTime(Term(m, Mins)) == y;
    assert FormatTime(Term(sec, Secs)) == z;
    Regroup(SignText(d), Itoa(h), "h", y, z);
  }

  lemma SmallDigits()
    ensures Itoa(1) == "1" && Itoa(2) == "2" && Itoa(5) == "5"
  {
  }

  lemma ThirtyDigits()
    ensures Itoa(30) == "30"
  {
    assert Digits(30) == Digits(3) + [DigitChar(0)];
  }

  lemma FiveHundredDigits()
    ensures Itoa(500) == "500"
  {
    assert Digits(50) == Digits(5) + [DigitChar(0)];
    assert Digits(500) == Digits(50) + [DigitChar(0)];
  }

  /** An hour and a half is written "1h30m", without a seconds term. */
  lemma HourAndAHalf()
    ensures String(DiffValue(5400 * NsPerSecond)) == "1h30m"
    ensures String(DiffValue(-5400 * NsPerSecond)) == "-1h30m"
  {
    SmallDigits();
    ThirtyDigits();
    StringHours(DiffValue(5400 * NsPerSecond), 1, 30, 0);
    StringHours(DiffValue(-5400 * NsPerSecond), 1, 30, 0);
  }

  /** All three terms when none is zero. */
  lemma HourMinutesSeconds()
    ensures String(DiffValue(3725 * NsPerSecond)) == "1h2m5s"
  {
    SmallDigits();
    StringHours(DiffValue(3725 * NsPerSecond), 1, 2, 5);
  }

  /** Below an hour, minutes and then seconds. */
  lemma MinuteAndAHalf()
    ensures String(DiffValue(90 * NsPerSecond)) == "1m30s"
  {
    SmallDigits();
    ThirtyDigits();
    StringMinutes(DiffValue(90 * NsPerSecond), 1, 30);
  }

  /** Below a minute, a single unit. */
  lemma SingleUnits()
    ensures String(DiffValue(NsPerSecond)) == "1s"
    ensures String(DiffValue(500_000)) == "500μs"
  {
    SmallDigits();
    FiveHundredDigits();
    StringBelowMinute(DiffValue(NsPerSecond));
    StringBelowMinute(DiffValue(500_000));
  }

  // ---- Reading the text back ----

  /** The unit a name written by `String` stands for. */
  function ParseUnit(name: string): Option<Unit> {
    if |name| == 1 then
      if name[0] == 's' then Some(Secs)
      else if name[0] == 'm' then Some(Mins)
      else if name[0] == 'h' then Some(Hrs)
      else None
    else if |name| == 2 && name[1] == 's' then
      if name[0] == 'n' then Some(Nanos)
      else if name[0] == '\U{3BC}' then Some(Micros)
      else if name[0] == 'm' then Some(Millis)
      else None
    else None
  }

  /** Length of the run of digits at the start of `s`. */
  function DigitRun(s: string): (k: nat)
    ensures k <= |s| && AllDigits(s[..k])
    ensures k < |s| ==> !IsDigit(s[k])
  {
    if s == [] || !IsDigit(s[0]) then 0
    else
      var k := 1 + DigitRun(s[1..]);
      assert s[..k] == [s[0]] + s[1..][..k - 1];
      k
  }

  /** Length of the run of non-digits at the start of `s`. */
  function UnitRun(s: string): (k: nat)
    ensures k <= |s|
    ensures k < |s| ==> IsDigit(s[k])
  {
    if s == [] || IsDigit(s[0]) then 0 else 1 + UnitRun(s[1..])
  }

  function Plus(n: int, o: Option<int>): Option<int> {
    if o.None? then None else Some(n + o.value)
  }

  /** Sums a sequence of count-and-unit terms such as `3h5m` into nanoseconds. */
  function DecodeTerms(s: string): Option<int>
    decreases |s|
  {
    if s == [] then Some(0)
    else
      var k := DigitRun(s);
      if k == 0 then None
      else
        var rest := s[k..];
        var u := UnitRun(rest);
        var unit := ParseUnit(rest[..u]);
        if unit.None? then None
        else Plus(Value(s[..k]) * UnitLength(unit.value), DecodeTerms(rest[u..]))
  }

  /** The number of nanoseconds a text in the format of `String` denotes. */
  function Decode(s: string): Option<int> {
    if |s| > 0 && s[0] == '-' then
      var t := DecodeTerms(s[1..]);
      if t.None? then None else Some(-t.value)
    else DecodeTerms(s)
  }

  predicate StartsTerm(s: string) {
    s == [] || IsDigit(s[0])
  }

  lemma {:induction false} DigitRunOf(ds: string, t: string)
    requires AllDigits(ds)
    requires t == [] || !IsDigit(t[0])
    ensures DigitRun(ds + t) == |ds|
    decreases |ds|
  {
    if ds != [] {
      assert (ds + t)[1..] == ds[1..] + t;
      DigitRunOf(ds[1..], t);
    }
  }

  lemma {:induction false} UnitRunOf(u: string, r: string)
    requires forall i :: 0 <= i < |u| ==> !IsDigit(u[i])
    requires StartsTerm(r)
    ensures UnitRun(u + r) == |u|
    decreases |u|
  {
    if u != [] {
      assert (u + r)[1..] == u[1..] + r;
      UnitRunOf(u[1..], r);
    }
  }

  /** Every unit name is read back as its unit, and contains no digit. */
  lemma UnitNameRead(u: Unit)
    ensures ParseUnit(UnitName(u)) == Some(u)
    ensures |UnitName(u)| > 0
    ensures forall i :: 0 <= i < |UnitName(u)| ==> !IsDigit(UnitName(u)[i])
  {
  }

  /** A run of digits and a unit name in front of more terms add that many units to their sum. */
  lemma TermDecode(ds: string, u: Unit, rest: string)
    requires |ds| > 0 && AllDigits(ds)
    requires StartsTerm(rest)
    ensures DecodeTerms(ds + UnitName(u) + rest) == Plus(Value(ds) * UnitLength(u), DecodeTerms(rest))
  {
    var name := UnitName(u);
    var s := ds + name + rest;
    UnitNameRead(u);
    assert s == ds + (name + rest);
    DigitRunOf(ds, name + rest);
    assert s[..|ds|] == ds;
    assert s[|ds|..] == name + rest;
    UnitRunOf(name, rest);
    assert (name + rest)[..|name|] == name;
    assert (name + rest)[|name|..] == rest;
  }

  /** One term in front of more terms adds its nanoseconds to their sum. */
  lemma FormatDecode(t: Term, rest: string)
    requires t.count >= 0
    requires StartsTerm(rest)
    ensures DecodeTerms(FormatTime(t) + rest) == Plus(t.count * UnitLength(t.unit), DecodeTerms(rest))
    ensures StartsTerm(FormatTime(t) + rest)
  {
    if t.count != 0 {
      var ds := Digits(t.count);
      assert FormatTime(t) + rest == ds + UnitName(t.unit) + rest;
      TermDecode(ds, t.unit, rest);
    } else {
      assert FormatTime(t) + rest == rest;
    }
  }

  /** Terms with non-negative counts read back as the nanoseconds they stand for. */
  lemma {:induction false} JoinDecode(ts: seq<Term>)
    requires Readable(ts)
    ensures DecodeTerms(Join(ts)) == Some(Sum(ts))
    ensures StartsTerm(Join(ts))
  {
    if ts != [] {
      JoinDecode(ts[1..]);
      FormatDecode(ts[0], Join(ts[1..]));
    }
  }

  /** The unit of the last digit `String` keeps for a magnitude. */
  function Precision(abs: int): int {
    if abs < 1000 then 1
    else if abs < 1_000_000 then 1000
    else if abs < NsPerSecond then 1_000_000
    else NsPerSecond
  }

  lemma HoursSplit(abs: int)
    requires abs >= 0
    ensures var remaining := abs % NsPerHour;
      (abs / NsPerHour) * NsPerHour + (remaining / NsPerMinute) * NsPerMinute
      + (remaining % NsPerMinute / NsPerSecond) * NsPerSecond
      == abs - abs % NsPerSecond
  {
    var remaining := abs % NsPerHour;
    assert abs == (abs / NsPerHour) * NsPerHour + remaining;
    assert remaining == (remaining / NsPerMinute) * NsPerMinute + remaining % NsPerMinute;
    var r2 := remaining % NsPerMinute;
    assert r2 == (r2 / NsPerSecond) * NsPerSecond + r2 % NsPerSecond;
    assert abs % NsPerSecond == r2 % NsPerSecond;
  }

  lemma MinutesSplit(abs: int)
    requires abs >= 0
    ensures (abs / NsPerMinute) * NsPerMinute + (abs % NsPerMinute / NsPerSecond) * NsPerSecond
      == abs - abs % NsPerSecond
  {
    var r := abs % NsPerMinute;
    assert abs == (abs / NsPerMinute) * NsPerMinute + r;
    assert r == (r / NsPerSecond) * NsPerSecond + r % NsPerSecond;
    assert abs % NsPerSecond == r % NsPerSecond;
  }

  lemma SumOne(t: Term)
    ensures Sum([t]) == t.count * UnitLength(t.unit)
  {
    assert [t][1..] == [];
  }

  lemma SumTwo(t: Term, u: Term)
    ensures Sum([t, u]) == t.count * UnitLength(t.unit) + u.count * UnitLength(u.unit)
  {
    assert [t, u][1..] == [u];
    SumOne(u);
  }

  lemma SumThree(t: Term, u: Term, v: Term)
    ensures Sum([t, u, v]) == t.count * UnitLength(t.unit) + u.count * UnitLength(u.unit)
      + v.count * UnitLength(v.unit)
  {
    assert [t, u, v][1..] == [u, v];
    SumTwo(u, v);
  }

  /** The terms of a magnitude stand for the magnitude cut down to a multiple of its precision. */
  lemma TermsSum(abs: int)
    requires abs >= 0
    ensures Sum(Terms(abs)) == abs - abs % Precision(abs)
  {
    var ts := Terms(abs);
    if abs < NsPerMinute {
      SumOne(ts[0]);
      assert ts == [ts[0]];
    } else if abs < NsPerHour {
      SumTwo(ts[0], ts[1]);
      assert ts == [ts[0], ts[1]];
      MinutesSplit(abs);
    } else {
      SumThree(ts[0], ts[1], ts[2]);
      assert ts == [ts[0], ts[1], ts[2]];
      HoursSplit(abs);
    }
  }

  /** What the last kept unit cuts off is less than the unit, and what remains is a multiple of it. */
  lemma PrecisionCut(abs: int)
    requires abs >= 0
    ensures var p := Precision(abs);
      0 <= abs % p < p && (abs - abs % p) % p == 0 && (abs < 1000 ==> abs % p == 0)
  {
    var p := Precision(abs);
    assert abs == (abs / p) * p + abs % p;
  }

  /** The text after the sign reads back as the magnitude cut down to its precision. */
  lemma JoinTermsDecode(abs: int)
    requires abs >= 0
    ensures DecodeTerms(Join(Terms(abs))) == Some(abs - abs % Precision(abs))
    ensures StartsTerm(Join(Terms(abs)))
    ensures abs > 0 ==> |Join(Terms(abs))| > 0 && IsDigit(Join(Terms(abs))[0])
  {
    TermsShape(abs);
    JoinDecode(Terms(abs));
    TermsSum(abs);
    if abs > 0 {
      JoinLead(Terms(abs));
    }
  }

  /** The cut magnitude, signed like the difference. */
  function Cut(n: int): int {
    var a := Abs(n);
    var c := a - a % Precision(a);
    if n < 0 then -c else c
  }

  lemma CutOf(n: int, c: int)
    requires c == Abs(n) - Abs(n) % Precision(Abs(n))
    ensures Cut(n) == if n < 0 then -c else c
  {
  }

  /** A text of terms, with or without a leading minus sign. */
  lemma SignedRead(s: string, neg: bool, body: string, v: int)
    requires s == (if neg then "-" else "") + body
    requires DecodeTerms(body) == Some(v) && StartsTerm(body)
    ensures Decode(s) == Some(if neg then -v else v)
  {
    if neg {
      assert s[1..] == body;
    } else {
      assert s == body;
    }
  }

  lemma RenderReadFrom(d: DiffValue, body: string, v: int)
    requires body == Join(Terms(Abs(d.ns)))
    requires DecodeTerms(body) == Some(v) && StartsTerm(body)
    ensures Decode(Render(d)) == Some(if d.ns < 0 then -v else v)
  {
    SignedRead(Render(d), d.ns < 0, body, v);
  }

  lemma RenderRead(d: DiffValue)
    ensures Decode(Render(d)) == Some(Cut(d.ns))
  {
    var a := Abs(d.ns);
    var c := a - a % Precision(a);
    JoinTermsDecode(a);
    CutOf(d.ns, c);
    RenderReadFrom(d, Join(Terms(a)), c);
  }

  /** `Cut` drops toward zero exactly what lies below the precision of the magnitude. */
  lemma CutBounds(n: int)
    ensures var r := Cut(n);
      var p := Precision(Abs(n));
      && Abs(r) <= Abs(n) < Abs(r) + p
      && Abs(r) % p == 0
      && (r < 0 ==> n < 0) && (r > 0 ==> n > 0)
      && (Abs(n) < 1000 ==> r == n)
  {
    PrecisionCut(Abs(n));
  }

  /**
   * `Render` loses only what lies below the last unit it writes: the text
   * denotes the difference cut toward zero to a multiple of that unit
   * (nanoseconds below one microsecond, then microseconds, milliseconds,
   * and whole seconds from one second up).
   */
  lemma DecodeRender(d: DiffValue)
    ensures Decode(Render(d)).Some?
    ensures var r := Decode(Render(d)).value;
      var p := Precision(Abs(d.ns));
      && Abs(r) <= Abs(d.ns) < Abs(r) + p
      && Abs(r) % p == 0
      && (r < 0 ==> d.ns < 0) && (r > 0 ==> d.ns > 0)
      && (Abs(d.ns) < 1000 ==> r == d.ns)
  {
    RenderRead(d);
    CutBounds(d.ns);
  }

  /** Away from the most negative value, `String` itself reads back the same way. */
  lemma DecodeString(d: DiffValue)
    requires d.ns != MinInt64
    ensures Decode(String(d)) == Decode(Render(d))
  {
    StringAgrees(d);
  }
}

// Moving a time by one day either way (skewing.go).

module Skewing {
  import opened Results
  import opened GoTime
  import opened Types

  /**
   * The instant `Tomorrow` and `Yesterday` start from: the value itself, the
   * instant a non-nil pointer points to, and the current time (passed in as
   * `now`) for a nil pointer.
   */
  function Source(at: MixedTime, now: Instant): (r: Instant)
    ensures at == Value(r) || at == Pointer(Some(r)) || (at == Pointer(None) && r == now)
  {
    match at
    case Value(t) => t
    case Pointer(p) => if p.None? then now else p.value
  }

  /** `Tomorrow`: the source moved 24 hours later. */
  function Tomorrow(at: MixedTime, now: Instant): (r: Instant)
    ensures r.loc == Source(at, now).loc && r.unixNano > Source(at, now).unixNano
  {
    Add(Source(at, now), 24 * NsPerHour)
  }

  /** `Yesterday`: the source moved 24 hours earlier. */
  function Yesterday(at: MixedTime, now: Instant): (r: Instant)
    ensures r.loc == Source(at, now).loc && r.unixNano < Source(at, now).unixNano
  {
    Add(Source(at, now), -24 * NsPerHour)
  }

  /** Only a nil pointer reads the clock; a pointer stands for the time it points to. */
  lemma SourceCases(at: MixedTime, now: Instant, t: Instant)
    ensures Source(Pointer(None), now) == now
    ensures Source(Pointer(Some(t)), now) == t && Source(Value(t), now) == t
  {
  }

  /** The weekday after (`k == 1`) or before (`k == -1`) another. */
  lemma NextWeekday(days: int, k: int)
    requires k == 1 || k == -1
    ensures (days + k + 4) % 7 == ((days + 4) % 7 + k + 7) % 7
  {
    var w := (days + 4) % 7;
    assert days + 4 == ((days + 4) / 7) * 7 + w;
    assert days + k + 4 == ((days + 4) / 7 - 1) * 7 + (w + k + 7);
  }

  lemma SevenMore(w: int)
    ensures (w + 7) % 7 == w % 7
  {
  }

  /** One day later or earlier: the date moves, the clock and the zone stay. */
  lemma DayStep(src: Instant, k: int)
    requires k == 1 || k == -1
    ensures var r := Add(src, k * 24 * NsPerHour);
      && r.loc == src.loc && r.unixNano == src.unixNano + k * NsPerDay
      && LocalDays(r) == LocalDays(src) + k
      && Hour(r) == Hour(src) && Minute(r) == Minute(src) && Second(r) == Second(src)
      && Nanosecond(r) == Nanosecond(src)
      && Weekday(r) == (Weekday(src) + k + 7) % 7
      && r == AddDate(src, 0, 0, k)
  {
    assert k * 24 * NsPerHour == k * NsPerDay;
    ShiftByDays(src, k);
    NextWeekday(LocalDays(src), k);
    AddDaysShift(src, k);
  }

  /**
   * `Tomorrow` is the next calendar day at the same clock time, in the
   * same zone, one weekday later, and strictly after the source.
   */
  lemma TomorrowSpec(at: MixedTime, now: Instant)
    ensures var src, r := Source(at, now), Tomorrow(at, now);
      && r.loc == src.loc && r.unixNano == src.unixNano + NsPerDay && After(r, src)
      && LocalDays(r) == LocalDays(src) + 1
      && Hour(r) == Hour(src) && Minute(r) == Minute(src) && Second(r) == Second(src)
      && Nanosecond(r) == Nanosecond(src)
      && Weekday(r) == (Weekday(src) + 1) % 7
      && r == AddDate(src, 0, 0, 1)
  {
    DayStep(Source(at, now), 1);
    SevenMore(Weekday(Source(at, now)) + 1);
  }

  /**
   * `Yesterday` is the previous calendar day at the same clock time, in the
   * same zone, one weekday earlier, and strictly before the source.
   */
  lemma YesterdaySpec(at: MixedTime, now: Instant)
    ensures var src, r := Source(at, now), Yesterday(at, now);
      && r.loc == src.loc && r.unixNano == src.unixNano - NsPerDay && Before(r, src)
      && LocalDays(r) == LocalDays(src) - 1
      && Hour(r) == Hour(src) && Minute(r) == Minute(src) && Second(r) == Second(src)
      && Nanosecond(r) == Nanosecond(src)
      && Weekday(r) == (Weekday(src) + 6) % 7
      && r == AddDate(src, 0, 0, -1)
  {
    DayStep(Source(at, now), -1);
  }

  /** Yesterday of tomorrow, and tomorrow of yesterday, is the source itself. */
  lemma TomorrowYesterdayInverse(at: MixedTime, now: Instant, later: Instant)
    ensures Yesterday(Value(Tomorrow(at, now)), later) == Source(at, now)
    ensures Tomorrow(Value(Yesterday(at, now)), later) == Source(at, now)
  {
  }

  /** Tomorrow and yesterday of the same source are exactly two days apart. */
  lemma TwoDaysApart(at: MixedTime, now: Instant)
    ensures Tomorrow(at, now).unixNano - Yesterday(at, now).unixNano == 2 * NsPerDay
    ensures LocalDays(Tomorrow(at, now)) == LocalDays(Yesterday(at, now)) + 2
  {
    TomorrowSpec(at, now);
    YesterdaySpec(at, now);
  }
}

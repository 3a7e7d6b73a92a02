// Reading an integer as a Unix timestamp (internal/parse/from_unix.go).

module FromUnix {
  import opened Results
  import opened GoInt
  import opened GoTime
  import opened Types

  const Nanos18: int := 1_000_000_000_000_000_000
  const Micros15: int := 1_000_000_000_000_000
  const Millis12: int := 1_000_000_000_000

  /**
   * The `(sec, nsec)` pair handed to `time.Unix`, as the code computes it:
   * an `int64` is classified by magnitude and scaled in 64-bit arithmetic,
   * every other integer kind is seconds converted to `int64`, and a `uint64`
   * above the `int64` range is refused.
   */
  function UnixParts(kind: IntKind, v: int): Result<(int, int), Error>
    requires FitsKind(kind, v)
  {
    match kind
    case I64 =>
      if v > Nanos18 then Ok((0, v))
      else if v > Micros15 then Ok((0, Wrap(v * 1000)))
      else if v > Millis12 then Ok((0, Wrap(v * 1_000_000)))
      else Ok((v, 0))
    case U64 =>
      if v > MaxInt64 then Err(Uint64TooLarge(v)) else Ok((v, 0))
    case Uint | Uintptr => Ok((Wrap(v), 0))
    case Int | Int16 | Int32 | Uint16 | Uint32 => Ok((v, 0))
  }

  /** `FromUnixTime` as written: `time.Unix(sec, nsec)` in the zone `local`. */
  function FromUnixTime(kind: IntKind, v: int, local: Location): (r: Result<Instant, Error>)
    requires FitsKind(kind, v)
    ensures r.Ok? ==> r.value.loc == local
    ensures r.Err? <==> kind == U64 && v > MaxInt64
  {
    match UnixParts(kind, v)
    case Ok((sec, nsec)) => Ok(Unix(sec, nsec, local))
    case Err(e) => Err(e)
  }

  /**
   * The classification the code intends: the same magnitude bands, with
   * microseconds and milliseconds converted without leaving 64 bits, as
   * `time.UnixMicro` and `time.UnixMilli` do.
   */
  function UnixPartsExact(kind: IntKind, v: int): Result<(int, int), Error>
    requires FitsKind(kind, v)
  {
    if kind == I64 && Millis12 < v <= Nanos18 then
      if v > Micros15 then Ok((v / 1_000_000, v % 1_000_000 * 1000))
      else Ok((v / 1000, v % 1000 * 1_000_000))
    else UnixParts(kind, v)
  }

  /** `FromUnixTime` with the intended microsecond and millisecond conversion. */
  function FromUnixTimeExact(kind: IntKind, v: int, local: Location): (r: Result<Instant, Error>)
    requires FitsKind(kind, v)
    ensures r.Ok? ==> r.value.loc == local
    ensures r.Err? <==> kind == U64 && v > MaxInt64
  {
    match UnixPartsExact(kind, v)
    case Ok((sec, nsec)) => Ok(Unix(sec, nsec, local))
    case Err(e) => Err(e)
  }

  /** The scale, in nanoseconds per unit, of an `int64` of the given magnitude. */
  function Scale(v: int): int {
    if v > Nanos18 then 1
    else if v > Micros15 then 1000
    else if v > Millis12 then 1_000_000
    else NsPerSecond
  }

  /**
   * The intended reading: an `int64` is nanoseconds above 1e18, microseconds
   * above 1e15, milliseconds above 1e12 and seconds otherwise (zero and
   * negatives included); every other kind is seconds whatever its size; and
   * only a `uint64` beyond the `int64` range fails.
   */
  lemma FromUnixTimeExactSpec(kind: IntKind, v: int, local: Location)
    requires FitsKind(kind, v)
    ensures var r := FromUnixTimeExact(kind, v, local);
      && (kind == I64 ==> r == Ok(Instant(v * Scale(v), local)))
      && (kind in {Int, Int16, Int32, Uint16, Uint32} ==> r == Ok(Instant(v * NsPerSecond, local)))
      && (kind in {Uint, Uintptr} ==> r == Ok(Instant(Wrap(v) * NsPerSecond, local)))
      && (kind == U64 ==> r == if v > MaxInt64 then Err(Uint64TooLarge(v))
                               else Ok(Instant(v * NsPerSecond, local)))
  {
    if kind == I64 && Millis12 < v <= Nanos18 {
      if v > Micros15 {
        assert v == v / 1_000_000 * 1_000_000 + v % 1_000_000;
      } else {
        assert v == v / 1000 * 1000 + v % 1000;
      }
    }
  }

  /** Where no 64-bit product overflows, the code as written gives the intended instant. */
  lemma FromUnixTimeAgrees(kind: IntKind, v: int, local: Location)
    requires FitsKind(kind, v)
    requires kind == I64 && v > Micros15 && v <= Nanos18 ==> v * 1000 <= MaxInt64
    requires kind == I64 && v > Millis12 && v <= Micros15 ==> v * 1_000_000 <= MaxInt64
    ensures FromUnixTime(kind, v, local) == FromUnixTimeExact(kind, v, local)
  {
    FromUnixTimeExactSpec(kind, v, local);
  }

  /**
   * The microsecond branch as written: ten quadrillion microseconds after the
   * epoch (in the year 2286) wraps around to an instant before the epoch.
   */
  lemma MicrosecondsWrap(local: Location)
    ensures var v := 10_000_000_000_000_000;
      && FromUnixTime(I64, v, local) == Ok(Instant(10_000_000_000_000_000_000 - TwoTo64, local))
      && FromUnixTime(I64, v, local).value.unixNano < 0
      && FromUnixTimeExact(I64, v, local) == Ok(Instant(v * 1000, local))
  {
    var v := 10_000_000_000_000_000;
    assert Wrap(v * 1000) == 10_000_000_000_000_000_000 - TwoTo64;
    FromUnixTimeExactSpec(I64, v, local);
  }

  /**
   * The millisecond branch as written: ten trillion milliseconds after the
   * epoch (in the year 2286) also wraps around to before the epoch.
   */
  lemma MillisecondsWrap(local: Location)
    ensures var v := 10_000_000_000_000;
      && FromUnixTime(I64, v, local) == Ok(Instant(10_000_000_000_000_000_000 - TwoTo64, local))
      && FromUnixTime(I64, v, local).value.unixNano < 0
      && FromUnixTimeExact(I64, v, local) == Ok(Instant(v * 1_000_000, local))
  {
    var v := 10_000_000_000_000;
    assert Wrap(v * 1_000_000) == 10_000_000_000_000_000_000 - TwoTo64;
    FromUnixTimeExactSpec(I64, v, local);
  }

  /** A `uint` or `uintptr` beyond the `int64` range is converted, not refused: it lands before the epoch. */
  lemma UintWrapsToPast(v: int, local: Location)
    requires MaxInt64 < v < TwoTo64
    ensures var r := FromUnixTimeExact(Uint, v, local);
      r.Ok? && r.value.unixNano == (v - TwoTo64) * NsPerSecond && r.value.unixNano < 0
  {
    FromUnixTimeExactSpec(Uint, v, local);
  }
}

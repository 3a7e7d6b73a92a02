/**
 * The shapes of value the toolkit accepts, as tagged variants in place of
 * Go's generic type constraints, and the errors it reports.
 */
module Types {
  import opened Results
  import opened GoInt
  import opened GoTime

  /** `MixedTime`: a `time.Time` value or a possibly nil `*time.Time`. */
  datatype MixedTime = Value(t: Instant) | Pointer(p: Option<Instant>)

  /** The integer types admitted by `TimeValue` (`int` and `uint` are 64 bits wide). */
  datatype IntKind = Int | Int16 | Int32 | I64 | Uint | Uint16 | Uint32 | U64 | Uintptr

  /** The values an integer of the given kind can hold. */
  predicate FitsKind(kind: IntKind, v: int) {
    match kind
    case Int16 => -0x8000 <= v < 0x8000
    case Int32 => -0x8000_0000 <= v < 0x8000_0000
    case Int | I64 => InRange(v)
    case Uint16 => 0 <= v < 0x1_0000
    case Uint32 => 0 <= v < 0x1_0000_0000
    case Uint | U64 | Uintptr => 0 <= v < TwoTo64
  }

  /** `TimeValue`: an instant, a pointer to one, an integer of some kind, or a string. */
  datatype TimeValue =
    | TimeVal(t: Instant)
    | TimePtr(p: Option<Instant>)
    | Integer(kind: IntKind, v: int)
    | Text(s: string)

  /** The errors the parsers return; `Invalid*` wrap the error of the parser they called. */
  datatype Error =
    | Uint64TooLarge(value: int)
    | CouldNotParse(input: string)
    | UnsupportedExpression(expr: string)
    | InvalidQuantity(token: string)
    | UnknownTimeUnit(token: string)
    | UnknownDirection(token: string)
    | InvalidUnixTime(cause: Error)
    | InvalidTimeString(cause: Error)
}

/** The constants of `java.util.concurrent.TimeUnit` and the one conversion
    the client uses, `toMillis(1)`. */
module TimeUnits {

  datatype TimeUnit = Nanoseconds | Microseconds | Milliseconds | Seconds | Minutes | Hours | Days

  const NANOS_PER_MILLI: nat := 1_000_000

  /** The length of one unit in nanoseconds: the scale each constant carries. */
  function NanosPerUnit(u: TimeUnit): (r: nat)
    ensures r > 0
  {
    match u
    case Nanoseconds => 1
    case Microseconds => 1_000
    case Milliseconds => 1_000_000
    case Seconds => 1_000_000_000
    case Minutes => 60_000_000_000
    case Hours => 3_600_000_000_000
    case Days => 86_400_000_000_000
  }

  /** `u.toMillis(1)`: the whole number of milliseconds in one unit,
      truncated toward zero, so units finer than a millisecond give 0. */
  function ToMillisOfOne(u: TimeUnit): (r: nat)
    ensures r * NANOS_PER_MILLI <= NanosPerUnit(u) < (r + 1) * NANOS_PER_MILLI
    ensures r <= 86_400_000
  {
    match u
    case Nanoseconds => 0
    case Microseconds => 0
    case Milliseconds => 1
    case Seconds => 1_000
    case Minutes => 60_000
    case Hours => 3_600_000
    case Days => 86_400_000
  }

  /** One unit converts to zero milliseconds exactly when the unit is shorter
      than a millisecond. */
  lemma ToMillisOfOneZeroIff(u: TimeUnit)
    ensures ToMillisOfOne(u) == 0 <==> NanosPerUnit(u) < NANOS_PER_MILLI
    ensures ToMillisOfOne(u) == 0 <==> u == Nanoseconds || u == Microseconds
  {
  }
}

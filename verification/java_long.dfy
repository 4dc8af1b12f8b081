/** Java's fixed-width integers as they matter to the rate limiter: the
    ranges of `int` and `long`, and `long` subtraction, which wraps around
    modulo 2^64 instead of growing. */
module JavaLong {

  const TWO_64: int := 0x1_0000_0000_0000_0000
  const LONG_MIN: int := -0x8000_0000_0000_0000
  const LONG_MAX: int := 0x7FFF_FFFF_FFFF_FFFF
  const INT_MIN: int := -0x8000_0000
  const INT_MAX: int := 0x7FFF_FFFF

  /** A Java `long`. */
  type Long = x: int | LONG_MIN <= x <= LONG_MAX

  /** A Java `int`. */
  type Int = x: int | INT_MIN <= x <= INT_MAX

  /** A clock reading in milliseconds since the epoch, as
      `System.currentTimeMillis()` returns it: a `long` that is not negative. */
  type Millis = x: int | 0 <= x <= LONG_MAX

  /** Java's `a - b` on two `long`s: the mathematical difference brought
      back into the `long` range by adding or removing 2^64. As the result
      is a `long`, at most one of the three candidates qualifies. */
  function Sub(a: Long, b: Long): (r: Long)
    ensures r == a - b || r == a - b - TWO_64 || r == a - b + TWO_64
    ensures LONG_MIN <= a - b <= LONG_MAX ==> r == a - b
  {
    var d := a - b;
    if d > LONG_MAX then d - TWO_64
    else if d < LONG_MIN then d + TWO_64
    else d
  }

  /** The result is congruent to the true difference modulo 2^64. */
  lemma SubCongruent(a: Long, b: Long)
    ensures (Sub(a, b) - (a - b)) % TWO_64 == 0
  {
  }

  /** Two clock readings are never far enough apart for their difference to wrap. */
  lemma SubOfReadings(a: Millis, b: Millis)
    ensures Sub(a, b) == a - b
    ensures Sub(a, b) < 0 <==> a < b
  {
  }
}

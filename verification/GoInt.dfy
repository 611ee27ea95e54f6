/** Go's 64-bit int: sums that wrap around, and conversions of float64 values. */
module GoInt {
  const MAX_INT := 0x7fff_ffff_ffff_ffff
  const MIN_INT := -0x8000_0000_0000_0000

  type Int = n: int | MIN_INT <= n <= MAX_INT

  const TWO63 := 9223372036854775808.0

  /** a + b, wrapped around. */
  function Sum(a: Int, b: Int): Int {
    if a + b > MAX_INT then a + b - 0x1_0000_0000_0000_0000
    else if a + b < MIN_INT then a + b + 0x1_0000_0000_0000_0000
    else a + b
  }

  /** x without its fraction. */
  function Truncated(x: real): (n: int)
    ensures x >= 0.0 ==> 0.0 <= n as real <= x < n as real + 1.0
    ensures x <= 0.0 ==> n as real - 1.0 < x <= n as real <= 0.0
  {
    if x >= 0.0 then x.Floor else -(-x).Floor
  }

  /** What converting a float64 outside the range yields, which Go leaves to the platform: the
      smallest int on some, the nearest one on others. */
  datatype Platform = Platform(above: Int, below: Int)

  predicate Fits(x: real) {
    -TWO63 <= x < TWO63
  }

  function ToInt(x: real, p: Platform): Int {
    if Fits(x) then Truncated(x) else if x > 0.0 then p.above else p.below
  }
}

/** Go's time arithmetic, in whole nanoseconds since the zero time (year 1). */
module Clock {
  const MAX_DURATION := 0x7fff_ffff_ffff_ffff

  type Duration = d: int | -MAX_DURATION - 1 <= d <= MAX_DURATION

  /** Any time.Time value; 0 is the zero time. */
  type Time = int

  const ZERO: Time := 0

  /** A clock reading. Every real one is more than 292 years after the zero time. */
  type Instant = t: int | t > MAX_DURATION witness MAX_DURATION + 1

  /** t.Sub(u), which saturates. */
  function Sub(t: Time, u: Time): Duration {
    if t - u > MAX_DURATION then MAX_DURATION
    else if t - u < -MAX_DURATION - 1 then -MAX_DURATION - 1
    else t - u
  }
}

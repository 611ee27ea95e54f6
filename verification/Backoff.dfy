/** Capped exponential cooldowns with jitter (pool/options.go). Products and powers are exact reals; the
    final conversion to a Duration is Go's. A draw is the value of rand.Float64(). */
module Backoff {
  import opened GoInt

  /** initialWait and maxWait are Durations. */
  datatype Config = Config(initialWait: Int, maxWait: Int, multiplier: real, jitterPct: real) {
    /** What callers configure: no negative duration, factor or jitter. */
    predicate Sane() {
      initialWait >= 0 && maxWait >= 0 && multiplier >= 0.0 && jitterPct >= 0.0
    }
  }

  predicate Draw(u: real) {
    0.0 <= u < 1.0
  }

  function Pow(x: real, n: nat): real {
    if n == 0 then 1.0 else x * Pow(x, n - 1)
  }

  /** The wait before the cap. */
  function Raw(c: Config, attempt: nat): real {
    c.initialWait as real * Pow(c.multiplier, attempt)
  }

  /** The wait before jitter: geometric growth, then the cap. */
  function Base(c: Config, attempt: nat): real {
    var raw := Raw(c, attempt);
    if raw > c.maxWait as real then c.maxWait as real else raw
  }

  /** spread times a uniform draw from [-1, 1). */
  function Swing(spread: real, u: real): real {
    spread * (2.0 * u - 1.0)
  }

  lemma SwingInRange(spread: real, u: real)
    requires spread >= 0.0 && Draw(u)
    ensures -spread <= Swing(spread, u) <= spread
  {
    MulMonotone(spread, 2.0 * u - 1.0, 1.0);
    MulMonotone(spread, -1.0, 2.0 * u - 1.0);
  }

  /** The base with its jitter. */
  function Jittered(base: real, pct: real, u: real): real {
    base + Swing(base * pct, u)
  }

  /** The exponent for a trip: trip is 1-indexed and anything below 1 counts as 1, but for the smallest
      int, from which trip - 1 wraps to the largest. */
  function Attempt(trip: Int): nat {
    var attempt := Sum(trip, -1);
    if attempt < 0 then 0 else attempt
  }

  /** BackoffConfig.Duration. */
  function Duration(c: Config, trip: Int, u: real, p: Platform): Int {
    var d := ToInt(Jittered(Base(c, Attempt(trip)), c.jitterPct, u), p);
    if d < 0 then 0 else d
  }

  /** "A trip <= 0 is treated as trip 1" is so exactly when it is not the smallest int. */
  lemma FirstTripExactly(trip: Int)
    requires trip <= 0
    ensures Attempt(trip) == Attempt(1) <==> trip != MIN_INT
    ensures Attempt(MIN_INT) == MAX_INT
  {
  }

  function Min(a: real, b: real): real {
    if a < b then a else b
  }

  /** The first trip waits initialWait, up to maxWait. */
  lemma FirstTrip(c: Config)
    ensures Base(c, Attempt(1)) == Min(c.initialWait as real, c.maxWait as real)
  {
    assert Raw(c, 0) == c.initialWait as real * 1.0;
  }

  /** Every further trip waits multiplier times as long as the one before, up to maxWait. */
  lemma NextTrip(c: Config, trip: Int)
    requires c.Sane() && c.multiplier >= 1.0 && 1 <= trip < MAX_INT
    ensures Base(c, Attempt(trip + 1)) == Min(Base(c, Attempt(trip)) * c.multiplier, c.maxWait as real)
  {
    NextBase(c, Attempt(trip));
  }

  lemma NextBase(c: Config, n: nat)
    requires c.Sane() && c.multiplier >= 1.0
    ensures Base(c, n + 1) == Min(Base(c, n) * c.multiplier, c.maxWait as real)
  {
    RawNext(c, n);
    RawNonNegative(c, n);
    MinScaled(Raw(c, n), c.multiplier, c.maxWait as real);
  }

  lemma MinScaled(raw: real, x: real, top: real)
    requires raw >= 0.0 && x >= 1.0 && top >= 0.0
    ensures Min(raw * x, top) == Min(Min(raw, top) * x, top)
  {
    Scale(x, raw);
    Scale(x, top);
  }

  lemma RawNext(c: Config, n: nat)
    ensures Raw(c, n + 1) == Raw(c, n) * c.multiplier
  {
    var w, x, p := c.initialWait as real, c.multiplier, Pow(c.multiplier, n);
    assert w * (x * p) == (w * p) * x;
  }

  lemma {:induction false} PowNonNegative(x: real, n: nat)
    requires x >= 0.0
    ensures Pow(x, n) >= 0.0
  {
    if n > 0 {
      PowNonNegative(x, n - 1);
    }
  }

  lemma {:induction false} PowGrows(x: real, m: nat, n: nat)
    requires x >= 1.0 && m <= n
    ensures 1.0 <= Pow(x, m) <= Pow(x, n)
    decreases n
  {
    if n > 0 {
      PowGrows(x, if m < n then m else m - 1, n - 1);
      Scale(x, Pow(x, n - 1));
    }
  }

  lemma Scale(x: real, p: real)
    requires x >= 1.0 && p >= 0.0
    ensures x * p >= p
  {
    assert (x - 1.0) * p >= 0.0;
  }

  lemma RawNonNegative(c: Config, attempt: nat)
    requires c.Sane()
    ensures Raw(c, attempt) >= 0.0
  {
    PowNonNegative(c.multiplier, attempt);
    MulMonotone(c.initialWait as real, 0.0, Pow(c.multiplier, attempt));
  }

  lemma BaseInRange(c: Config, attempt: nat)
    requires c.Sane()
    ensures 0.0 <= Base(c, attempt) <= c.maxWait as real
  {
    RawNonNegative(c, attempt);
  }

  lemma MulMonotone(a: real, x: real, y: real)
    requires a >= 0.0 && x <= y
    ensures a * x <= a * y
  {
    assert a * (y - x) >= 0.0;
  }

  /** Jitter moves a wait by at most its percentage. */
  lemma JitterInRange(base: real, pct: real, u: real)
    requires base >= 0.0 && pct >= 0.0 && Draw(u)
    ensures base - base * pct <= Jittered(base, pct, u) <= base + base * pct
  {
    MulMonotone(base, 0.0, pct);
    SwingInRange(base * pct, u);
  }

  /** The longest one wait can be. */
  function Ceiling(c: Config): real {
    c.maxWait as real + c.maxWait as real * c.jitterPct
  }

  lemma CeilingNonNegative(c: Config)
    requires c.Sane()
    ensures Ceiling(c) >= c.maxWait as real >= 0.0
  {
    MulMonotone(c.maxWait as real, 0.0, c.jitterPct);
  }

  /** A base within the cap stays within the stretched cap. */
  lemma JitterInCeiling(c: Config, base: real, u: real)
    requires c.Sane() && Draw(u) && 0.0 <= base <= c.maxWait as real
    ensures Jittered(base, c.jitterPct, u) <= Ceiling(c)
  {
    JitterInRange(base, c.jitterPct, u);
    MulMonotone(c.jitterPct, base, c.maxWait as real);
  }

  /** Every cooldown is between 0 and the cap stretched by the jitter, on every platform. */
  lemma DurationInRange(c: Config, trip: Int, u: real, p: Platform)
    requires c.Sane() && Draw(u)
    ensures 0 <= Duration(c, trip, u, p) && Duration(c, trip, u, p) as real <= Ceiling(c)
  {
    var base := Base(c, Attempt(trip));
    BaseInRange(c, Attempt(trip));
    JitterInCeiling(c, base, u);
    CeilingNonNegative(c);
    LowJitter(c, base, u);
  }

  /** Jitter low enough to leave the range downwards takes a ceiling beyond it. */
  lemma LowJitter(c: Config, base: real, u: real)
    requires c.Sane() && Draw(u) && 0.0 <= base <= c.maxWait as real
    ensures Jittered(base, c.jitterPct, u) < -TWO63 ==> Ceiling(c) > TWO63
  {
    var top := c.maxWait as real;
    JitterInRange(base, c.jitterPct, u);
    MulMonotone(c.jitterPct, base, top);
    FarBelow(Jittered(base, c.jitterPct, u), base, base * c.jitterPct, top, top * c.jitterPct);
  }

  lemma FarBelow(jittered: real, base: real, spread: real, top: real, most: real)
    requires jittered >= base - spread && 0.0 <= base <= top && spread <= most
    ensures jittered < -TWO63 ==> top + most > TWO63
  {
  }

  /** Without jitter, repeated trips never shorten the cooldown. */
  lemma BaseGrows(c: Config, m: nat, n: nat)
    requires c.initialWait >= 0 && c.multiplier >= 1.0 && m <= n
    ensures Base(c, m) <= Base(c, n)
  {
    RawGrows(c, m, n);
  }

  lemma RawGrows(c: Config, i: nat, j: nat)
    requires c.initialWait >= 0 && c.multiplier >= 1.0 && i <= j
    ensures 0.0 <= Raw(c, i) <= Raw(c, j)
  {
    var w := c.initialWait as real;
    PowGrows(c.multiplier, i, j);
    MulMonotone(w, Pow(c.multiplier, i), Pow(c.multiplier, j));
    MulMonotone(w, 0.0, Pow(c.multiplier, i));
  }

  lemma {:induction false} Bernoulli(x: real, n: nat)
    requires x >= 0.0
    ensures Pow(1.0 + x, n) >= 1.0 + n as real * x
  {
    if n > 0 {
      var p, k := Pow(1.0 + x, n - 1), (n - 1) as real;
      Bernoulli(x, n - 1);
      MulMonotone(1.0 + x, 1.0 + k * x, p);
      MulMonotone(k, 0.0, x * x);
      assert (1.0 + x) * (1.0 + k * x) == 1.0 + (k + 1.0) * x + k * (x * x);
    }
  }

  lemma GrowsPast(first: real, top: real, multiplier: real) returns (n: nat)
    requires first > 0.0 && multiplier > 1.0 && top >= 0.0
    ensures first * Pow(multiplier, n) >= top
  {
    var x := multiplier - 1.0;
    n := (top / first / x).Floor + 1;
    assert n as real * x >= top / first by {
      MulMonotone(x, top / first / x, n as real);
    }
    Bernoulli(x, n);
    MulMonotone(first, top / first, Pow(multiplier, n));
  }

  /** With a real growth factor every cooldown from some trip on is the cap. */
  lemma CapReached(c: Config) returns (trip: nat)
    requires c.initialWait > 0 && c.multiplier > 1.0 && c.maxWait >= 0
    ensures forall n: nat :: n >= trip ==> Base(c, n) == c.maxWait as real
  {
    trip := GrowsPast(c.initialWait as real, c.maxWait as real, c.multiplier);
    forall n: nat | n >= trip
      ensures Base(c, n) == c.maxWait as real
    {
      RawGrows(c, trip, n);
    }
  }
}

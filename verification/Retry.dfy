/** The shared retry loop (retry.go), run against a script of the context, the call's outcomes
    and the jitter draws, and refined to a closed-form trace. */
module Retry {
  import opened Prelude
  import opened GoInt
  import opened Backoff

  /** The error kinds IsRetryable tells apart, outermost match first. */
  datatype Error =
    | HttpStatus(code: int)
    | OpError
    | DnsError
    | NetError(timeout: bool)
    | OtherError(id: int)

  predicate IsRetryableStatus(code: int) {
    code in {429, 500, 502, 503, 504}
  }

  predicate IsRetryable(e: Error) {
    match e
    case HttpStatus(code) => IsRetryableStatus(code)
    case OpError => true
    case DnsError => true
    case NetError(timeout) => timeout
    case OtherError(_) => false
  }

  /** Worth retrying are five statuses, timeouts, and failures to dial or to resolve. */
  lemma RetryableExactly(e: Error)
    ensures IsRetryable(e) <==>
            || e == NetError(true) || e == OpError || e == DnsError
            || (e.HttpStatus? && (e.code == 429 || (500 <= e.code <= 504 && e.code != 501)))
  {
  }

  /** What the loop finds around attempt i: the context already cancelled, the outcome of fn,
      the context cancelled while waiting afterwards, and the jitter draw of that wait. */
  datatype Script<!T> = Script(
    cancelledBefore: nat -> bool,
    outcome: nat -> Result<T, Error>,
    cancelledDuring: nat -> bool,
    draw: nat -> real)

  datatype Event =
    | Reset
    | Call(attempt: nat)
    | Hook(next: int, of: int)
    | Wait(d: Int)

  datatype Outcome<T> =
    | Value(value: T)
    | Failed(error: Error)
    | Cancelled
    | Nothing  // zero value with a nil error

  /** Below the largest int; with that one the loop's counter would wrap around. */
  type Retries = n: Int | n < MAX_INT

  datatype Options = Options(maxRetries: Retries, backoff: Config, hasReset: bool, hasHook: bool, platform: Platform)

  /** The wait of this attempt before jitter: converted, then capped. */
  function Capped(o: Options, attempt: nat): Int {
    var wait := ToInt(Raw(o.backoff, attempt), o.platform);
    if wait > o.backoff.maxWait then o.backoff.maxWait else wait
  }

  /** The jitter is converted by itself. */
  function JitterFor(wait: Int, pct: real, u: real, p: Platform): Int {
    ToInt(Swing(wait as real * pct, u), p)
  }

  /** The sum may wrap around. */
  function WithJitter(wait: Int, pct: real, u: real, p: Platform): Int {
    var sum := Sum(wait, JitterFor(wait, pct, u, p));
    if sum < 0 then 0 else sum
  }

  function WaitFor(o: Options, attempt: nat, u: real): Int {
    var wait := Capped(o, attempt);
    if o.backoff.jitterPct > 0.0 then WithJitter(wait, o.backoff.jitterPct, u, o.platform) else wait
  }

  /** A timer of no positive duration fires at once. */
  function Slept(d: int): nat {
    if d > 0 then d else 0
  }

  /** Attempt i is followed by attempt i + 1. */
  predicate Continues<T>(o: Options, s: Script<T>, i: nat) {
    && !s.cancelledBefore(i)
    && s.outcome(i).Err? && IsRetryable(s.outcome(i).error)
    && i < o.maxRetries && !s.cancelledDuring(i)
  }

  /** k is the attempt at which the loop ends. */
  ghost predicate EndsAt<T>(o: Options, s: Script<T>, k: nat) {
    k <= o.maxRetries && !Continues(o, s, k) && forall i: nat :: i < k ==> Continues(o, s, i)
  }

  /** Events of attempt i up to and including its call. */
  function Tried(o: Options, i: nat): seq<Event> {
    (if i > 0 && o.hasReset then [Reset] else []) + [Call(i)]
  }

  /** Events of attempt i when a wait follows it. */
  function Round<T>(o: Options, s: Script<T>, i: nat): seq<Event> {
    Tried(o, i) + (if o.hasHook then [Hook(i + 1, o.maxRetries)] else []) + [Wait(WaitFor(o, i, s.draw(i)))]
  }

  function Rounds<T>(o: Options, s: Script<T>, k: nat): seq<Event> {
    if k == 0 then [] else Rounds(o, s, k - 1) + Round(o, s, k - 1)
  }

  /** Attempt k fails retryably with retries left, so the loop goes on to wait. */
  predicate Waits<T>(o: Options, s: Script<T>, k: nat) {
    s.outcome(k).Err? && IsRetryable(s.outcome(k).error) && k < o.maxRetries
  }

  function LastRound<T>(o: Options, s: Script<T>, k: nat): seq<Event> {
    if s.cancelledBefore(k) then []
    else if Waits(o, s, k) then Round(o, s, k)
    else Tried(o, k)
  }

  function TraceTo<T>(o: Options, s: Script<T>, k: nat): seq<Event> {
    Rounds(o, s, k) + LastRound(o, s, k)
  }

  function OutcomeAt<T>(o: Options, s: Script<T>, k: nat): Outcome<T> {
    if s.cancelledBefore(k) then Cancelled
    else if s.outcome(k).Ok? then Value(s.outcome(k).value)
    else if Waits(o, s, k) then Cancelled
    else Failed(s.outcome(k).error)
  }

  /** The wait retryDo computes between two attempts. */
  method ComputeWait(o: Options, attempt: nat, u: real) returns (wait: Int)
    ensures wait == WaitFor(o, attempt, u)
  {
    wait := ToInt(Raw(o.backoff, attempt), o.platform);
    if wait > o.backoff.maxWait {
      wait := o.backoff.maxWait;
    }
    if o.backoff.jitterPct > 0.0 {
      var jitter := JitterFor(wait, o.backoff.jitterPct, u, o.platform);
      wait := Sum(wait, jitter);
      if wait < 0 {
        wait := 0;
      }
    }
  }

  /** retryDo. end is the attempt at which it returned. */
  method RetryDo<T>(o: Options, s: Script<T>)
    returns (result: Outcome<T>, trace: seq<Event>, end: nat)
    ensures o.maxRetries < 0 ==> result == Nothing && trace == []
    ensures o.maxRetries >= 0 ==>
              && EndsAt(o, s, end)
              && result == OutcomeAt(o, s, end) && trace == TraceTo(o, s, end)
  {
    trace, end := [], 0;
    var lastErr: Option<Error> := None;
    var attempt := 0;
    while attempt <= o.maxRetries
      invariant forall i: nat :: i < attempt && i < o.maxRetries ==> Continues(o, s, i)
      invariant 0 <= attempt && (attempt <= o.maxRetries + 1 || attempt == 0)
      invariant attempt <= o.maxRetries ==> trace == Rounds(o, s, attempt)
      invariant attempt == o.maxRetries + 1 && attempt > 0 ==>
                  EndsAt(o, s, end) && Some(OutcomeAt(o, s, end)) == Ended(lastErr) && trace == TraceTo(o, s, end)
      invariant attempt == 0 ==> lastErr == None && trace == []
    {
      end := attempt;
      if s.cancelledBefore(attempt) {
        return Cancelled, trace, end;
      }
      if attempt > 0 && o.hasReset {
        trace := trace + [Reset];
      }
      trace := trace + [Call(attempt)];
      assert trace == Rounds(o, s, end) + Tried(o, end);
      if s.outcome(attempt).Ok? {
        return Value(s.outcome(attempt).value), trace, end;
      }
      lastErr := Some(s.outcome(attempt).error);
      if !IsRetryable(lastErr.value) {
        return Failed(lastErr.value), trace, end;
      }
      if attempt < o.maxRetries {
        if o.hasHook {
          trace := trace + [Hook(attempt + 1, o.maxRetries)];
        }
        var wait := ComputeWait(o, attempt, s.draw(attempt));
        trace := trace + [Wait(wait)];
        assert trace == Rounds(o, s, end) + Round(o, s, end);
        if s.cancelledDuring(attempt) {
          return Cancelled, trace, end;
        }
      }
      attempt := attempt + 1;
    }
    result := if lastErr == None then Nothing else Failed(lastErr.value);
  }

  function Ended<T>(lastErr: Option<Error>): Option<Outcome<T>> {
    if lastErr == None then None else Some(Failed(lastErr.value))
  }

  function Calls(trace: seq<Event>): (n: nat) {
    if |trace| == 0 then 0
    else Calls(trace[..|trace| - 1]) + (if trace[|trace| - 1].Call? then 1 else 0)
  }

  function Resets(trace: seq<Event>): (n: nat) {
    if |trace| == 0 then 0
    else Resets(trace[..|trace| - 1]) + (if trace[|trace| - 1].Reset? then 1 else 0)
  }

  function Hooks(trace: seq<Event>): (n: nat) {
    if |trace| == 0 then 0
    else Hooks(trace[..|trace| - 1]) + (if trace[|trace| - 1].Hook? then 1 else 0)
  }

  function Waited(trace: seq<Event>): (d: nat) {
    if |trace| == 0 then 0
    else Waited(trace[..|trace| - 1]) + (if trace[|trace| - 1].Wait? then Slept(trace[|trace| - 1].d) else 0)
  }

  lemma {:induction false} CountsConcat(a: seq<Event>, b: seq<Event>)
    ensures Calls(a + b) == Calls(a) + Calls(b) && Resets(a + b) == Resets(a) + Resets(b)
    ensures Hooks(a + b) == Hooks(a) + Hooks(b) && Waited(a + b) == Waited(a) + Waited(b)
  {
    if |b| == 0 {
      assert a + b == a;
    } else {
      var front := b[..|b| - 1];
      assert (a + b)[..|a + b| - 1] == a + front;
      CountsConcat(a, front);
    }
  }

  lemma CountsOne(e: Event)
    ensures Calls([e]) == (if e.Call? then 1 else 0) && Resets([e]) == (if e.Reset? then 1 else 0)
    ensures Hooks([e]) == (if e.Hook? then 1 else 0) && Waited([e]) == (if e.Wait? then Slept(e.d) else 0)
  {
    assert [e][..0] == [];
  }

  lemma TriedCounts(o: Options, i: nat)
    ensures var t := Tried(o, i);
            && Calls(t) == 1 && Resets(t) == (if i > 0 && o.hasReset then 1 else 0)
            && Hooks(t) == 0 && Waited(t) == 0
  {
    CountsOne(Reset);
    CountsOne(Call(i));
    CountsConcat(if i > 0 && o.hasReset then [Reset] else [], [Call(i)]);
  }

  lemma RoundCounts<T>(o: Options, s: Script<T>, i: nat)
    ensures var t := Round(o, s, i);
            && Calls(t) == 1 && Resets(t) == (if i > 0 && o.hasReset then 1 else 0)
            && Hooks(t) == (if o.hasHook then 1 else 0) && Waited(t) == Slept(WaitFor(o, i, s.draw(i)))
  {
    var hook, wait := Hook(i + 1, o.maxRetries), Wait(WaitFor(o, i, s.draw(i)));
    TriedCounts(o, i);
    CountsOne(hook);
    CountsOne(wait);
    var hooks := if o.hasHook then [hook] else [];
    CountsConcat(Tried(o, i), hooks);
    CountsConcat(Tried(o, i) + hooks, [wait]);
  }

  /** Nothing can carry this attempt's wait past the ceiling: the growth stays in range, or leaving it
      does not yield a negative wait, or the jitter of one is always cut to zero, or no int lies beyond
      the ceiling. */
  predicate Settled(o: Options, i: nat) {
    || Fits(Raw(o.backoff, i)) || o.platform.above >= 0
    || o.backoff.jitterPct * TWO63 <= 1.0 || Ceiling(o.backoff) >= MAX_INT as real
  }

  lemma CappedSign(o: Options, i: nat)
    requires o.backoff.Sane() && (Fits(Raw(o.backoff, i)) || o.platform.above >= 0)
    ensures 0 <= Capped(o, i) <= o.backoff.maxWait
  {
    RawNonNegative(o.backoff, i);
  }

  /** A wait within the cap stays within the ceiling. */
  lemma JitterStays(c: Config, wait: Int, u: real, p: Platform)
    requires c.Sane() && Draw(u) && 0 <= wait <= c.maxWait && Ceiling(c) < MAX_INT as real
    ensures WithJitter(wait, c.jitterPct, u, p) as real <= Ceiling(c)
  {
    var most := c.maxWait as real * c.jitterPct;
    assert Ceiling(c) == c.maxWait as real + most;
    JitterSmall(wait, c.maxWait, c.jitterPct, u, p);
    SmallSum(wait, JitterFor(wait, c.jitterPct, u, p), c.maxWait, most);
  }

  lemma JitterSmall(wait: Int, maxWait: Int, pct: real, u: real, p: Platform)
    requires 0 <= wait <= maxWait && 0.0 <= pct && Draw(u) && maxWait as real * pct < TWO63
    ensures var most := maxWait as real * pct; -most <= JitterFor(wait, pct, u, p) as real <= most
  {
    SwingSmall(wait as real, maxWait as real, pct, u);
    Converts(Swing(wait as real * pct, u), maxWait as real * pct, p);
  }

  lemma SwingSmall(w: real, top: real, pct: real, u: real)
    requires 0.0 <= w <= top && 0.0 <= pct && Draw(u)
    ensures -(top * pct) <= Swing(w * pct, u) <= top * pct
  {
    SwingInRange(w * pct, u);
  }

  lemma Converts(x: real, most: real, p: Platform)
    requires -most <= x <= most < TWO63
    ensures -most <= ToInt(x, p) as real <= most
  {
  }

  lemma SmallSum(wait: Int, jitter: Int, maxWait: Int, most: real)
    requires 0 <= wait <= maxWait && -most <= jitter as real <= most
    requires maxWait as real + most < MAX_INT as real
    ensures var sum := Sum(wait, jitter);
            (if sum < 0 then 0 else sum) as real <= maxWait as real + most
  {
    assert MIN_INT <= wait + jitter <= MAX_INT;
  }

  /** The jitter of a negative wait is cut to zero when it is less than a nanosecond each way. */
  lemma JitterOfNegative(wait: Int, pct: real, u: real, p: Platform)
    requires wait < 0 && 0.0 < pct && pct * TWO63 <= 1.0 && Draw(u)
    ensures WithJitter(wait, pct, u, p) == 0
  {
    var a := -(wait as real);
    MulMonotone(pct, a, TWO63);
    NotZero(pct, a);
    NegativeSwing(a, pct, u);
    assert wait as real == -a;
    TinySum(wait, Swing(wait as real * pct, u), p);
  }

  lemma TinySum(wait: Int, jitter: real, p: Platform)
    requires wait < 0 && -1.0 < jitter <= 1.0
    ensures Sum(wait, ToInt(jitter, p)) <= 0
  {
  }

  lemma NotZero(a: real, b: real)
    requires a > 0.0 && b > 0.0
    ensures a * b > 0.0
  {
  }

  lemma NegativeSwing(a: real, pct: real, u: real)
    requires 0.0 < pct * a <= 1.0 && Draw(u)
    ensures -1.0 < Swing((-a) * pct, u) <= 1.0
  {
    var k := pct * a;
    assert (-a) * pct == -k;
    SwingWithin(k, u);
    Opposite(k, 2.0 * u - 1.0);
  }

  lemma SwingWithin(spread: real, u: real)
    requires 0.0 < spread <= 1.0 && Draw(u)
    ensures -1.0 <= Swing(spread, u) < 1.0
  {
    var v := 2.0 * u - 1.0;
    SwingInRange(spread, u);
    if v > 0.0 {
      MulMonotone(v, spread, 1.0);
    } else {
      MulMonotone(spread, v, 0.0);
    }
  }

  lemma Opposite(a: real, b: real)
    ensures (-a) * b == -(a * b)
  {
  }

  lemma WaitInRange(o: Options, i: nat, u: real)
    requires o.backoff.Sane() && Draw(u) && Settled(o, i)
    ensures Slept(WaitFor(o, i, u)) as real <= Ceiling(o.backoff)
  {
    var wait, pct := Capped(o, i), o.backoff.jitterPct;
    CeilingNonNegative(o.backoff);
    if Ceiling(o.backoff) < MAX_INT as real && pct > 0.0 {
      if wait < 0 {
        if Fits(Raw(o.backoff, i)) || o.platform.above >= 0 {
          CappedSign(o, i);
        }
        JitterOfNegative(wait, pct, u, o.platform);
      } else {
        JitterStays(o.backoff, wait, u, o.platform);
      }
    }
  }

  /** Otherwise some draw makes the sum wrap around to the longest sleep there is. */
  lemma WrapsAround(o: Options, i: nat) returns (u: real)
    requires o.backoff.Sane() && !Settled(o, i) && o.platform.above == MIN_INT
    ensures Draw(u) && WaitFor(o, i, u) == MAX_INT && MAX_INT as real > Ceiling(o.backoff)
  {
    var pct := o.backoff.jitterPct;
    var k := pct * TWO63;
    u := 0.5 + 0.5 / k;
    assert 0.5 / k * k == 0.5;
    assert u < 1.0 by {
      if 0.5 / k >= 0.5 {
        MulMonotone(k, 0.5, 0.5 / k);
      }
    }
    RawNonNegative(o.backoff, i);
    assert Capped(o, i) == MIN_INT;
    assert Swing(MIN_INT as real * pct, u) == -1.0 by {
      assert MIN_INT as real * pct == -k;
      assert 2.0 * u - 1.0 == 2.0 * (0.5 / k);
      assert (-k) * (2.0 * (0.5 / k)) == -2.0 * (0.5 / k * k);
    }
  }

  /** No draw carries this attempt's wait past the ceiling. */
  ghost predicate AlwaysWithin(o: Options, i: nat) {
    forall u :: Draw(u) ==> Slept(WaitFor(o, i, u)) as real <= Ceiling(o.backoff)
  }

  /** On a platform whose conversion of a too large value yields the smallest int or anything not
      negative, that is so exactly when the attempt is settled. */
  lemma WithinExactly(o: Options, i: nat)
    requires o.backoff.Sane() && (o.platform.above >= 0 || o.platform.above == MIN_INT)
    ensures AlwaysWithin(o, i) <==> Settled(o, i)
  {
    if Settled(o, i) {
      forall u | Draw(u)
        ensures Slept(WaitFor(o, i, u)) as real <= Ceiling(o.backoff)
      {
        WaitInRange(o, i, u);
      }
    } else {
      var u := WrapsAround(o, i);
    }
  }

  lemma {:induction false} RoundsCounts<T>(o: Options, s: Script<T>, k: nat)
    ensures var t := Rounds(o, s, k);
            && Calls(t) == k && Resets(t) == (if k > 0 && o.hasReset then k - 1 else 0)
            && Hooks(t) == (if o.hasHook then k else 0)
  {
    if k > 0 {
      var a, b := Rounds(o, s, k - 1), Round(o, s, k - 1);
      RoundsCounts(o, s, k - 1);
      RoundCounts(o, s, k - 1);
      CountsConcat(a, b);
      assert Rounds(o, s, k) == a + b;
    }
  }

  /** k copies of c, added up. */
  function Times(k: nat, c: real): real {
    if k == 0 then 0.0 else Times(k - 1, c) + c
  }

  lemma {:induction false} TimesIsProduct(k: nat, c: real)
    ensures Times(k, c) == k as real * c
  {
    if k > 0 {
      TimesIsProduct(k - 1, c);
      assert k as real * c == (k - 1) as real * c + c;
    }
  }

  lemma {:induction false} TimesGrows(j: nat, k: nat, c: real)
    requires j <= k && c >= 0.0
    ensures Times(j, c) <= Times(k, c)
  {
    if j < k {
      TimesGrows(j, k - 1, c);
    }
  }

  /** No wait the loop can come to takes longer than cap. */
  ghost predicate WaitsWithin<T>(o: Options, s: Script<T>, cap: real) {
    cap >= 0.0 && forall i: nat :: i < o.maxRetries ==> Slept(WaitFor(o, i, s.draw(i))) as real <= cap
  }

  lemma {:induction false} RoundsWaited<T>(o: Options, s: Script<T>, k: nat, cap: real)
    requires WaitsWithin(o, s, cap) && k <= o.maxRetries
    ensures Waited(Rounds(o, s, k)) as real <= Times(k, cap)
  {
    if k > 0 {
      RoundsWaited(o, s, k - 1, cap);
      RoundsSum(o, s, k);
      assert Slept(WaitFor(o, k - 1, s.draw(k - 1))) as real <= cap;
    }
  }

  lemma RoundsSum<T>(o: Options, s: Script<T>, k: nat)
    requires k > 0
    ensures Waited(Rounds(o, s, k)) == Waited(Rounds(o, s, k - 1)) + Slept(WaitFor(o, k - 1, s.draw(k - 1)))
  {
    var a, b := Rounds(o, s, k - 1), Round(o, s, k - 1);
    RoundCounts(o, s, k - 1);
    CountsConcat(a, b);
    assert Rounds(o, s, k) == a + b;
  }

  lemma LastWaited<T>(o: Options, s: Script<T>, k: nat, cap: real)
    requires WaitsWithin(o, s, cap)
    ensures Waited(LastRound(o, s, k)) as real <= if k < o.maxRetries then cap else 0.0
  {
    RoundCounts(o, s, k);
    TriedCounts(o, k);
  }

  lemma TraceWaited<T>(o: Options, s: Script<T>, k: nat, cap: real)
    requires EndsAt(o, s, k) && WaitsWithin(o, s, cap)
    ensures Waited(TraceTo(o, s, k)) as real <= Times(o.maxRetries, cap)
  {
    var a, b := Rounds(o, s, k), LastRound(o, s, k);
    RoundsWaited(o, s, k, cap);
    CountsConcat(a, b);
    LastWaited(o, s, k, cap);
    TimesGrows(if k < o.maxRetries then k + 1 else k, o.maxRetries, cap);
  }

  /** How often the loop calls, resets and reports, whatever the script: at most
      maxRetries + 1 calls, one reset between any two, and at most one report more. */
  lemma TraceCounts<T>(o: Options, s: Script<T>, k: nat)
    requires EndsAt(o, s, k)
    ensures var t := TraceTo(o, s, k);
            && k <= Calls(t) <= o.maxRetries + 1
            && (o.hasReset ==> Resets(t) == if Calls(t) == 0 then 0 else Calls(t) - 1)
            && (!o.hasReset ==> Resets(t) == 0)
            && (o.hasReset && o.hasHook ==> 0 <= Hooks(t) - Resets(t) <= 1)
            && (!o.hasHook ==> Hooks(t) == 0)
  {
    RoundsCounts(o, s, k);
    CountsConcat(Rounds(o, s, k), LastRound(o, s, k));
    RoundCounts(o, s, k);
    TriedCounts(o, k);
  }

  lemma WaitsCapped<T>(o: Options, s: Script<T>)
    requires o.backoff.Sane() && forall i: nat :: Draw(s.draw(i))
    requires forall i: nat :: i < o.maxRetries ==> Settled(o, i)
    ensures WaitsWithin(o, s, Ceiling(o.backoff))
  {
    CeilingNonNegative(o.backoff);
    forall i: nat | i < o.maxRetries
      ensures Slept(WaitFor(o, i, s.draw(i))) as real <= Ceiling(o.backoff)
    {
      WaitInRange(o, i, s.draw(i));
    }
  }

  /** When every attempt followed by a wait is settled, all waiting together stays within maxRetries
      waits of the stretched cap. */
  lemma WaitingBounded<T>(o: Options, s: Script<T>, k: nat)
    requires EndsAt(o, s, k) && o.backoff.Sane() && forall i: nat :: Draw(s.draw(i))
    requires forall i: nat :: i < o.maxRetries ==> Settled(o, i)
    ensures Waited(TraceTo(o, s, k)) as real <= Times(o.maxRetries, Ceiling(o.backoff))
  {
    WaitsCapped(o, s);
    TraceWaited(o, s, k, Ceiling(o.backoff));
  }

  /** Without jitter the loop waits after attempt i as long as a pool item cools down at trip i + 1, as long
      as the growth stays in range. */
  lemma WaitsLikeCooldown(o: Options, i: Int, u: real)
    requires o.backoff.Sane() && o.backoff.jitterPct == 0.0 && 0 <= i < MAX_INT && Fits(Raw(o.backoff, i))
    ensures WaitFor(o, i, u) == Duration(o.backoff, i + 1, u, o.platform)
    ensures WaitFor(o, i, u) as real <= Base(o.backoff, i) < WaitFor(o, i, u) as real + 1.0
  {
    BaseInRange(o.backoff, i);
    assert Swing(0.0, u) == 0.0;
    assert Base(o.backoff, i) * 0.0 == 0.0;
  }

  /** Without jitter waits never get shorter while the growth stays in the range of a Duration, and on
      any platform whose conversion then yields the largest value. */
  lemma WaitsGrow(o: Options, i: nat, j: nat, u: real, v: real)
    requires o.backoff.jitterPct == 0.0 && o.backoff.initialWait >= 0 && o.backoff.multiplier >= 1.0
    requires i <= j && (Fits(Raw(o.backoff, j)) || o.platform.above >= o.backoff.maxWait)
    ensures WaitFor(o, i, u) <= WaitFor(o, j, v)
  {
    RawGrows(o.backoff, i, j);
  }

  /** Where the conversion yields a negative value instead, a later wait is shorter exactly when it
      is the one of the two that leaves the range. */
  lemma WaitsGrowExactly(o: Options, i: nat, j: nat, u: real, v: real)
    requires o.backoff.jitterPct == 0.0 && o.backoff.initialWait >= 0 && o.backoff.multiplier >= 1.0
    requires i <= j && o.platform.above < 0 <= o.backoff.maxWait
    ensures WaitFor(o, i, u) <= WaitFor(o, j, v) <==> Fits(Raw(o.backoff, j)) || !Fits(Raw(o.backoff, i))
  {
    RawGrows(o.backoff, i, j);
  }

  lemma PowAdds(x: real, m: nat, n: nat)
    ensures Pow(x, m + n) == Pow(x, m) * Pow(x, n)
  {
    if m > 0 {
      PowAdds(x, m - 1, n);
      Regroup(x, Pow(x, m - 1), Pow(x, n));
    }
  }

  lemma Regroup(a: real, b: real, c: real)
    ensures a * (b * c) == (a * b) * c
  {
  }

  /** With the default 500 ms and factor 2 the range is left at attempt 35. */
  lemma DefaultLeavesRange(c: Config)
    requires c.initialWait == 500_000_000 && c.multiplier == 2.0
    ensures Fits(Raw(c, 34)) && !Fits(Raw(c, 35)) && Raw(c, 35) > 0.0
  {
    assert Pow(2.0, 2) == 4.0;
    PowAdds(2.0, 2, 2);
    PowAdds(2.0, 4, 4);
    PowAdds(2.0, 8, 8);
    PowAdds(2.0, 16, 16);
    PowAdds(2.0, 32, 2);
    PowAdds(2.0, 1, 34);
  }

  /** There, with a cap of 10 s, a jitter of 30 percent and a draw of 0.75, the loop sleeps for about
      248 years where the conversion yields the smallest int. */
  lemma DefaultSleepsForYears(o: Options)
    requires o.backoff == Config(500_000_000, 10_000_000_000, 2.0, 0.3) && o.platform.above == MIN_INT
    ensures WaitFor(o, 35, 0.75) == 7_839_866_231_326_559_437
    ensures WaitFor(o, 35, 0.75) as real > 36.0 * Ceiling(o.backoff)
  {
    DefaultLeavesRange(o.backoff);
    assert Capped(o, 35) == MIN_INT;
    var jitter := Swing(MIN_INT as real * 0.3, 0.75);
    assert jitter == -0.15 * TWO63;
    assert Truncated(jitter) == -1_383_505_805_528_216_371;
  }

  /** A reset comes directly before a call that is not the first, a report directly after the call it
      follows, and a wait after that, with the length for its attempt. */
  predicate ShapedAt<T>(o: Options, s: Script<T>, t: seq<Event>, j: nat) {
    j < |t| &&
    match t[j]
    case Reset => o.hasReset && j + 1 < |t| && t[j + 1].Call? && t[j + 1].attempt > 0
    case Call(i) => i > 0 && o.hasReset ==> j > 0 && t[j - 1] == Reset
    case Hook(next, of) => o.hasHook && of == o.maxRetries && next > 0 && j > 0 && t[j - 1] == Call(next - 1)
    case Wait(d) =>
      && j > 0
      && (o.hasHook ==>
            t[j - 1].Hook? && t[j - 1].next > 0 && d == WaitFor(o, t[j - 1].next - 1, s.draw(t[j - 1].next - 1)))
      && (!o.hasHook ==> t[j - 1].Call? && d == WaitFor(o, t[j - 1].attempt, s.draw(t[j - 1].attempt)))
  }

  predicate Shaped<T>(o: Options, s: Script<T>, t: seq<Event>) {
    forall j :: 0 <= j < |t| ==> ShapedAt(o, s, t, j)
  }

  lemma ShapedConcat<T>(o: Options, s: Script<T>, a: seq<Event>, b: seq<Event>)
    ensures Shaped(o, s, a) && Shaped(o, s, b) ==> Shaped(o, s, a + b)
  {
    var t := a + b;
    forall j | 0 <= j < |t| && Shaped(o, s, a) && Shaped(o, s, b)
      ensures ShapedAt(o, s, t, j)
    {
      if j < |a| {
        assert ShapedAt(o, s, a, j);
      } else {
        assert ShapedAt(o, s, b, j - |a|);
      }
    }
  }

  lemma TriedShaped<T>(o: Options, s: Script<T>, i: nat)
    ensures Shaped(o, s, Tried(o, i))
  {
  }

  lemma RoundShaped<T>(o: Options, s: Script<T>, i: nat)
    ensures Shaped(o, s, Round(o, s, i))
  {
  }

  lemma {:induction false} RoundsShaped<T>(o: Options, s: Script<T>, k: nat)
    ensures Shaped(o, s, Rounds(o, s, k))
  {
    if k > 0 {
      RoundsShaped(o, s, k - 1);
      RoundShaped(o, s, k - 1);
      ShapedConcat(o, s, Rounds(o, s, k - 1), Round(o, s, k - 1));
    }
  }

  /** So it is in the trace of every script. */
  lemma TraceShaped<T>(o: Options, s: Script<T>, k: nat)
    ensures Shaped(o, s, TraceTo(o, s, k))
  {
    RoundsShaped(o, s, k);
    TriedShaped(o, s, k);
    RoundShaped(o, s, k);
    ShapedConcat(o, s, Rounds(o, s, k), LastRound(o, s, k));
  }

  lemma EndUnique<T>(o: Options, s: Script<T>, j: nat, k: nat)
    requires EndsAt(o, s, j) && EndsAt(o, s, k)
    ensures j == k
  {
    assert j < k ==> Continues(o, s, j);
    assert k < j ==> Continues(o, s, k);
  }

  /** A value is returned exactly when some attempt within the limit succeeds while every
      earlier one failed retryably and the context stayed alive. */
  lemma ValueReturned<T>(o: Options, s: Script<T>, k: nat, v: T)
    requires EndsAt(o, s, k)
    ensures OutcomeAt(o, s, k) == Value(v) <==>
            exists j: nat :: j <= o.maxRetries && !s.cancelledBefore(j) && s.outcome(j) == Ok(v)
                             && forall i: nat :: i < j ==> Continues(o, s, i)
  {
    forall j: nat | j <= o.maxRetries && !s.cancelledBefore(j) && s.outcome(j) == Ok(v)
                    && forall i: nat :: i < j ==> Continues(o, s, i)
      ensures OutcomeAt(o, s, k) == Value(v)
    {
      assert !Continues(o, s, j);
      EndUnique(o, s, j, k);
    }
  }

  /** An error is returned exactly when it is the first one not worth retrying, or the one the
      last allowed attempt met. */
  lemma ErrorReturned<T>(o: Options, s: Script<T>, k: nat, e: Error)
    requires EndsAt(o, s, k)
    ensures OutcomeAt(o, s, k) == Failed(e) <==>
            exists j: nat :: j <= o.maxRetries && !s.cancelledBefore(j) && s.outcome(j) == Err(e)
                             && (!IsRetryable(e) || j == o.maxRetries)
                             && forall i: nat :: i < j ==> Continues(o, s, i)
  {
    forall j: nat | j <= o.maxRetries && !s.cancelledBefore(j) && s.outcome(j) == Err(e)
                    && (!IsRetryable(e) || j == o.maxRetries)
                    && forall i: nat :: i < j ==> Continues(o, s, i)
      ensures OutcomeAt(o, s, k) == Failed(e)
    {
      assert !Continues(o, s, j);
      EndUnique(o, s, j, k);
    }
  }

  /** A cancellation is returned exactly when it comes before the first attempt that would end the loop,
      or during the wait after a retryable failure. */
  lemma CancelledReturned<T>(o: Options, s: Script<T>, k: nat)
    requires EndsAt(o, s, k)
    ensures OutcomeAt(o, s, k) == Cancelled <==>
            exists j: nat :: j <= o.maxRetries && (forall i: nat :: i < j ==> Continues(o, s, i))
                             && (s.cancelledBefore(j)
                                 || (s.cancelledDuring(j) && j < o.maxRetries && s.outcome(j).Err?
                                     && IsRetryable(s.outcome(j).error)))
  {
    forall j: nat | j <= o.maxRetries && (forall i: nat :: i < j ==> Continues(o, s, i))
                    && (s.cancelledBefore(j) || s.cancelledDuring(j)) && !Continues(o, s, j)
      ensures j == k
    {
      EndUnique(o, s, j, k);
    }
  }
}

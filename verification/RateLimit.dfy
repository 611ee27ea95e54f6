/** Per-key rate limiting with adaptive caps and blocked-until times (ratelimit/ratelimit.go). */
module RateLimit {
  import opened Prelude
  import opened Clock
  import opened RateStore

  /** The clock readings of one call, in order: the limiter's own, the one getOrCreate takes for
      a new entry, and the one that decides about window expiry. */
  datatype Readings = Readings(now: Instant, created: Instant, later: Instant) {
    predicate Ordered() {
      now <= created <= later
    }
  }

  /** Allow on one key: its entry afterwards and the answer. */
  function Polled(e: Option<Entry>, cap: int, window: Duration, r: Readings): (Option<Entry>, bool) {
    if r.now < BlockedUntil(e) then (e, false)
    else
      var next := Incremented(e, window, r.created, r.later);
      (Some(next), next.count <= cap)
  }

  function Limited(e: Option<Entry>, cap: int, window: Duration, now: Instant, later: Instant): bool {
    var (count, start) := Counted(e, window, later);
    now < BlockedUntil(e) || (count >= cap && Sub(now, start) <= window)
  }

  /** AvailableAt on one key: the earlier of the two limits, or ZERO. */
  function Available(e: Option<Entry>, cap: int, window: Duration, now: Instant, later: Instant): Time {
    var (count, start) := Counted(e, window, later);
    var blocked := if now < BlockedUntil(e) then BlockedUntil(e) else ZERO;
    if count >= cap && now < start + window && (blocked == ZERO || start + window < blocked)
    then start + window else blocked
  }

  function OpsOf(ops: map<Key, seq<Op>>, key: Key): seq<Op> {
    if key in ops then ops[key] else []
  }

  class Limiter {
    const requestsPerWindow: int
    const window: Duration
    const store: MemoryStore
    var perKeyCap: map<Key, int>
    /** Every store operation so far, by key, and the latest clock reading among them. */
    ghost var ops: map<Key, seq<Op>>
    ghost var latest: int

    ghost predicate Valid()
      reads this`ops, this`latest, store
    {
      forall key :: KeyValid(key)
    }

    ghost predicate KeyValid(key: Key)
      reads this`ops, this`latest, store
    {
      && Lookup(store.state, key) == After(OpsOf(ops, key), window)
      && Monotone(OpsOf(ops, key))
      && forall i :: 0 <= i < |OpsOf(ops, key)| ==> OpsOf(ops, key)[i].At() <= latest
    }

    constructor (requestsPerWindow: int, window: Duration)
      ensures Valid() && fresh(store)
      ensures this.requestsPerWindow == requestsPerWindow && this.window == window
      ensures perKeyCap == map[] && ops == map[] && latest == 0 && store.state == map[]
    {
      this.requestsPerWindow, this.window := requestsPerWindow, window;
      store := new MemoryStore();
      perKeyCap, ops, latest := map[], map[], 0;
    }

    function CapFor(key: Key): (cap: int)
      reads this
      ensures cap == if key in perKeyCap then perKeyCap[key] else requestsPerWindow
    {
      if key in perKeyCap then perKeyCap[key] else requestsPerWindow
    }

    method UpdateLimit(key: Key, limit: int)
      requires Valid()
      modifies this`perKeyCap
      ensures Valid()
      ensures forall k :: CapFor(k) == if k == key && limit > 0 then limit else old(CapFor(k))
    {
      if limit <= 0 {
        return;
      }
      perKeyCap := perKeyCap[key := limit];
    }

    /** A poll refused by a block changes nothing; any other poll is one Inc op, and it is allowed
        exactly when that op is admitted. Other keys keep their history. */
    method Allow(key: Key, r: Readings) returns (allowed: bool)
      requires Valid() && r.Ordered() && latest <= r.now
      modifies this`ops, this`latest, store
      ensures Valid() && latest <= r.later
      ensures (Lookup(store.state, key), allowed) ==
              Polled(Lookup(old(store.state), key), CapFor(key), window, r)
      ensures r.now < BlockedUntil(Lookup(old(store.state), key)) ==> ops == old(ops) && !allowed
      ensures r.now >= BlockedUntil(Lookup(old(store.state), key)) ==>
                && ops == old(ops)[key := OpsOf(old(ops), key) + [Inc(r.created, r.later, CapFor(key))]]
                && allowed == Admitted(ops[key], window, |ops[key]| - 1)
      ensures forall k :: k != key ==> Lookup(store.state, k) == Lookup(old(store.state), k)
    {
      var blocked := store.GetBlocked(key);
      if r.now < blocked {
        return false;
      }
      assert KeyValid(key);
      ghost var history := OpsOf(ops, key);
      ghost var op := Inc(r.created, r.later, CapFor(key));
      var count, _ := store.Increment(key, window, r.created, r.later);
      allowed := count <= CapFor(key);
      forall k | k != key
        ensures KeyValid(k)
      {
        assert old(KeyValid(k));
      }
      Record(key, op);
      assert ops[key][..|ops[key]|] == ops[key];
    }

    method MarkRateLimited(key: Key, until: Time, created: Instant)
      requires Valid() && latest <= created
      modifies this`ops, this`latest, store
      ensures Valid() && latest <= created
      ensures ops == old(ops)[key := OpsOf(old(ops), key) + [Block(created, until)]]
      ensures BlockedUntil(Lookup(store.state, key)) == until
      ensures Lookup(store.state, key) ==
              Some(Opened(Lookup(old(store.state), key), created).(blockedUntil := until))
      ensures forall k :: k != key ==> Lookup(store.state, k) == Lookup(old(store.state), k)
    {
      assert KeyValid(key);
      store.SetBlocked(key, until, created);
      forall k | k != key
        ensures KeyValid(k)
      {
        assert old(KeyValid(k));
      }
      Record(key, Block(created, until));
    }

    /** Adds op to key's history. */
    ghost method Record(key: Key, op: Op)
      requires latest <= op.created <= op.At()
      requires forall k :: k != key ==> KeyValid(k)
      requires Monotone(OpsOf(ops, key))
      requires forall i :: 0 <= i < |OpsOf(ops, key)| ==> OpsOf(ops, key)[i].At() <= latest
      requires Lookup(store.state, key) == After(OpsOf(ops, key) + [op], window)
      modifies this`ops, this`latest
      ensures Valid() && latest == op.At()
      ensures ops == old(ops)[key := OpsOf(old(ops), key) + [op]]
    {
      ops := ops[key := OpsOf(ops, key) + [op]];
      latest := op.At();
      forall k | k != key
        ensures KeyValid(k)
      {
        assert old(KeyValid(k));
        assert OpsOf(ops, k) == old(OpsOf(ops, k));
      }
    }

    method IsRateLimited(key: Key, now: Instant, later: Instant) returns (limited: bool)
      ensures limited == Limited(Lookup(store.state, key), CapFor(key), window, now, later)
    {
      var blocked := store.GetBlocked(key);
      if now < blocked {
        return true;
      }
      var count, windowStart := store.Count(key, window, later);
      limited := count >= CapFor(key) && Sub(now, windowStart) <= window;
    }

    method AvailableAt(key: Key, now: Instant, later: Instant) returns (t: Time)
      ensures t == Available(Lookup(store.state, key), CapFor(key), window, now, later)
    {
      t := ZERO;
      var blocked := store.GetBlocked(key);
      if now < blocked {
        t := blocked;
      }
      var count, windowStart := store.Count(key, window, later);
      if count >= CapFor(key) {
        var windowEnd := windowStart + window;
        if now < windowEnd {
          if t == ZERO || windowEnd < t {
            t := windowEnd;
          }
        }
      }
    }

    /** Over the limiter's whole life, a closed interval of one window length admits at most
        twice the largest cap ever in force for the key. */
    lemma KeyBound(key: Key, a: int, c: nat)
      requires Valid() && CapsAtMost(OpsOf(ops, key), c)
      ensures |AdmittedIn(OpsOf(ops, key), window, a)| <= 2 * c
    {
      assert KeyValid(key);
      IntervalBound(OpsOf(ops, key), window, a, c);
    }
  }

  /** Every poll that ends before t is refused: t is no later than the block, or the window is
      used up and lasts until t. */
  ghost predicate ClosedUntil(e: Option<Entry>, cap: int, window: Duration, t: Time) {
    t <= BlockedUntil(e) || (e.Some? && e.value.count >= cap && t <= e.value.windowStart + window)
  }

  /** The entry after a run of polls. */
  function PolledAll(e: Option<Entry>, cap: int, window: Duration, polls: seq<Readings>): Option<Entry> {
    if |polls| == 0 then e
    else Polled(PolledAll(e, cap, window, polls[..|polls| - 1]), cap, window, polls[|polls| - 1]).0
  }

  lemma {:induction false} StaysClosed(e: Option<Entry>, cap: int, window: Duration, t: Time, polls: seq<Readings>)
    requires ClosedUntil(e, cap, window, t)
    requires forall i :: 0 <= i < |polls| ==> polls[i].Ordered() && polls[i].later < t
    ensures ClosedUntil(PolledAll(e, cap, window, polls), cap, window, t)
  {
    if |polls| > 0 {
      StaysClosed(e, cap, window, t, polls[..|polls| - 1]);
    }
  }

  /** While caps and blocks stay as they are, every Allow strictly before the time AvailableAt
      returned fails, however many polls were made in between. */
  lemma AvailableAtSound(e: Option<Entry>, cap: int, window: Duration, now: Instant, later: Instant,
                         polls: seq<Readings>, last: Readings)
    requires now <= later
    requires forall i :: 0 <= i < |polls| ==>
               polls[i].Ordered() && polls[i].later < Available(e, cap, window, now, later)
    requires last.Ordered() && last.later < Available(e, cap, window, now, later)
    ensures !Polled(PolledAll(e, cap, window, polls), cap, window, last).1
  {
    var t := Available(e, cap, window, now, later);
    assert ClosedUntil(e, cap, window, t);
    StaysClosed(e, cap, window, t, polls);
  }

  /** The time AvailableAt returns is the one at which the key becomes available exactly when it is
      the end of a block, outside of which the window would not refuse. The end of a window is
      never such a time, since expiry is strict, nor is the end of a block inside a used-up window. */
  lemma AvailableAtExactly(e: Option<Entry>, cap: int, window: Duration, now: Instant)
    requires e.Some? ==> e.value.windowStart <= now
    requires Available(e, cap, window, now, now) != ZERO
    ensures var t := Available(e, cap, window, now, now);
            t > MAX_DURATION &&
            (Polled(e, cap, window, Readings(t, t, t)).1 <==>
             && cap >= 1 && now < BlockedUntil(e)
             && (e.value.count < cap || (window < MAX_DURATION && now >= e.value.windowStart + window)))
  {
  }

  function Unblocked(e: Option<Entry>): Option<Entry> {
    if e == None then None else Some(e.value.(blockedUntil := ZERO))
  }

  /** Without a block a nonzero answer is the last refusing instant: a poll then is refused, and one a
      nanosecond later is let in. A block answers its own end, unless it would be earlier without it. */
  lemma AvailableAtLastRefusal(e: Option<Entry>, cap: int, window: Duration, now: Instant, later: Instant)
    requires now <= later && (e.Some? ==> e.value.windowStart <= now)
    requires cap >= 1 && window < MAX_DURATION
    ensures var t := Available(e, cap, window, now, later);
            t != ZERO && now >= BlockedUntil(e) ==>
              && t >= now && t > MAX_DURATION
              && !Polled(e, cap, window, Readings(t, t, t)).1
              && Polled(e, cap, window, Readings(t + 1, t + 1, t + 1)).1
    ensures var free := Available(Unblocked(e), cap, window, now, later);
            now < BlockedUntil(e) ==>
              Available(e, cap, window, now, later) ==
              if free != ZERO && free < BlockedUntil(e) then free else BlockedUntil(e)
  {
  }

  /** An answer that is far too early: with the window used up until s + 10 and a block until
      s + 100 it is s + 10, and polls then and forty instants later are still refused. */
  lemma AvailableAtTooEarly(s: Instant) returns (e: Option<Entry>)
    ensures Available(e, 1, 10, s + 5, s + 5) == s + 10
    ensures !Polled(e, 1, 10, Readings(s + 10, s + 10, s + 10)).1
    ensures !Polled(e, 1, 10, Readings(s + 50, s + 50, s + 50)).1
  {
    e := Some(Entry(1, s, s + 100));
  }

  /** "Available right now" is right exactly when neither of two things holds: the window is used up
      and over without having expired, which is its very last instant (or, for the longest Duration,
      any later one, since Sub saturates); or the cap admits nothing and no limit is in force. */
  lemma AvailableNowExactly(e: Option<Entry>, cap: int, window: Duration, t: Instant)
    requires e.Some? ==> e.value.windowStart <= t
    ensures (Available(e, cap, window, t, t) == ZERO <==> Polled(e, cap, window, Readings(t, t, t)).1) <==>
            !(&& t >= BlockedUntil(e)
              && if cap >= 1
                 then e.Some? && e.value.count >= cap && t >= e.value.windowStart + window
                      && !Expired(e.value, window, t)
                 else e == None || Expired(e.value, window, t) || t >= e.value.windowStart + window)
  {
  }

  /** The two views of one instant: IsRateLimited agrees with Allow exactly when the cap is
      positive, the key is blocked, its window is still open, or windows last for ever. */
  lemma LimitedIffRefused(e: Option<Entry>, cap: int, window: Duration, t: Instant)
    requires e.Some? ==> e.value.windowStart <= t
    ensures (Limited(e, cap, window, t, t) <==> !Polled(e, cap, window, Readings(t, t, t)).1) <==>
            (cap >= 1 || t < BlockedUntil(e) || (e.Some? && !Expired(e.value, window, t))
             || window == MAX_DURATION)
  {
  }

  /** Once the block is over and the window has expired, a positive cap lets the next poll in. */
  lemma OpensAgain(e: Option<Entry>, cap: int, window: Duration, r: Readings)
    requires cap >= 1 && r.now >= BlockedUntil(e)
    requires e.Some? ==> Expired(e.value, window, r.later)
    ensures Polled(e, cap, window, r).1
  {
  }
}

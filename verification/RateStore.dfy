/** The in-memory rate-limit store (ratelimit/store.go) and what its window counter admits over
    arbitrary runs. The documented sliding window is a tumbling one: a window opens at some
    request and is replaced by the first request more than its length later. */
module RateStore {
  import opened Prelude
  import opened Clock
  import opened Sequences

  type Key = string

  datatype Entry = Entry(count: nat, windowStart: Time, blockedUntil: Time)

  /** The entry getOrCreate returns; created is the clock reading it takes for a new one. */
  function Opened(e: Option<Entry>, created: Instant): Entry {
    if e.Some? then e.value else Entry(0, created, ZERO)
  }

  predicate Expired(e: Entry, window: Duration, now: Instant) {
    Sub(now, e.windowStart) > window
  }

  /** The entry after Increment; now is the reading that decides about expiry. */
  function Incremented(e: Option<Entry>, window: Duration, created: Instant, now: Instant): Entry {
    var o := Opened(e, created);
    if Expired(o, window, now) then o.(count := 1, windowStart := now) else o.(count := o.count + 1)
  }

  /** What Count reports: nothing once the window has expired. */
  function Counted(e: Option<Entry>, window: Duration, now: Instant): (nat, Time) {
    if e.None? || Expired(e.value, window, now) then (0, ZERO) else (e.value.count, e.value.windowStart)
  }

  function BlockedUntil(e: Option<Entry>): Time {
    if e.Some? then e.value.blockedUntil else ZERO
  }

  function Lookup(state: map<Key, Entry>, key: Key): Option<Entry> {
    if key in state then Some(state[key]) else None
  }

  class MemoryStore {
    var state: map<Key, Entry>

    constructor ()
      ensures state == map[]
    {
      state := map[];
    }

    method GetOrCreate(key: Key, created: Instant) returns (e: Entry)
      modifies this
      ensures e == Opened(Lookup(old(state), key), created)
      ensures state == old(state)[key := e]
    {
      if key in state {
        e := state[key];
        assert state == state[key := e];
      } else {
        e := Entry(0, created, ZERO);
        state := state[key := e];
      }
    }

    method Increment(key: Key, window: Duration, created: Instant, now: Instant)
      returns (count: nat, windowStart: Time)
      modifies this
      ensures state == old(state)[key := Incremented(Lookup(old(state), key), window, created, now)]
      ensures count == state[key].count && windowStart == state[key].windowStart
    {
      var e := GetOrCreate(key, created);
      if Sub(now, e.windowStart) > window {
        e := e.(count := 0, windowStart := now);
      }
      e := e.(count := e.count + 1);
      state := state[key := e];
      return e.count, e.windowStart;
    }

    method Count(key: Key, window: Duration, now: Instant) returns (count: nat, windowStart: Time)
      ensures (count, windowStart) == Counted(Lookup(state, key), window, now)
    {
      if key !in state || Sub(now, state[key].windowStart) > window {
        return 0, ZERO;
      }
      return state[key].count, state[key].windowStart;
    }

    method SetBlocked(key: Key, until: Time, created: Instant)
      modifies this
      ensures state == old(state)[key := Opened(Lookup(old(state), key), created).(blockedUntil := until)]
    {
      var e := GetOrCreate(key, created);
      state := state[key := e.(blockedUntil := until)];
    }

    method GetBlocked(key: Key) returns (until: Time)
      ensures until == BlockedUntil(Lookup(state, key))
    {
      if key in state {
        return state[key].blockedUntil;
      }
      return ZERO;
    }
  }

  /** One operation on a key's entry, with its clock readings. An increment carries the cap its
      count is compared with afterwards, so cap changes may fall anywhere. */
  datatype Op =
    | Inc(created: Instant, now: Instant, cap: int)
    | Block(created: Instant, until: Time)
  {
    /** The op's last clock reading. */
    function At(): Instant {
      if Inc? then now else created
    }
  }

  /** Readings never go back. */
  ghost predicate Monotone(ops: seq<Op>) {
    && (forall i :: 0 <= i < |ops| ==> ops[i].created <= ops[i].At())
    && (forall i, j :: 0 <= i < j < |ops| ==> ops[i].At() <= ops[j].created)
  }

  function After(ops: seq<Op>, window: Duration): Option<Entry> {
    if |ops| == 0 then None
    else
      var e := After(ops[..|ops| - 1], window);
      match ops[|ops| - 1]
      case Inc(created, now, _) => Some(Incremented(e, window, created, now))
      case Block(created, until) => Some(Opened(e, created).(blockedUntil := until))
  }

  /** The last op replaces an expired window. */
  predicate Resets(ops: seq<Op>, window: Duration) {
    |ops| > 0 && ops[|ops| - 1].Inc? &&
    Expired(Opened(After(ops[..|ops| - 1], window), ops[|ops| - 1].created), window, ops[|ops| - 1].now)
  }

  /** Number of windows that have been replaced: the epoch of the window now open. */
  function Epoch(ops: seq<Op>, window: Duration): nat {
    if |ops| == 0 then 0
    else Epoch(ops[..|ops| - 1], window) + (if Resets(ops, window) then 1 else 0)
  }

  /** Op i is a request that is let through. */
  predicate Admitted(ops: seq<Op>, window: Duration, i: nat)
    requires i < |ops|
  {
    ops[i].Inc? && After(ops[..i + 1], window).value.count <= ops[i].cap
  }

  ghost predicate CapsAtMost(ops: seq<Op>, c: nat) {
    forall i :: 0 <= i < |ops| && ops[i].Inc? ==> ops[i].cap <= c
  }

  /** Requests let through in window epoch n. */
  ghost function AdmittedInEpoch(ops: seq<Op>, window: Duration, n: nat): set<nat> {
    set i | 0 <= i < |ops| && Admitted(ops, window, i) && Epoch(ops[..i + 1], window) == n
  }

  /** Requests let through at an instant of the closed interval that starts at a. */
  ghost function AdmittedIn(ops: seq<Op>, window: Duration, a: int): set<nat> {
    set i | 0 <= i < |ops| && Admitted(ops, window, i) && a <= ops[i].now <= a + window
  }

  lemma AdmittedPrefix(ops: seq<Op>, window: Duration, n: nat)
    requires |ops| > 0
    ensures var front, last := ops[..|ops| - 1], |ops| - 1;
            AdmittedInEpoch(ops, window, n) ==
            AdmittedInEpoch(front, window, n)
            + if Admitted(ops, window, last) && Epoch(ops, window) == n then {last} else {}
  {
    var front, last := ops[..|ops| - 1], |ops| - 1;
    assert ops[..last + 1] == ops;
    assert forall i :: 0 <= i < last ==> front[..i + 1] == ops[..i + 1] && front[i] == ops[i];
  }

  lemma {:induction false} EpochsGrow(ops: seq<Op>, window: Duration, i: nat)
    requires i <= |ops|
    ensures Epoch(ops[..i], window) <= Epoch(ops, window)
    decreases |ops|
  {
    if i < |ops| {
      EpochsGrow(ops[..|ops| - 1], window, i);
      assert ops[..|ops| - 1][..i] == ops[..i];
    } else {
      assert ops[..i] == ops;
    }
  }

  /** A window epoch admits at most its largest cap, whatever is polled or updated meanwhile. */
  lemma {:induction false} EpochBound(ops: seq<Op>, window: Duration, n: nat, c: nat)
    requires CapsAtMost(ops, c)
    ensures |AdmittedInEpoch(ops, window, n)| <= c
    ensures n == Epoch(ops, window) ==>
              |AdmittedInEpoch(ops, window, n)| <= match After(ops, window) case None => 0 case Some(e) => e.count
    ensures n > Epoch(ops, window) ==> AdmittedInEpoch(ops, window, n) == {}
    decreases |ops|
  {
    if |ops| > 0 {
      var front, last := ops[..|ops| - 1], |ops| - 1;
      EpochBound(front, window, n, c);
      AdmittedPrefix(ops, window, n);
      assert ops[..last + 1] == ops;
    }
  }

  /** Requests of window epoch n, let through or not. */
  ghost function CountedInEpoch(ops: seq<Op>, window: Duration, n: nat): set<nat> {
    set i | 0 <= i < |ops| && ops[i].Inc? && Epoch(ops[..i + 1], window) == n
  }

  lemma CountedSnoc(front: seq<Op>, op: Op, window: Duration, n: nat)
    ensures CountedInEpoch(front + [op], window, n) ==
            CountedInEpoch(front, window, n) + if op.Inc? && Epoch(front + [op], window) == n then {|front|} else {}
  {
    var ops := front + [op];
    assert ops[..|front| + 1] == ops;
    assert forall i :: 0 <= i < |front| ==> front[..i + 1] == ops[..i + 1] && front[i] == ops[i];
  }

  lemma NoneAhead(ops: seq<Op>, window: Duration, n: nat)
    ensures n > Epoch(ops, window) ==> CountedInEpoch(ops, window, n) == {}
  {
    if i :| i in CountedInEpoch(ops, window, n) {
      EpochsGrow(ops, window, i + 1);
    }
  }

  /** The count is that of the requests made in the window now open, blocks in between or not. */
  lemma {:induction false} CountExactly(ops: seq<Op>, window: Duration)
    ensures (match After(ops, window) case None => 0 case Some(e) => e.count) ==
            |CountedInEpoch(ops, window, Epoch(ops, window))|
  {
    if |ops| > 0 {
      var front := ops[..|ops| - 1];
      CountExactly(front, window);
      CountedSnoc(front, ops[|ops| - 1], window, Epoch(ops, window));
      assert ops == front + [ops[|ops| - 1]];
      NoneAhead(front, window, Epoch(front, window) + 1);
    }
  }

  /** A request is let through exactly when no more than its cap have been made in its window. */
  lemma AdmittedExactly(ops: seq<Op>, window: Duration, i: nat)
    requires i < |ops| && ops[i].Inc?
    ensures var g := ops[..i + 1];
            Admitted(ops, window, i) <==> |CountedInEpoch(g, window, Epoch(g, window))| <= ops[i].cap
  {
    CountExactly(ops[..i + 1], window);
  }

  /** A window opened after request i starts no earlier than i; the one after it starts more
      than a window length later. */
  lemma {:induction false} WindowsApart(ops: seq<Op>, window: Duration, i: nat)
    requires Monotone(ops) && i < |ops| && ops[i].Inc?
    ensures After(ops, window).Some?
    ensures var e := After(ops, window).value;
            var passed := Epoch(ops, window) - Epoch(ops[..i + 1], window);
            && e.windowStart <= ops[|ops| - 1].At()
            && (passed >= 1 ==> e.windowStart >= ops[i].now)
            && (passed >= 2 ==> e.windowStart > ops[i].now + window)
    decreases |ops|
  {
    var front, last := ops[..|ops| - 1], |ops| - 1;
    StartsBeforeNow(ops, window);
    if i == last {
      assert ops[..i + 1] == ops;
    } else {
      assert front[..i + 1] == ops[..i + 1];
      WindowsApart(front, window, i);
      EpochsGrow(front, window, i + 1);
    }
  }

  lemma {:induction false} StartsBeforeNow(ops: seq<Op>, window: Duration)
    requires Monotone(ops) && |ops| > 0
    ensures After(ops, window).Some?
    ensures After(ops, window).value.windowStart <= ops[|ops| - 1].At()
    decreases |ops|
  {
    var front, last := ops[..|ops| - 1], |ops| - 1;
    if |front| > 0 {
      StartsBeforeNow(front, window);
      assert front[|front| - 1] == ops[last - 1];
    }
  }

  /** Requests within one window length of each other lie in the same or adjacent epochs. */
  lemma AdjacentEpochs(ops: seq<Op>, window: Duration, i: nat, j: nat)
    requires Monotone(ops) && i <= j < |ops| && ops[i].Inc? && ops[j].Inc?
    requires ops[j].now <= ops[i].now + window
    ensures Epoch(ops[..i + 1], window) <= Epoch(ops[..j + 1], window) <= Epoch(ops[..i + 1], window) + 1
  {
    var g := ops[..j + 1];
    assert g[..i + 1] == ops[..i + 1] && g[|g| - 1] == ops[j] && g[i] == ops[i];
    WindowsApart(g, window, i);
    EpochsGrow(g, window, i + 1);
  }

  lemma LeastOf(s: set<nat>) returns (m: nat)
    requires s != {}
    ensures m in s && forall x :: x in s ==> m <= x
    decreases |s|
  {
    var x :| x in s;
    m := x;
    var rest := s - {x};
    if rest != {} {
      var k := LeastOf(rest);
      m := if k < x then k else x;
    }
    assert forall y :: y in s ==> y == x || y in rest;
  }

  lemma IntervalCovered(ops: seq<Op>, window: Duration, a: int) returns (n: nat)
    requires Monotone(ops)
    ensures AdmittedIn(ops, window, a) <= AdmittedInEpoch(ops, window, n) + AdmittedInEpoch(ops, window, n + 1)
  {
    var s := AdmittedIn(ops, window, a);
    n := 0;
    if s != {} {
      var i := LeastOf(s);
      n := Epoch(ops[..i + 1], window);
      forall j | j in s
        ensures Epoch(ops[..j + 1], window) == n || Epoch(ops[..j + 1], window) == n + 1
      {
        AdjacentEpochs(ops, window, i, j);
      }
    }
  }

  lemma UnionSize(s: set<nat>, a: set<nat>, b: set<nat>, c: nat)
    requires s <= a + b && |a| <= c && |b| <= c
    ensures |s| <= 2 * c
  {
    SubsetSize(s, a + b);
    assert |a + b| + |a * b| == |a| + |b|;
  }

  lemma TwoEpochs(ops: seq<Op>, window: Duration, n: nat, c: nat, s: set<nat>)
    requires Monotone(ops) && CapsAtMost(ops, c)
    requires s <= AdmittedInEpoch(ops, window, n) + AdmittedInEpoch(ops, window, n + 1)
    ensures |s| <= 2 * c
  {
    var first, second := AdmittedInEpoch(ops, window, n), AdmittedInEpoch(ops, window, n + 1);
    EpochBound(ops, window, n, c);
    EpochBound(ops, window, n + 1, c);
    UnionSize(s, first, second, c);
  }

  /** Any closed interval of one window length sees at most twice the largest cap. */
  lemma IntervalBound(ops: seq<Op>, window: Duration, a: int, c: nat)
    requires Monotone(ops) && CapsAtMost(ops, c)
    ensures |AdmittedIn(ops, window, a)| <= 2 * c
  {
    var n := IntervalCovered(ops, window, a);
    TwoEpochs(ops, window, n, c, AdmittedIn(ops, window, a));
  }
}

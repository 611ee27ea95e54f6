/** Round-robin over items with cooldowns (pool/pool.go). Times are whole nanoseconds; 0 is the
    zero time, so an inactive item whose reactivation time is 0 never comes back by itself. */
module Pool {
  import opened Prelude
  import opened Clock
  import opened Rotation
  import Backoff
  import GoInt

  datatype ItemState = ItemState(active: bool, reactivateAt: Time)

  /** Next may return an item in this state at this instant, filter aside. */
  predicate Ready(s: ItemState, now: Time) {
    s.active || (s.reactivateAt != ZERO && now > s.reactivateAt)
  }

  function Revived(s: ItemState, now: Time): ItemState {
    if !s.active && s.reactivateAt != ZERO && now > s.reactivateAt then ItemState(true, ZERO) else s
  }

  class Item {
    const id: string
    var active: bool
    var reactivateAt: Time

    constructor (id: string)
      ensures this.id == id && State() == ItemState(true, ZERO)
    {
      this.id, active, reactivateAt := id, true, ZERO;
    }

    function State(): ItemState
      reads this
    {
      ItemState(active, reactivateAt)
    }

    /** Lifts an expired cooldown. */
    method Revive(now: Instant)
      modifies this
      ensures State() == Revived(old(State()), now)
    {
      if !active && reactivateAt != ZERO && now > reactivateAt {
        active := true;
        reactivateAt := ZERO;
      }
    }
  }

  /** What one call to Next is given: the state of every position, the clock, and which
      positions the filter accepts. */
  datatype Call = Call(states: seq<ItemState>, now: Time, accepts: seq<bool>) {
    predicate Fits(n: nat) {
      |states| == n && |accepts| == n
    }

    predicate Usable(p: nat)
      requires Fits(|states|) && p < |states|
    {
      Ready(states[p], now) && accepts[p]
    }
  }

  /** Next picks the first usable position at or after idx, and fails when there is none. */
  ghost predicate Picks(c: Call, idx: nat, pick: Option<nat>)
    requires c.Fits(|c.states|) && idx < |c.states|
  {
    var n := |c.states|;
    match pick
    case Some(p) => exists k: nat ::
      k < n && p == Ring(idx, k, n) && c.Usable(p) && forall j: nat :: j < k ==> !c.Usable(Ring(idx, j, n))
    case None => forall p: nat :: p < n ==> !c.Usable(p)
  }

  /** Some item is active or past its cooldown, and accepted. */
  ghost predicate SomeUsable(c: Call) {
    c.Fits(|c.states|) && exists p: nat :: p < |c.states| && c.Usable(p)
  }

  ghost predicate NoneUsable(c: Call, idx: nat, i: nat)
    requires c.Fits(|c.states|) && idx < |c.states| && i <= |c.states|
  {
    forall j: nat :: j < i ==> !c.Usable(Ring(idx, j, |c.states|))
  }

  lemma PicksNone(c: Call, idx: nat)
    requires c.Fits(|c.states|) && idx < |c.states| && NoneUsable(c, idx, |c.states|)
    ensures Picks(c, idx, None)
  {
    var n := |c.states|;
    forall p: nat | p < n
      ensures !c.Usable(p)
    {
      assert Ring(idx, Distance(idx, p, n), n) == p;
    }
  }

  ghost function StatesOf(items: seq<Item>): (s: seq<ItemState>)
    reads items
    ensures |s| == |items| && forall p :: 0 <= p < |s| ==> s[p] == items[p].State()
  {
    seq(|items|, p requires 0 <= p < |items| reads items => items[p].State())
  }

  ghost function Accepts(items: seq<Item>, accept: Item -> bool): (a: seq<bool>)
    ensures |a| == |items| && forall p :: 0 <= p < |a| ==> a[p] == accept(items[p])
  {
    seq(|items|, p requires 0 <= p < |items| => accept(items[p]))
  }

  /** x is among the first i positions from idx on. */
  ghost predicate Scanned(items: seq<Item>, idx: nat, i: nat, x: Item)
    requires |items| > 0 ==> idx < |items|
  {
    exists j: nat :: j < i && j < |items| && items[Ring(idx, j, |items|)] == x
  }

  /** The first i positions from idx on have had expired cooldowns lifted, the others not. */
  ghost predicate Looked(items: seq<Item>, before: seq<ItemState>, idx: nat, i: nat, now: Instant)
    requires |before| == |items| && (|items| > 0 ==> idx < |items|)
    reads items
  {
    forall q :: 0 <= q < |items| ==>
      items[q].State() == if Scanned(items, idx, i, items[q]) then Revived(before[q], now) else before[q]
  }

  /** Looks at the next position. */
  method LookAt(items: seq<Item>, ghost before: seq<ItemState>, idx: nat, i: nat, now: Instant) returns (p: nat)
    requires |before| == |items| && idx < |items| && i < |items| && Looked(items, before, idx, i, now)
    modifies items
    ensures p == Ring(idx, i, |items|) && items[p].active == Ready(before[p], now)
    ensures Looked(items, before, idx, i + 1, now)
  {
    RingIsMod(idx, i, |items|);
    p := (idx + i) % |items|;
    var item := items[p];
    item.Revive(now);
  }

  class Pool {
    var items: seq<Item>
    var idx: nat

    ghost predicate Valid()
      reads this
    {
      if |items| == 0 then idx == 0 else idx < |items|
    }

    constructor (items: seq<Item>)
      ensures Valid() && this.items == items && idx == 0
    {
      this.items, idx := items, 0;
    }

    /** Returns the position of the item handed out, what the call met, and how many positions were
        looked at: exactly the items looked at have an expired cooldown lifted. */
    method Next(accept: Item -> bool, now: Instant)
      returns (pick: Option<nat>, ghost c: Call, scanned: nat)
      requires Valid()
      modifies this`idx, items
      ensures Valid()
      ensures c == Call(old(StatesOf(items)), now, Accepts(items, accept))
      ensures pick == None <==> !SomeUsable(c)
      ensures |items| > 0 ==> Picks(c, old(idx), pick) && Stops(old(idx), |items|, pick, scanned)
      ensures idx == match pick case Some(p) => (p + 1) % |items| case None => old(idx)
      ensures Looked(items, c.states, old(idx), scanned, now)
    {
      pick, c, scanned := None, Call(StatesOf(items), now, Accepts(items, accept)), 0;
      var n := |items|;
      if n == 0 {
        return;
      }
      pick, scanned := Scan(items, idx, accept, now, c);
      if pick.Some? {
        idx := (pick.value + 1) % n;
      }
    }

    method DeactivateItem(item: Item)
      modifies item
      ensures item.State() == ItemState(false, ZERO)
    {
      item.active := false;
      item.reactivateAt := ZERO;
    }

    method SoftDeactivate(item: Item, cooldown: Duration, now: Instant)
      modifies item
      ensures item.State() == ItemState(false, now + cooldown)
    {
      item.active := false;
      item.reactivateAt := now + cooldown;
    }

    /** The cooldown grows with the trips; draw is the jitter's. */
    method SoftDeactivateBackoff(item: Item, cfg: Backoff.Config, trip: GoInt.Int, now: Instant, draw: real,
                                 platform: GoInt.Platform)
      modifies item
      ensures item.State() == ItemState(false, now + Backoff.Duration(cfg, trip, draw, platform))
      ensures cfg.Sane() && Backoff.Draw(draw) ==>
                now <= item.reactivateAt && (item.reactivateAt - now) as real <= Backoff.Ceiling(cfg)
    {
      if cfg.Sane() && Backoff.Draw(draw) {
        Backoff.DurationInRange(cfg, trip, draw, platform);
      }
      SoftDeactivate(item, Backoff.Duration(cfg, trip, draw, platform), now);
    }

    method Add(item: Item)
      requires Valid()
      modifies this`items
      ensures Valid() && items == old(items) + [item]
    {
      items := items + [item];
    }

    /** now is the reading the cooldowns are compared with, later the one the wait counts from. */
    method AvailableIn(now: Instant, later: Instant) returns (wait: int)
      requires now <= later
      ensures WaitFor(StatesOf(items), now, later, wait)
    {
      var earliest := ZERO;
      for i := 0 to |items|
        invariant forall q :: 0 <= q < i ==> !items[q].State().active
        invariant EarliestOf(StatesOf(items)[..i], now, earliest)
      {
        assert StatesOf(items)[..i + 1] == StatesOf(items)[..i] + [items[i].State()];
        if !items[i].active {
          var ra := items[i].reactivateAt;
          if ra != ZERO && ra > now {
            if earliest == ZERO || ra < earliest {
              earliest := ra;
            }
          }
          continue;
        }
        return 0;
      }
      assert StatesOf(items)[..|items|] == StatesOf(items);
      if earliest == ZERO {
        return 0;
      }
      wait := Sub(earliest, later);
      if wait <= 0 {
        return 0;
      }
    }

    /** What other callers do to the pool while one of them waits. */
    method Meanwhile(others: seq<Use>)
      requires Valid()
      modifies this`idx, this`items, items, Touched(others)
      ensures Valid() && Extends(items, old(items))
      ensures forall x :: x in items ==> x in old(items) || x in Touched(others)
      ensures forall x :: x in old(items) && !Targeted(others, x) ==> Kept(old(x.State()), x.State())
      ensures others == [] ==> idx == old(idx) && items == old(items) && StatesOf(items) == old(StatesOf(items))
    {
      for i := 0 to |others|
        invariant Valid() && Extends(items, old(items))
        invariant i == 0 ==> idx == old(idx) && items == old(items) && StatesOf(items) == old(StatesOf(items))
        invariant forall x :: x in items ==> x in old(items) || x in Touched(others)
        invariant forall x :: x in old(items) && !Targeted(others[..i], x) ==> Kept(old(x.State()), x.State())
      {
        TargetedSnoc(others, i);
        Perform(others[i], Touched(others));
      }
      assert others[..|others|] == others;
    }

    /** One use of the pool by another caller. */
    method Perform(u: Use, ghost touched: set<Item>)
      requires Valid() && (!u.Served? ==> u.item in touched)
      modifies this`idx, this`items, items, touched
      ensures Valid() && Extends(items, old(items))
      ensures forall x :: x in items ==> x in old(items) || x in touched
      ensures forall x :: x in old(items) && !Targeted([u], x) ==> Kept(old(x.State()), x.State())
    {
      TargetedOne(u);
      match u
      case Served(accept, now) =>
        var _, _, _ := Next(accept, now);
      case Removed(item) =>
        DeactivateItem(item);
      case Paused(item, cooldown, now) =>
        SoftDeactivate(item, cooldown, now);
      case Added(item) =>
        Add(item);
    }

    /** One try, then one more after the wait AvailableIn names. The clock is read by the first
        try, twice by AvailableIn and by the second try; wake is what ends a wait of that length:
        the instant of the second try, or None when the context is cancelled first. Others may
        use the pool during the wait. first and second describe the two tries, from is the start
        index of the second. */
    method NextWithWait(accept: Item -> bool, now: Instant, asked: Instant, later: Instant,
                        wake: int -> Option<Instant>, maxWait: Duration, others: seq<Use>)
      returns (r: Waited, ghost first: Call, wait: int, ghost second: Call, ghost from: nat)
      requires Valid() && asked <= later
      modifies this`idx, this`items, items, Touched(others)
      ensures Valid() && Extends(items, old(items))
      ensures first == Call(old(StatesOf(items)), now, Accepts(old(items), accept))
      ensures SomeUsable(first) ==> r.Got? && |items| > 0 && Picks(first, old(idx), Some(r.at))
      ensures !SomeUsable(first) ==> WaitFor(AllRevived(first), asked, later, wait)
      ensures !SomeUsable(first) ==> Ends(first, second, from, wait, maxWait, wake, r)
      ensures !SomeUsable(first) && (wait <= 0 || wait > maxWait) ==> r == Unavailable
      ensures r == Cancelled <==> !SomeUsable(first) && 0 < wait <= maxWait && wake(wait) == None
      ensures others == [] ==> second.states == AllRevived(first) && from == old(idx)
      ensures |second.states| >= |old(items)|
      ensures forall q :: 0 <= q < |old(items)| && !Targeted(others, old(items)[q]) ==>
                Kept(AllRevived(first)[q], second.states[q])
    {
      var pick, c, _ := Next(accept, now);
      first, second, from, wait := c, c.(states := AllRevived(c)), old(idx), 0;
      if pick.Some? {
        return Got(pick.value), first, wait, second, from;
      }
      FailedLook(items, first, idx, now);
      wait := AvailableIn(asked, later);
      if wait <= 0 || wait > maxWait {
        return Unavailable, first, wait, second, from;
      }
      var woken := wake(wait);
      if woken == None {
        return Cancelled, first, wait, second, from;
      }
      r, second, from := SleepAndRetry(accept, woken.value, others);
    }

    /** What the pool goes through while the caller sleeps, and its second try. */
    method SleepAndRetry(accept: Item -> bool, t: Instant, others: seq<Use>)
      returns (r: Waited, ghost second: Call, ghost from: nat)
      requires Valid()
      modifies this`idx, this`items, items, Touched(others)
      ensures Valid() && Extends(items, old(items)) && |second.states| == |items|
      ensures second.now == t && second.accepts == Accepts(items, accept) && Again(second, from, r)
      ensures others == [] ==> second.states == old(StatesOf(items)) && from == old(idx)
      ensures forall q :: 0 <= q < |old(items)| && !Targeted(others, old(items)[q]) ==>
                Kept(old(items[q].State()), second.states[q])
    {
      Meanwhile(others);
      r, second, from := Retry(accept, t);
    }

    /** The second try. */
    method Retry(accept: Item -> bool, t: Instant) returns (r: Waited, ghost second: Call, ghost from: nat)
      requires Valid()
      modifies this`idx, items
      ensures Valid() && from == old(idx)
      ensures second == Call(old(StatesOf(items)), t, Accepts(items, accept))
      ensures Again(second, from, r)
    {
      from := idx;
      var pick, c, _ := Next(accept, t);
      second := c;
      r := if pick.Some? then Got(pick.value) else Unavailable;
    }
  }

  /** One use of the pool by another caller: Next, DeactivateItem, SoftDeactivate or Add. */
  datatype Use =
    | Served(accept: Item -> bool, now: Instant)
    | Removed(item: Item)
    | Paused(item: Item, cooldown: Duration, now: Instant)
    | Added(item: Item)

  /** The items the uses name. */
  ghost function Touched(others: seq<Use>): set<Item> {
    set i | 0 <= i < |others| && !others[i].Served? :: others[i].item
  }

  /** One of the uses deactivates this item. */
  ghost predicate Targeted(others: seq<Use>, x: Item) {
    exists i :: 0 <= i < |others| && (others[i].Removed? || others[i].Paused?) && others[i].item == x
  }

  /** Items are added at the end only. */
  predicate Extends(items: seq<Item>, before: seq<Item>) {
    |before| <= |items| && items[..|before|] == before
  }

  lemma TargetedOne(u: Use)
    ensures forall x :: Targeted([u], x) <==> (u.Removed? || u.Paused?) && u.item == x
  {
    assert [u][0] == u;
  }

  lemma TargetedSnoc(others: seq<Use>, i: nat)
    requires i < |others|
    ensures forall x :: Targeted(others[..i + 1], x) <==> Targeted(others[..i], x) || Targeted([others[i]], x)
  {
    var g, u := others[..i + 1], [others[i]];
    forall x
      ensures Targeted(g, x) <==> Targeted(others[..i], x) || Targeted(u, x)
    {
      if Targeted(others[..i], x) {
        var k :| 0 <= k < i && (g[k].Removed? || g[k].Paused?) && g[k].item == x;
        assert others[..i][k] == g[k];
      }
      if Targeted(u, x) {
        assert g[i] == u[0];
      }
      if Targeted(g, x) {
        var k :| 0 <= k <= i && (g[k].Removed? || g[k].Paused?) && g[k].item == x;
        assert if k < i then others[..i][k] == g[k] else u[0] == g[k];
      }
    }
  }

  /** The item was left alone, or had an expired cooldown lifted. */
  predicate Kept(s: ItemState, s': ItemState) {
    s' == s || (!s.active && s.reactivateAt != ZERO && s' == ItemState(true, ZERO))
  }

  /** How NextWithWait ends. */
  datatype Waited = Got(at: nat) | Unavailable | Cancelled

  /** Every expired cooldown lifted, as a failed try leaves the items. */
  function AllRevived(c: Call): (s: seq<ItemState>)
    ensures |s| == |c.states| && forall q :: 0 <= q < |s| ==> s[q] == Revived(c.states[q], c.now)
  {
    seq(|c.states|, q requires 0 <= q < |c.states| => Revived(c.states[q], c.now))
  }

  /** What follows a failed first try when AvailableIn answers wait. */
  ghost predicate Ends(first: Call, second: Call, from: nat, wait: int, maxWait: int,
                       wake: int -> Option<Instant>, r: Waited)
  {
    if wait <= 0 || wait > maxWait then r == Unavailable
    else
      match wake(wait)
      case None => r == Cancelled
      case Some(t) =>
        && second.now == t && Again(second, from, r)
        && |first.accepts| <= |second.accepts| && second.accepts[..|first.accepts|] == first.accepts
  }

  /** The second try has this outcome. */
  ghost predicate Again(c: Call, from: nat, r: Waited) {
    && c.Fits(|c.states|)
    && (r.Got? ==> from < |c.states| && Picks(c, from, Some(r.at)))
    && (!r.Got? ==> r == Unavailable && !SomeUsable(c))
  }

  lemma FailedLook(items: seq<Item>, c: Call, idx: nat, now: Instant)
    requires |c.states| == |items| && (|items| > 0 ==> idx < |items|)
    requires c.now == now && Looked(items, c.states, idx, |items|, now)
    ensures StatesOf(items) == AllRevived(c)
  {
    forall q | 0 <= q < |items|
      ensures items[q].State() == Revived(c.states[q], c.now)
    {
      assert items[Ring(idx, Distance(idx, q, |items|), |items|)] == items[q];
    }
  }

  predicate Cooling(s: ItemState, now: Time) {
    !s.active && s.reactivateAt != ZERO && s.reactivateAt > now
  }

  /** The earliest end of a cooldown still running, or ZERO. */
  ghost predicate EarliestOf(states: seq<ItemState>, now: Time, t: Time) {
    if t == ZERO then forall q :: 0 <= q < |states| ==> !Cooling(states[q], now)
    else
      && (exists q :: 0 <= q < |states| && Cooling(states[q], now) && states[q].reactivateAt == t)
      && (forall q :: 0 <= q < |states| && Cooling(states[q], now) ==> t <= states[q].reactivateAt)
  }

  /** What AvailableIn answers. */
  ghost predicate WaitFor(states: seq<ItemState>, now: Time, later: Time, wait: int) {
    if exists q :: 0 <= q < |states| && states[q].active then wait == 0
    else exists t: Time :: EarliestOf(states, now, t) && wait == if t > later then Sub(t, later) else 0
  }

  /** The scan ends with the pick, or after all n positions. */
  predicate Stops(idx: nat, n: nat, pick: Option<nat>, scanned: nat)
    requires idx < n
  {
    if pick == None then scanned == n else 0 < scanned <= n && pick.value == Ring(idx, scanned - 1, n)
  }

  /** The scanning loop of Next. */
  method Scan(items: seq<Item>, idx: nat, accept: Item -> bool, now: Instant, ghost c: Call)
    returns (pick: Option<nat>, scanned: nat)
    requires idx < |items| && c.Fits(|items|) && c.now == now && c.accepts == Accepts(items, accept)
    requires Looked(items, c.states, idx, 0, now)
    modifies items
    ensures Picks(c, idx, pick) && Stops(idx, |items|, pick, scanned)
    ensures Looked(items, c.states, idx, scanned, now)
  {
    scanned := 0;
    while scanned < |items|
      invariant scanned <= |items| && NoneUsable(c, idx, scanned) && Looked(items, c.states, idx, scanned, now)
    {
      var p := LookAt(items, c.states, idx, scanned, now);
      assert items[p].active && accept(items[p]) <==> c.Usable(p);
      scanned := scanned + 1;
      if items[p].active && accept(items[p]) {
        return Some(p), scanned;
      }
    }
    PicksNone(c, idx);
    pick := None;
  }

  ghost predicate SomeReady(states: seq<ItemState>, now: Time) {
    exists q :: 0 <= q < |states| && Ready(states[q], now)
  }

  ghost predicate SomeActive(states: seq<ItemState>) {
    exists q :: 0 <= q < |states| && states[q].active
  }

  ghost predicate SomeCooling(states: seq<ItemState>, now: Time) {
    exists q :: 0 <= q < |states| && Cooling(states[q], now)
  }

  /** An inactive item whose cooldown ends at this very instant, so that it is neither ready nor
      counted as cooling down. */
  ghost predicate SomeEnding(states: seq<ItemState>, now: Time) {
    exists q :: 0 <= q < |states| && states[q].reactivateAt == now
  }

  /** Asked when nothing is ready, the answer is exact: something is ready strictly after that
      long and not before, unless a cooldown ends at this very instant. An answer of 0 means that
      nothing else ever comes back by itself, the longest Duration only that nothing does before. */
  lemma WaitIsExact(states: seq<ItemState>, now: Instant, wait: int, t: Time)
    requires WaitFor(states, now, now, wait) && !SomeReady(states, now) && t > now
    ensures wait < MAX_DURATION ==>
              (SomeReady(states, t) <==> (wait > 0 && t > now + wait) || SomeEnding(states, now))
    ensures wait == MAX_DURATION && t <= now + wait ==> (SomeReady(states, t) <==> SomeEnding(states, now))
  {
    assert forall q :: 0 <= q < |states| ==> !Ready(states[q], now);
    var earliest: Time :|
      EarliestOf(states, now, earliest) && wait == if earliest > now then Sub(earliest, now) else 0;
    if 0 < wait < MAX_DURATION && t > now + wait {
      var q :| 0 <= q < |states| && Cooling(states[q], now) && states[q].reactivateAt == earliest;
      assert Ready(states[q], t);
    }
    if SomeEnding(states, now) {
      var q :| 0 <= q < |states| && states[q].reactivateAt == now;
      assert Ready(states[q], t);
    }
  }

  /** The promise "0 if an item is available now" fails exactly when the ready items are all
      inactive ones past their cooldown while another item is still cooling down. */
  lemma ZeroWhenReadyExactly(states: seq<ItemState>, now: Instant, wait: int)
    requires WaitFor(states, now, now, wait)
    ensures (SomeReady(states, now) ==> wait == 0) <==>
            !(SomeReady(states, now) && !SomeActive(states) && SomeCooling(states, now))
  {
  }

  /** An accepted item's cooldown ends before t. */
  ghost predicate SomeEndsBefore(states: seq<ItemState>, accepts: seq<bool>, t: Time) {
    |accepts| == |states| &&
    exists q :: 0 <= q < |states| && accepts[q] && states[q].reactivateAt != ZERO && states[q].reactivateAt < t
  }

  /** An accepted item that nobody else deactivated during the wait, with a cooldown that ends before
      the second try, makes it succeed, whatever else others did. */
  lemma ServedAmidOthers(first: Call, second: Call, from: nat, r: Waited, q: nat)
    requires first.Fits(|first.states|) && second.Fits(|second.states|) && |first.states| <= |second.states|
    requires Again(second, from, r) && second.accepts[..|first.accepts|] == first.accepts
    requires q < |first.states| && first.accepts[q] && Kept(AllRevived(first)[q], second.states[q])
    requires Ready(AllRevived(first)[q], second.now)
    ensures r.Got?
  {
    assert second.Usable(q);
  }

  /** When nobody else uses the pool meanwhile, a NextWithWait that sleeps to the end gets an item
      exactly when an accepted one has a cooldown that ends strictly before the second try. It goes
      away empty when it wakes at the very instant the earliest cooldown ends, and when only items
      the filter rejects come free. */
  lemma WaitingServes(first: Call, second: Call, from: nat, asked: Instant, later: Instant, wait: int, maxWait: int,
                      wake: int -> Option<Instant>, r: Waited)
    requires first.Fits(|first.states|) && asked <= later && !SomeUsable(first)
    requires WaitFor(AllRevived(first), asked, later, wait) && Ends(first, second, from, wait, maxWait, wake, r)
    requires second.states == AllRevived(first)
    requires 0 < wait <= maxWait && wake(wait).Some?
    ensures r.Got? <==> SomeEndsBefore(first.states, first.accepts, wake(wait).value)
  {
    var t := wake(wait).value;
    if q :| 0 <= q < |first.states| && first.accepts[q] && first.states[q].reactivateAt != ZERO
            && first.states[q].reactivateAt < t {
      assert second.Usable(q);
    }
  }

  /** Without a filter that is: exactly unless it wakes at that very instant and nothing came free
      between the first try and AvailableIn. */
  lemma WaitingServesUnfiltered(states: seq<ItemState>, accepts: seq<bool>, asked: Instant, later: Instant, wait: int,
                                t: Instant)
    requires |accepts| == |states| && forall q :: 0 <= q < |accepts| ==> accepts[q]
    requires asked <= later && WaitFor(states, asked, later, wait) && 0 < wait < MAX_DURATION && later + wait <= t
    ensures SomeEndsBefore(states, accepts, t) <==> t > later + wait || SomeEnded(states, asked)
  {
    var earliest: Time :|
      EarliestOf(states, asked, earliest) && wait == if earliest > later then Sub(earliest, later) else 0;
    var k :| 0 <= k < |states| && Cooling(states[k], asked) && states[k].reactivateAt == earliest;
    if t > earliest {
      assert accepts[k];
    }
    if SomeEnded(states, asked) {
      var q :| 0 <= q < |states| && states[q].reactivateAt != ZERO && states[q].reactivateAt <= asked;
      assert accepts[q];
    }
    if q :| 0 <= q < |states| && accepts[q] && states[q].reactivateAt != ZERO && states[q].reactivateAt < t {
      assert !states[q].active;
      assert Cooling(states[q], asked) ==> earliest <= states[q].reactivateAt;
    }
  }

  /** A cooldown had ended by then. */
  ghost predicate SomeEnded(states: seq<ItemState>, asked: Time) {
    exists q :: 0 <= q < |states| && states[q].reactivateAt != ZERO && states[q].reactivateAt <= asked
  }

  /** One successful or failed call moves the start index this way. */
  function Advanced(idx: nat, n: nat, pick: Option<nat>): nat
    requires n > 0
  {
    match pick
    case Some(p) => (p + 1) % n
    case None => idx
  }

  lemma AdvancedIs(idx: nat, n: nat, p: nat)
    requires p < n
    ensures Advanced(idx, n, Some(p)) == if p + 1 < n then p + 1 else 0
  {
    ModOf(p + 1, if p + 1 < n then 0 else 1, if p + 1 < n then p + 1 else 0, n);
  }

  /** A call that could return p either does or brings the start index closer to p. */
  lemma DistanceShrinks(c: Call, idx: nat, pick: Option<nat>, p: nat)
    requires c.Fits(|c.states|) && idx < |c.states| && p < |c.states|
    requires Picks(c, idx, pick) && c.Usable(p)
    ensures pick.Some? && Advanced(idx, |c.states|, pick) < |c.states|
    ensures pick == Some(p) ||
            Distance(Advanced(idx, |c.states|, pick), p, |c.states|) < Distance(idx, p, |c.states|)
  {
    var n := |c.states|;
    var d := Distance(idx, p, n);
    var k: nat :| k < n && pick == Some(Ring(idx, k, n)) && forall j: nat :: j < k ==> !c.Usable(Ring(idx, j, n));
    assert Ring(idx, d, n) == p && k <= d;
    AdvancedIs(idx, n, pick.value);
  }

  /** Consecutive calls on n positions; between them item states, clock and filter are free. */
  ghost predicate Run(n: nat, calls: seq<Call>, picks: seq<Option<nat>>, idxs: seq<nat>) {
    && n > 0 && |picks| == |calls| && |idxs| == |calls| + 1
    && (forall i :: 0 <= i < |idxs| ==> idxs[i] < n)
    && forall i :: 0 <= i < |calls| ==>
         calls[i].Fits(n) && Picks(calls[i], idxs[i], picks[i]) && idxs[i + 1] == Advanced(idxs[i], n, picks[i])
  }

  lemma {:induction false} ServedFrom(n: nat, calls: seq<Call>, picks: seq<Option<nat>>, idxs: seq<nat>, p: nat, i: nat)
    returns (j: nat)
    requires Run(n, calls, picks, idxs) && p < n && i < |calls|
    requires forall k :: 0 <= k < |calls| ==> calls[k].Usable(p)
    requires Distance(idxs[i], p, n) < |calls| - i
    ensures i <= j < |calls| && picks[j] == Some(p)
    decreases |calls| - i
  {
    DistanceShrinks(calls[i], idxs[i], picks[i], p);
    if picks[i] == Some(p) {
      j := i;
    } else {
      j := ServedFrom(n, calls, picks, idxs, p, i + 1);
    }
  }

  /** An item that every one of n calls could have returned is returned by one of them. */
  lemma Served(n: nat, calls: seq<Call>, picks: seq<Option<nat>>, idxs: seq<nat>, p: nat)
    requires Run(n, calls, picks, idxs) && p < n && |calls| >= n
    requires forall k :: 0 <= k < |calls| ==> calls[k].Usable(p)
    ensures exists j :: 0 <= j < n && picks[j] == Some(p)
  {
    var c, k, x := calls[..n], picks[..n], idxs[..n + 1];
    var j := ServedFrom(n, c, k, x, p, 0);
    assert picks[j] == k[j];
  }

  ghost predicate AllUsable(n: nat, calls: seq<Call>) {
    forall i :: 0 <= i < |calls| ==> calls[i].Fits(n) && forall p: nat :: p < n ==> calls[i].Usable(p)
  }

  /** With every item available all the time, call i returns the item i steps on. */
  lemma {:induction false} Rotates(n: nat, calls: seq<Call>, picks: seq<Option<nat>>, idxs: seq<nat>, i: nat)
    requires Run(n, calls, picks, idxs) && AllUsable(n, calls) && i < n && i < |calls|
    ensures idxs[i] == Ring(idxs[0], i, n) && picks[i] == Some(Ring(idxs[0], i, n))
  {
    if i > 0 {
      Rotates(n, calls, picks, idxs, i - 1);
      AdvancedIs(idxs[i - 1], n, picks[i - 1].value);
    }
    assert calls[i].Usable(Ring(idxs[i], 0, n));
  }

  /** So n calls return each of the n items exactly once. */
  lemma EachExactlyOnce(n: nat, calls: seq<Call>, picks: seq<Option<nat>>, idxs: seq<nat>, p: nat)
    requires Run(n, calls, picks, idxs) && AllUsable(n, calls) && |calls| == n && p < n
    ensures exists i :: 0 <= i < n && picks[i] == Some(p) && forall j :: 0 <= j < n && picks[j] == Some(p) ==> j == i
  {
    var i := Distance(idxs[0], p, n);
    Rotates(n, calls, picks, idxs, i);
    forall j | 0 <= j < n && picks[j] == Some(p)
      ensures j == i
    {
      Rotates(n, calls, picks, idxs, j);
    }
  }

  // ---- Cooldowns over runs ----

  /** Between calls only Next itself touches position p, and the clock does not go back. */
  ghost predicate LeftAlone(calls: seq<Call>, p: nat)
    requires forall i :: 0 <= i < |calls| ==> p < |calls[i].states|
  {
    && (forall i :: 0 <= i < |calls| - 1 ==>
          calls[i + 1].states[p] == calls[i].states[p]
          || calls[i + 1].states[p] == Revived(calls[i].states[p], calls[i].now))
    && forall i :: 0 <= i < |calls| - 1 ==> calls[i].now <= calls[i + 1].now
  }

  /** A deactivated item is back in any later state of such a run exactly when it has a reactivation
      time and the clock is past it; until then no call returns it. */
  lemma {:induction false} CooldownLasts(n: nat, calls: seq<Call>, picks: seq<Option<nat>>, idxs: seq<nat>, p: nat,
                                         until: Time, i: nat)
    requires Run(n, calls, picks, idxs) && p < n && i < |calls| && LeftAlone(calls, p)
    requires calls[0].states[p] == ItemState(false, until)
    ensures Ready(calls[i].states[p], calls[i].now) <==> until != ZERO && calls[i].now > until
    ensures calls[i].states[p] in {ItemState(false, until), ItemState(true, ZERO)}
    ensures picks[i] == Some(p) ==> until != ZERO && calls[i].now > until
  {
    if i > 0 {
      CooldownLasts(n, calls, picks, idxs, p, until, i - 1);
    }
  }

  /** And once it is, it is returned within the next n calls whose filter accepts it. */
  lemma BackAfterCooldown(n: nat, calls: seq<Call>, picks: seq<Option<nat>>, idxs: seq<nat>, p: nat,
                          until: Time, i: nat)
    requires Run(n, calls, picks, idxs) && p < n && LeftAlone(calls, p) && i + n <= |calls|
    requires calls[0].states[p] == ItemState(false, until) && until != ZERO && calls[i].now > until
    requires forall k :: i <= k < i + n ==> calls[k].accepts[p]
    ensures exists j :: i <= j < i + n && picks[j] == Some(p)
  {
    var some, picked, starts := calls[i..i + n], picks[i..i + n], idxs[i..i + n + 1];
    assert Run(n, some, picked, starts);
    forall k | 0 <= k < n
      ensures some[k].Usable(p)
    {
      NowGrows(calls, p, i, i + k);
      CooldownLasts(n, calls, picks, idxs, p, until, i + k);
    }
    Served(n, some, picked, starts, p);
    var j :| 0 <= j < n && picked[j] == Some(p);
    assert picks[i + j] == Some(p);
  }

  lemma {:induction false} NowGrows(calls: seq<Call>, p: nat, i: nat, k: nat)
    requires forall i :: 0 <= i < |calls| ==> p < |calls[i].states|
    requires LeftAlone(calls, p) && i <= k < |calls|
    ensures calls[i].now <= calls[k].now
  {
    if i < k {
      NowGrows(calls, p, i, k - 1);
    }
  }
}

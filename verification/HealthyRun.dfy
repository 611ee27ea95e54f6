/** Concurrent calls of HealthyProxyPool.Next over one rotation (proxypool/healthy.go): a draw from
    the atomic counter and a look at the record under the lock are separate steps, so the draws of
    different calls interleave. */
module HealthyRun {
  import opened Clock
  import opened Rotation
  import opened Sequences
  import opened HealthyPool

  type Tid = nat

  /** A rotation that is not empty. */
  type Listed = s: seq<Proxy> | |s| > 0 witness [""]

  type Count = n: nat | n > 0 witness 1

  /** Where a call stands: about to draw, or about to look at what it drew. A returned call has
      fallen back when its answer was not looked at. */
  datatype Phase =
    | Drawing
    | Looking(drawn: nat)
    | Returned(drawn: nat, fellBack: bool)

  /** seen lists the draws it looked at and passed over. */
  datatype Call = Call(now: Instant, phase: Phase, seen: seq<nat>)

  datatype State = State(counter: nat, data: map<Proxy, ProxyHealth>, calls: map<Tid, Call>)

  datatype Event =
    | Start(t: Tid, now: Instant)
    | Draw(t: Tid)
    | Look(t: Tid)
    | Record(proxy: Proxy, outcome: HealthyPool.Event)

  /** The rotation's slot for a draw. */
  function Slot(drawn: nat, n: Count): (p: nat)
    ensures p < n
  {
    drawn % n
  }

  function WithPhase(s: State, t: Tid, c: Call): State {
    s.(calls := s.calls[t := c])
  }

  ghost predicate Next(proxies: Listed, cfg: Config, s: State, e: Event, s': State) {
    match e
    case Start(t, now) => t !in s.calls && s' == WithPhase(s, t, Call(now, Drawing, []))
    case Draw(t) =>
      && t in s.calls && s.calls[t].phase.Drawing?
      && var c := s.calls[t];
         var drawn := s.counter + 1;
         s' == WithPhase(s, t, c.(phase := if |c.seen| == |proxies| then Returned(drawn, true) else Looking(drawn)))
               .(counter := drawn)
    case Look(t) =>
      && t in s.calls && s.calls[t].phase.Looking?
      && var c := s.calls[t];
         var drawn := c.phase.drawn;
         var (data, usable) := Looked(s.data, proxies[Slot(drawn, |proxies|)], cfg.cooldown, c.now);
         s' == WithPhase(s, t, if usable then c.(phase := Returned(drawn, false))
                               else c.(phase := Drawing, seen := c.seen + [drawn])).(data := data)
    case Record(proxy, outcome) =>
      && !outcome.LookedAt?
      && s' == s.(data := s.data[proxy := Applied(Health(s.data, proxy), cfg, outcome)])
  }

  ghost predicate Run(proxies: Listed, cfg: Config, states: seq<State>, events: seq<Event>) {
    && |states| == |events| + 1 && states[0].calls == map[]
    && forall i :: 0 <= i < |events| ==> Next(proxies, cfg, states[i], events[i], states[i + 1])
  }

  /** Event j is call t's look at slot p, which it finds cooling down. */
  predicate FindsCooling(proxies: Listed, cfg: Config, s: State, e: Event, t: Tid, p: nat) {
    && e == Look(t) && t in s.calls && s.calls[t].phase.Looking?
    && Slot(s.calls[t].phase.drawn, |proxies|) == p
    && CoolingDown(Health(s.data, proxies[p]), cfg.cooldown, s.calls[t].now)
  }

  /** Slot p is among the draws. */
  ghost predicate Covers(seen: seq<nat>, n: Count, p: nat) {
    exists k :: 0 <= k < |seen| && Slot(seen[k], n) == p
  }

  ghost predicate CoversAll(seen: seq<nat>, n: Count) {
    forall p :: 0 <= p < n ==> Covers(seen, n, p)
  }

  // ---- What a call has seen ----

  ghost predicate CallGood(c: Call, n: Count, counter: nat) {
    && |c.seen| <= n
    && (c.phase.Looking? ==> |c.seen| < n && c.phase.drawn <= counter)
    && (c.phase.Returned? ==> c.phase.fellBack == (|c.seen| == n))
    && (forall k :: 0 <= k < |c.seen| ==> c.seen[k] <= counter)
    && (c.phase.Looking? ==> forall k :: 0 <= k < |c.seen| ==> c.seen[k] < c.phase.drawn)
    && (forall k, l :: 0 <= k < l < |c.seen| ==> c.seen[k] < c.seen[l])
  }

  ghost predicate Inv(s: State, n: Count) {
    forall t :: t in s.calls ==> CallGood(s.calls[t], n, s.counter)
  }

  lemma InvStep(proxies: Listed, cfg: Config, s: State, e: Event, s': State)
    requires Inv(s, |proxies|) && Next(proxies, cfg, s, e, s')
    ensures Inv(s', |proxies|)
  {
    forall t | t in s'.calls
      ensures CallGood(s'.calls[t], |proxies|, s'.counter)
    {
      assert t in s.calls ==> CallGood(s.calls[t], |proxies|, s.counter);
    }
  }

  lemma {:induction false} RunInv(proxies: Listed, cfg: Config, states: seq<State>, events: seq<Event>, i: nat)
    requires Run(proxies, cfg, states, events) && i < |states|
    ensures Inv(states[i], |proxies|)
  {
    if i > 0 {
      RunInv(proxies, cfg, states, events, i - 1);
      InvStep(proxies, cfg, states[i - 1], events[i - 1], states[i]);
    }
  }

  /** The slots a call has passed over grow by exactly the slot of a look that finds it cooling. */
  lemma CoversStep(proxies: Listed, cfg: Config, s: State, e: Event, s': State, t: Tid, p: nat)
    requires Next(proxies, cfg, s, e, s') && t in s'.calls && p < |proxies|
    ensures Covers(s'.calls[t].seen, |proxies|, p) <==>
            (t in s.calls && Covers(s.calls[t].seen, |proxies|, p)) || FindsCooling(proxies, cfg, s, e, t, p)
  {
    if e.Look? && e.t == t {
      LookCovers(proxies, cfg, s, e, s', t, p);
    }
  }

  lemma LookCovers(proxies: Listed, cfg: Config, s: State, e: Event, s': State, t: Tid, p: nat)
    requires Next(proxies, cfg, s, e, s') && p < |proxies| && e == Look(t)
    ensures t in s.calls && t in s'.calls
    ensures Covers(s'.calls[t].seen, |proxies|, p) <==>
            Covers(s.calls[t].seen, |proxies|, p) || FindsCooling(proxies, cfg, s, e, t, p)
  {
    var c, n := s.calls[t], |proxies|;
    var proxy := proxies[Slot(c.phase.drawn, n)];
    LookedExactly(s.data, proxy, cfg.cooldown, c.now, proxy);
    if CoolingDown(Health(s.data, proxy), cfg.cooldown, c.now) {
      CoversSnoc(c.seen, c.phase.drawn, n, p);
    }
  }

  lemma CoversSnoc(seen: seq<nat>, drawn: nat, n: Count, p: nat)
    ensures Covers(seen + [drawn], n, p) <==> Covers(seen, n, p) || Slot(drawn, n) == p
  {
    var s := seen + [drawn];
    if Covers(seen, n, p) {
      var k :| 0 <= k < |seen| && Slot(seen[k], n) == p;
      assert s[k] == seen[k];
    }
    if Slot(drawn, n) == p {
      assert s[|seen|] == drawn;
    }
  }

  /** By state i call t has found slot p cooling down. */
  ghost predicate Found(proxies: Listed, cfg: Config, states: seq<State>, events: seq<Event>, i: nat, t: Tid,
                        p: nat)
  {
    exists j :: 0 <= j < i < |states| == |events| + 1 && FindsCooling(proxies, cfg, states[j], events[j], t, p)
  }

  /** The slots a call has passed over are exactly those it has found cooling down. */
  lemma {:induction false} SeenExactly(proxies: Listed, cfg: Config, states: seq<State>, events: seq<Event>,
                                       i: nat, t: Tid, p: nat)
    requires Run(proxies, cfg, states, events) && i < |states| && t in states[i].calls && p < |proxies|
    ensures Covers(states[i].calls[t].seen, |proxies|, p) <==>
            Found(proxies, cfg, states, events, i, t, p)
  {
    if i > 0 {
      CoversStep(proxies, cfg, states[i - 1], events[i - 1], states[i], t, p);
      if t in states[i - 1].calls {
        SeenExactly(proxies, cfg, states, events, i - 1, t, p);
      } else {
        NotBefore(proxies, cfg, states, events, i - 1, t);
      }
    }
  }

  /** A call that is not there yet was never there. */
  lemma {:induction false} NotBefore(proxies: Listed, cfg: Config, states: seq<State>, events: seq<Event>,
                                     i: nat, t: Tid)
    requires Run(proxies, cfg, states, events) && i < |states| && t !in states[i].calls
    ensures forall j :: 0 <= j <= i ==> t !in states[j].calls
  {
    if i > 0 {
      assert Next(proxies, cfg, states[i - 1], events[i - 1], states[i]);
      NotBefore(proxies, cfg, states, events, i - 1, t);
    }
  }

  /** What the first i events do to this proxy's record: outcomes and looks. */
  function Touches(proxies: Listed, states: seq<State>, events: seq<Event>, i: nat, proxy: Proxy)
    : seq<HealthyPool.Event>
    requires i <= |events| < |states|
  {
    if i == 0 then []
    else
      var before, s, e := Touches(proxies, states, events, i - 1, proxy), states[i - 1], events[i - 1];
      if e.Record? && e.proxy == proxy then before + [e.outcome]
      else if e.Look? && e.t in s.calls && s.calls[e.t].phase.Looking?
              && proxies[Slot(s.calls[e.t].phase.drawn, |proxies|)] == proxy
      then before + [LookedAt(s.calls[e.t].now)]
      else before
  }

  /** In every interleaving each record is what the outcomes recorded for its proxy and the looks at it, in
      their order, make of it. */
  lemma {:induction false} RecordsInOrder(proxies: Listed, cfg: Config, states: seq<State>, events: seq<Event>,
                                          i: nat, proxy: Proxy)
    requires Run(proxies, cfg, states, events) && i < |states|
    ensures Health(states[i].data, proxy) ==
            HealthAfter(Health(states[0].data, proxy), cfg, Touches(proxies, states, events, i, proxy))
  {
    if i > 0 {
      var s, e := states[i - 1], events[i - 1];
      RecordsInOrder(proxies, cfg, states, events, i - 1, proxy);
      assert Next(proxies, cfg, s, e, states[i]);
      var first, before := Health(states[0].data, proxy), Touches(proxies, states, events, i - 1, proxy);
      if e.Record? {
        AfterEvent(first, cfg, before, e.outcome);
      } else if e.Look? {
        AfterEvent(first, cfg, before, LookedAt(s.calls[e.t].now));
        LookedExactly(s.data, proxies[Slot(s.calls[e.t].phase.drawn, |proxies|)], cfg.cooldown, s.calls[e.t].now,
                      proxy);
      }
    }
  }

  // ---- When falling back is justified ----

  function Slots(seen: seq<nat>, n: Count): (r: seq<nat>)
    ensures |r| == |seen| && forall k :: 0 <= k < |r| ==> r[k] == Slot(seen[k], n)
  {
    seq(|seen|, k requires 0 <= k < |seen| => Slot(seen[k], n))
  }

  /** n draws hit every slot exactly when they hit different ones. */
  lemma CoversAllExactly(seen: seq<nat>, n: Count)
    requires |seen| == n
    ensures CoversAll(seen, n) <==> Distinct(Slots(seen, n))
  {
    var r, all := Slots(seen, n), Range(0, n);
    var hit := set x | x in r;
    SetOfDistinct(r);
    assert hit <= all;
    forall p | 0 <= p < n
      ensures p in hit <==> Covers(seen, n, p)
    {
      if p in r {
        var k :| 0 <= k < |r| && r[k] == p;
        assert Slot(seen[k], n) == p;
      }
      if Covers(seen, n, p) {
        var k :| 0 <= k < |seen| && Slot(seen[k], n) == p;
        assert r[k] == p;
      }
    }
    if Distinct(r) {
      SameSizeSubset(hit, all);
    }
    if CoversAll(seen, n) {
      assert hit == all;
    }
  }

  /** Call t has found the proxy of every slot cooling down. */
  ghost predicate FoundAllCooling(proxies: Listed, cfg: Config, states: seq<State>, events: seq<Event>, i: nat,
                                  t: Tid)
  {
    forall p: nat :: p < |proxies| ==> Found(proxies, cfg, states, events, i, t, p)
  }

  /** A call that has fallen back has found every listed proxy cooling down exactly when the draws
      it looked at hit different slots. */
  lemma FallBackExactly(proxies: Listed, cfg: Config, states: seq<State>, events: seq<Event>, i: nat, t: Tid)
    requires Run(proxies, cfg, states, events) && i < |states|
    requires t in states[i].calls && states[i].calls[t].phase.Returned? && states[i].calls[t].phase.fellBack
    ensures FoundAllCooling(proxies, cfg, states, events, i, t) <==>
            Distinct(Slots(states[i].calls[t].seen, |proxies|))
  {
    var c, n := states[i].calls[t], |proxies|;
    RunInv(proxies, cfg, states, events, i);
    assert CallGood(c, n, states[i].counter);
    CoversAllExactly(c.seen, n);
    forall p: nat | p < n
      ensures Covers(c.seen, n, p) <==> Found(proxies, cfg, states, events, i, t, p)
    {
      SeenExactly(proxies, cfg, states, events, i, t, p);
    }
  }

  /** A call that has not fallen back returns a proxy that its last look found not cooling down. */
  lemma {:induction false} AnswerUsable(proxies: Listed, cfg: Config, states: seq<State>, events: seq<Event>,
                                        i: nat, t: Tid) returns (j: nat)
    requires Run(proxies, cfg, states, events) && i < |states|
    requires t in states[i].calls && states[i].calls[t].phase.Returned? && !states[i].calls[t].phase.fellBack
    ensures j < i && events[j] == Look(t) && t in states[j].calls
    ensures var drawn := states[i].calls[t].phase.drawn;
            && states[j].calls[t].phase == Looking(drawn)
            && var proxy := proxies[Slot(drawn, |proxies|)];
               !CoolingDown(Health(states[j].data, proxy), cfg.cooldown, states[j].calls[t].now)
  {
    j := i - 1;
    var s := states[j];
    assert Next(proxies, cfg, s, events[j], states[i]);
    if events[j] == Look(t) {
      var proxy := proxies[Slot(s.calls[t].phase.drawn, |proxies|)];
      LookedExactly(s.data, proxy, cfg.cooldown, s.calls[t].now, proxy);
    } else {
      j := AnswerUsable(proxies, cfg, states, events, i - 1, t);
    }
  }

  // ---- Undisturbed calls ----

  /** From event a on until state i only call t draws. */
  ghost predicate Undisturbed(events: seq<Event>, a: nat, i: nat, t: Tid) {
    i <= |events| && forall j :: a <= j < i && events[j].Draw? ==> events[j].t == t
  }

  /** Draws from base on, one after the other. */
  ghost predicate InSequence(c: Call, base: nat, counter: nat) {
    && (forall k :: 0 <= k < |c.seen| ==> c.seen[k] == base + 1 + k)
    && (c.phase.Drawing? ==> counter == base + |c.seen|)
    && (c.phase.Looking? ==> c.phase.drawn == counter == base + |c.seen| + 1)
  }

  lemma {:induction false} DrawsInSequence(proxies: Listed, cfg: Config, states: seq<State>, events: seq<Event>,
                                           a: nat, i: nat, t: Tid)
    requires Run(proxies, cfg, states, events) && a <= i < |states| && Undisturbed(events, a, i, t)
    requires t in states[a].calls && states[a].calls[t].phase.Drawing? && states[a].calls[t].seen == []
    ensures t in states[i].calls && InSequence(states[i].calls[t], states[a].counter, states[i].counter)
  {
    if a < i {
      DrawsInSequence(proxies, cfg, states, events, a, i - 1, t);
      assert Next(proxies, cfg, states[i - 1], events[i - 1], states[i]);
    }
  }

  lemma SequenceDistinct(seen: seq<nat>, base: nat, n: Count)
    requires |seen| <= n && forall k :: 0 <= k < |seen| ==> seen[k] == base + 1 + k
    ensures Distinct(Slots(seen, n))
  {
    forall k, l | 0 <= k < l < |seen|
      ensures Slot(seen[k], n) != Slot(seen[l], n)
    {
      CountsRound(base + 1, k, n);
      CountsRound(base + 1, l, n);
    }
  }

  /** When no other call draws between its first and its last look, a call that falls back has
      found every listed proxy cooling down. */
  lemma UndisturbedFallBack(proxies: Listed, cfg: Config, states: seq<State>, events: seq<Event>,
                            a: nat, b: nat, i: nat, t: Tid)
    requires Run(proxies, cfg, states, events) && a <= b <= i < |states|
    requires t in states[a].calls && states[a].calls[t].phase.Drawing? && states[a].calls[t].seen == []
    requires Undisturbed(events, a, b, t) && t in states[b].calls && |states[b].calls[t].seen| == |proxies|
    requires t in states[i].calls && states[i].calls[t].phase.Returned? && states[i].calls[t].phase.fellBack
    ensures FoundAllCooling(proxies, cfg, states, events, i, t)
  {
    DrawsInSequence(proxies, cfg, states, events, a, b, t);
    SeenStays(proxies, cfg, states, events, b, i, t);
    SequenceDistinct(states[i].calls[t].seen, states[a].counter, |proxies|);
    FallBackExactly(proxies, cfg, states, events, i, t);
  }

  lemma {:induction false} SeenStays(proxies: Listed, cfg: Config, states: seq<State>, events: seq<Event>,
                                     b: nat, i: nat, t: Tid)
    requires Run(proxies, cfg, states, events) && b <= i < |states|
    requires t in states[b].calls && |states[b].calls[t].seen| == |proxies|
    ensures t in states[i].calls && states[i].calls[t].seen == states[b].calls[t].seen
  {
    if b < i {
      SeenStays(proxies, cfg, states, events, b, i - 1, t);
      RunInv(proxies, cfg, states, events, i - 1);
      assert Next(proxies, cfg, states[i - 1], events[i - 1], states[i]);
      assert CallGood(states[i - 1].calls[t], |proxies|, states[i - 1].counter);
    }
  }

  // ---- A call that falls back although a listed proxy is healthy throughout ----

  /** Where call 0 stands in state k of the run below. */
  function First(now: Instant, k: nat): Call {
    if k <= 3 then Call(now, Drawing, [])
    else if k == 4 then Call(now, Looking(1), [])
    else if k <= 7 then Call(now, Drawing, [1])
    else if k == 8 then Call(now, Looking(3), [1])
    else if k <= 11 then Call(now, Drawing, [1, 3])
    else Call(now, Returned(5, true), [1, 3])
  }

  /** A call that draws this number before state k and looks at it before the next. */
  function Other(now: Instant, drawn: nat, at: nat, k: nat): Call {
    Call(now, if k < at then Drawing else if k == at then Looking(drawn) else Returned(drawn, false), [])
  }

  function CallsAt(now: Instant, k: nat): map<Tid, Call> {
    if k == 0 then map[]
    else if k == 1 then map[0 := First(now, k)]
    else if k == 2 then map[0 := First(now, k), 1 := Other(now, 2, 6, k)]
    else map[0 := First(now, k), 1 := Other(now, 2, 6, k), 2 := Other(now, 4, 10, k)]
  }

  function CounterAt(k: nat): nat {
    if k <= 3 then 0 else (k - 2) / 2
  }

  function StateAt(data: map<Proxy, ProxyHealth>, now: Instant, k: nat): State {
    State(CounterAt(k), data, CallsAt(now, k))
  }

  function EventAt(now: Instant, k: nat): Event {
    if k <= 2 then Start(k, now)
    else
      var t := if k == 5 || k == 6 then 1 else if k == 9 || k == 10 then 2 else 0;
      if k % 2 == 1 then Draw(t) else Look(t)
  }

  /** What the two listed proxies are: the second one is cooling down, the first one is not. */
  predicate OneHealthy(proxies: Listed, cfg: Config, data: map<Proxy, ProxyHealth>, now: Instant) {
    && |proxies| == 2 && Health(data, proxies[0]).deactivateAt == ZERO
    && CoolingDown(Health(data, proxies[1]), cfg.cooldown, now)
  }

  lemma LookStep(proxies: Listed, cfg: Config, data: map<Proxy, ProxyHealth>, now: Instant, k: nat)
    requires OneHealthy(proxies, cfg, data, now) && 3 <= k <= 11 && k % 2 == 0
    ensures Next(proxies, cfg, StateAt(data, now, k), EventAt(now, k), StateAt(data, now, k + 1))
  {
    assert Looked(data, proxies[1], cfg.cooldown, now) == (data, false);
    assert Looked(data, proxies[0], cfg.cooldown, now) == (data, true);
    assert Slot(1, 2) == 1 && Slot(2, 2) == 0 && Slot(3, 2) == 1 && Slot(4, 2) == 0;
    assert [] + [1] == [1] && [1] + [3] == [1, 3];
    var t := EventAt(now, k).t;
    assert CallsAt(now, k + 1) == CallsAt(now, k)[t := CallsAt(now, k + 1)[t]];
  }

  /** Call 0 draws the cooling proxy, call 1 the healthy one, call 0 the cooling one again, call 2
      the healthy one, and call 0 gives up and returns the cooling one. */
  lemma FallsBackOverHealthy(proxies: Listed, cfg: Config, data: map<Proxy, ProxyHealth>, now: Instant)
    returns (states: seq<State>, events: seq<Event>)
    requires OneHealthy(proxies, cfg, data, now)
    ensures |events| == 12 && Run(proxies, cfg, states, events) && 0 in states[12].calls
    ensures states[12].calls[0].phase == Returned(5, true) && Slot(5, 2) == 1
    ensures forall k :: 0 <= k <= 12 ==> states[k].data == data
  {
    states := seq(13, k requires 0 <= k => StateAt(data, now, k));
    events := seq(12, k requires 0 <= k => EventAt(now, k));
    forall k | 0 <= k < 12
      ensures Next(proxies, cfg, states[k], events[k], states[k + 1])
    {
      if k > 2 && k % 2 == 0 {
        LookStep(proxies, cfg, data, now, k);
      }
    }
  }
}

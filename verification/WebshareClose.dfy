/** Why the wait in Close (proxypool/webshare_refresh.go) can always finish: after cancellation the
    goroutines never get stuck on each other or on the singleflight slot. */
module WebshareClose {
  import opened Prelude
  import opened Clock
  import opened SingleFlight
  import opened WebshareRefresh

  /** How many steps a goroutine still has to take, at most, when it does not wake up again. */
  function Rank(p: Phase): (n: nat)
    ensures n > 0
  {
    match p
    case Calling => 8
    case Fetching => 7
    case Storing(_) => 6
    case CountingOk => 5
    case Stamping => 4
    case CountingFail => 4
    case Landing => 3
    case Joined => 3
    case Returned => 2
    case Asleep => 1
  }

  ghost function Weight(threads: map<Tid, Thread>): nat
    decreases |threads|
  {
    if threads == map[] then 0
    else
      var t :| t in threads;
      Rank(threads[t].phase) + Weight(threads - {t})
  }

  /** The weight does not depend on the order of summation. */
  lemma {:induction false} WeightAt(threads: map<Tid, Thread>, t: Tid)
    requires t in threads
    ensures Weight(threads) == Rank(threads[t].phase) + Weight(threads - {t})
    decreases |threads|
  {
    var u :| u in threads && Weight(threads) == Rank(threads[u].phase) + Weight(threads - {u});
    if u != t {
      WeightAt(threads - {u}, t);
      WeightAt(threads - {t}, u);
      assert threads - {u} - {t} == threads - {t} - {u};
    }
  }

  lemma {:induction false} WeightAtMost(a: map<Tid, Thread>, b: map<Tid, Thread>)
    requires a.Keys == b.Keys && forall t :: t in a ==> Rank(a[t].phase) <= Rank(b[t].phase)
    ensures Weight(a) <= Weight(b)
    decreases |a|
  {
    if a != map[] {
      var t :| t in a;
      WeightAt(a, t);
      WeightAt(b, t);
      WeightAtMost(a - {t}, b - {t});
    }
  }

  lemma WeightMoved(w: Work, t: Tid, p: Phase)
    requires t in w.threads && Rank(p) < Rank(w.threads[t].phase)
    ensures Weight(Moved(w, t, p).threads) < Weight(w.threads)
  {
    var moved := Moved(w, t, p).threads;
    WeightAt(w.threads, t);
    WeightAt(moved, t);
    assert moved - {t} == w.threads - {t};
  }

  lemma WeightReleased(w: Work, t: Tid)
    requires FlightsMatch(w) && At(w, t, Landing)
    ensures Weight(Released(w, t)) < Weight(w.threads)
  {
    var r := Released(w, t);
    WeightAt(w.threads, t);
    WeightAt(r, t);
    forall u | u in r
      ensures Rank(r[u].phase) <= Rank(w.threads[u].phase)
    {
      assert Joins(w.flights, KEY, u) ==> Waiting(w, u);
    }
    WeightAtMost(r - {t}, w.threads - {t});
  }

  /** A step of a goroutine other than waking up from its interval. */
  predicate Winding(e: Event) {
    || e.Exit? || e.Call? || e.FetchOk? || e.FetchErr? || e.Store? || e.CountOk? || e.Stamp? || e.CountFail?
    || e.Release? || e.Return?
  }

  /** The step goroutine t can take next once the context is cancelled. */
  function NextOf(w: Work, t: Tid, at: Instant): Event
    requires t in w.threads && !w.threads[t].phase.Joined?
  {
    match w.threads[t].phase
    case Asleep => Exit(t)
    case Calling => Call(t)
    case Fetching => FetchErr(t)
    case Storing(_) => Store(t)
    case CountingOk => CountOk(t)
    case Stamping => Stamp(t, at)
    case CountingFail => CountFail(t)
    case Landing => Release(t)
    case Returned => Return(t)
  }

  function WorkAfter(w: Work, t: Tid): Work
    requires t in w.threads && !w.threads[t].phase.Joined?
  {
    match w.threads[t].phase
    case Asleep => w.(threads := w.threads - {t}, wg := w.wg - 1)
    case Calling => Moved(w, t, if KEY in w.flights then Joined else Fetching).(flights := Enter(w.flights, KEY, t))
    case Fetching => Moved(w, t, CountingFail)
    case Storing(_) => Moved(w, t, CountingOk)
    case CountingOk => Moved(w, t, Stamping)
    case Stamping => Moved(w, t, Landing)
    case CountingFail => Moved(w, t, Landing)
    case Landing => w.(flights := Land(w.flights, KEY), threads := Released(w, t))
    case Returned =>
      if w.threads[t].periodic then Moved(w, t, Asleep) else w.(threads := w.threads - {t}, wg := w.wg - 1)
  }

  function LiveAfter(l: Live, w: Work, t: Tid, at: Instant): Live
    requires t in w.threads && !w.threads[t].phase.Joined?
  {
    match w.threads[t].phase
    case Calling => if KEY in w.flights then l else l.(started := l.started + 1)
    case Fetching => l.(completed := l.completed + 1)
    case Storing(list) => l.(proxies := list)
    case CountingOk => l.(ok := l.ok + 1)
    case Stamping => l.(lastRefresh := Some(at))
    case CountingFail => l.(errs := l.errs + 1)
    case _ => l
  }

  /** Every such step, whichever goroutine takes it, leaves fewer to take. */
  lemma WindingShrinks(w: Work, e: Event, cancelled: bool, w': Work)
    requires FlightsMatch(w) && WorkStep(w, e, false, cancelled, w') && Winding(e)
    ensures Weight(w'.threads) < Weight(w.threads)
  {
    var t := e.t;
    if e.Release? {
      WeightReleased(w, t);
    } else if e.Exit? || (e.Return? && !w.threads[t].periodic) {
      WeightAt(w.threads, t);
    } else {
      var q := w'.threads[t].phase;
      WeightMoved(w, t, q);
      assert w'.threads == Moved(w, t, q).threads;
    }
  }

  /** Some goroutine is not waiting for another. */
  lemma SomeoneCanMove(w: Work) returns (t: Tid)
    requires FlightsMatch(w) && w.threads != map[]
    ensures t in w.threads && !w.threads[t].phase.Joined?
  {
    if KEY in w.flights {
      t := w.flights[KEY].leader;
      assert Leads(w.flights, KEY, t) <==> Inside(w, t);
    } else {
      t :| t in w.threads;
      assert Joins(w.flights, KEY, t) <==> Waiting(w, t);
    }
  }

  function TimeAfter(now: Time, w: Work, t: Tid, at: Instant): Time
    requires t in w.threads
  {
    if w.threads[t].phase.Stamping? then at else now
  }

  /** s after goroutine t's next step. */
  function After(s: State, t: Tid, at: Instant): State
    requires t in s.work.threads && !s.work.threads[t].phase.Joined?
  {
    State(s.cfg, s.hasFetch, WorkAfter(s.work, t), LiveAfter(s.live, s.work, t, at), s.gate, s.trig,
          TimeAfter(s.now, s.work, t, at))
  }

  lemma GoesOn(s: State, t: Tid, at: Instant)
    requires t in s.work.threads && !s.work.threads[t].phase.Joined? && s.now <= at
    requires s.work.threads[t].phase.Asleep? ==> s.gate.cancelled
    ensures Winding(NextOf(s.work, t, at)) && Next(s, NextOf(s.work, t, at), After(s, t, at))
  {
    InParts(s, NextOf(s.work, t, at), After(s, t, at));
  }

  lemma InParts(s: State, e: Event, s': State)
    requires s'.cfg == s.cfg && s'.hasFetch == s.hasFetch && Winding(e) && !e.FetchOk?
    requires WorkStep(s.work, e, false, s.gate.cancelled, s'.work) && LiveStep(s.live, s.work, e, s'.live)
    requires GateStep(s.gate, s.hasFetch, s.work.wg, e, s'.gate)
    requires TriggerStep(s.trig, s.hasFetch, false, e, s'.trig) && TimeStep(s.now, false, e, s'.now)
    ensures Next(s, e, s')
  {
    assert !Spawns(s, e);
  }

  /** A clock reading no earlier than now. */
  function Reading(now: Time): (at: Instant)
    ensures now <= at
  {
    if now > MAX_DURATION then now else MAX_DURATION + 1
  }

  /** In any state of any run after cancellation, as long as goroutines are left, one of them has
      a step to take, and taking it brings the end closer. */
  lemma NeverStuck(s: State) returns (e: Event, s': State)
    requires Inv(s) && s.gate.cancelled && s.work.threads != map[]
    ensures Next(s, e, s') && Winding(e) && Inv(s') && s'.gate == s.gate
    ensures Weight(s'.work.threads) < Weight(s.work.threads)
  {
    var t := SomeoneCanMove(s.work);
    var at := Reading(s.now);
    GoesOn(s, t, at);
    e, s' := NextOf(s.work, t, at), After(s, t, at);
    WindingShrinks(s.work, e, true, s'.work);
    InvStep(s, e, s');
  }

  /** Once the pool is closed, every step that is not a wake-up leaves the weight or lowers it. */
  lemma ClosedWeight(s: State, e: Event, s': State)
    requires Inv(s) && Next(s, e, s') && s.gate.closed && !e.Wake?
    ensures Weight(s'.work.threads) + (if Winding(e) then 1 else 0) <= Weight(s.work.threads)
    ensures s'.gate.closed
  {
    assert !Spawns(s, e);
    if Winding(e) {
      WindingShrinks(s.work, e, s.gate.cancelled, s'.work);
    } else {
      assert s'.work == s.work;
    }
  }

  function Windings(events: seq<Event>): nat {
    if |events| == 0 then 0
    else Windings(events[..|events| - 1]) + if Winding(events[|events| - 1]) then 1 else 0
  }

  /** Whatever the schedule, between two wake-ups the goroutines of a closed pool take at most as
      many steps as their weight. */
  lemma {:induction false} StepsBounded(run: seq<State>, events: seq<Event>, i: nat, j: nat)
    requires Run(run, events) && i <= j < |run| && run[i].gate.closed
    requires forall k :: i <= k < j ==> !events[k].Wake?
    ensures Windings(events[i..j]) + Weight(run[j].work.threads) <= Weight(run[i].work.threads)
    ensures run[j].gate.closed
  {
    if i < j {
      StepsBounded(run, events, i, j - 1);
      RunInv(run, events, j - 1);
      ClosedWeight(run[j - 1], events[j - 1], run[j]);
      WindingsSnoc(events, i, j - 1);
    }
  }

  lemma WindingsSnoc(events: seq<Event>, i: nat, j: nat)
    requires i <= j < |events|
    ensures Windings(events[i..j + 1]) == Windings(events[i..j]) + if Winding(events[j]) then 1 else 0
  {
    assert events[i..j + 1][..j - i] == events[i..j];
  }

  /** A sequence of steps from s. */
  ghost predicate Steps(s: State, states: seq<State>, events: seq<Event>) {
    && |states| == |events| + 1 && states[0] == s
    && forall i :: 0 <= i < |events| ==> Next(states[i], events[i], states[i + 1]) && Winding(events[i])
  }

  lemma StepFirst(s: State, e: Event, s': State, rest: seq<State>, more: seq<Event>)
    ensures Next(s, e, s') && Winding(e) && Steps(s', rest, more) ==> Steps(s, [s] + rest, [e] + more)
  {
    var states, events := [s] + rest, [e] + more;
    forall i | Next(s, e, s') && Winding(e) && Steps(s', rest, more) && 0 <= i < |events|
      ensures Next(states[i], events[i], states[i + 1]) && Winding(events[i])
    {
      if i > 0 {
        assert events[i] == more[i - 1] && states[i] == rest[i - 1] && states[i + 1] == rest[i];
      }
    }
  }

  lemma {:induction false} WindsDown(s: State) returns (states: seq<State>, events: seq<Event>)
    requires Inv(s) && s.gate.cancelled
    ensures Steps(s, states, events) && |events| <= Weight(s.work.threads)
    ensures Inv(states[|events|]) && states[|events|].gate == s.gate && states[|events|].work.threads == map[]
    decreases Weight(s.work.threads)
  {
    if s.work.threads == map[] {
      return [s], [];
    }
    var e, s' := NeverStuck(s);
    var rest, more := WindsDown(s');
    StepFirst(s, e, s', rest, more);
    states, events := [s] + rest, [e] + more;
    assert states[|events|] == rest[|more|];
  }

  /** Close never hangs: from any state of any run in which the context is cancelled, the goroutines
      left can run to their end by their own steps, after which the first Close can return. */
  lemma CloseCanReturn(run: seq<State>, past: seq<Event>, i: nat)
    returns (states: seq<State>, events: seq<Event>, end: State)
    requires Run(run, past) && i < |run| && run[i].gate.cancelled && !run[i].gate.closeReturned
    ensures Steps(run[i], states, events) && |events| <= Weight(run[i].work.threads)
    ensures Next(states[|events|], CloseReturn, end) && end.gate.closeReturned
  {
    RunInv(run, past, i);
    states, events := WindsDown(run[i]);
    var last := states[|events|];
    end := last.(gate := last.gate.(closeReturned := true));
  }

  // ---- Every fair run of Close ends ----

  ghost predicate Endless(run: nat -> State, events: nat -> Event) {
    Initial(run(0)) && forall k: nat :: Next(run(k), events(k), run(k + 1))
  }

  /** Some goroutine takes a step at or after k. */
  ghost predicate StepsAgain(events: nat -> Event, k: nat) {
    exists m: nat :: k <= m && Winding(events(m))
  }

  ghost predicate ReturnsAgain(events: nat -> Event, k: nat) {
    exists m: nat :: k <= m && events(m).CloseReturn?
  }

  /** From i on: nobody is starved. While goroutines are left one of them moves, as NeverStuck says it
      can, and once none is left the waiting Close goes on; sleeps under the done context end. */
  ghost predicate FairFrom(run: nat -> State, events: nat -> Event, i: nat) {
    && (forall k: nat :: i <= k ==> !events(k).Wake?)
    && (forall k: nat :: i <= k && run(k).work.threads != map[] ==> StepsAgain(events, k))
    && (forall k: nat :: (i <= k && run(k).work.threads == map[] && !run(k).gate.closeReturned) ==>
          ReturnsAgain(events, k))
  }

  lemma {:induction false} EndlessInv(run: nat -> State, events: nat -> Event, k: nat)
    requires Endless(run, events)
    ensures Inv(run(k))
  {
    if k == 0 {
      InvInitial(run(0));
    } else {
      EndlessInv(run, events, k - 1);
      InvStep(run(k - 1), events(k - 1), run(k));
    }
  }

  lemma NextWeight(run: nat -> State, events: nat -> Event, k: nat)
    requires Endless(run, events) && run(k).gate.closed && !events(k).Wake?
    ensures run(k + 1).gate.closed && Weight(run(k + 1).work.threads) <= Weight(run(k).work.threads)
  {
    EndlessInv(run, events, k);
    ClosedWeight(run(k), events(k), run(k + 1));
  }

  lemma {:induction false} WeightFalls(run: nat -> State, events: nat -> Event, i: nat, k: nat)
    requires Endless(run, events) && i <= k && run(i).gate.closed
    requires forall j: nat :: i <= j ==> !events(j).Wake?
    ensures run(k).gate.closed && Weight(run(k).work.threads) <= Weight(run(i).work.threads)
  {
    if i < k {
      WeightFalls(run, events, i, k - 1);
      NextWeight(run, events, k - 1);
    }
  }

  lemma {:induction false} GoroutinesEnd(run: nat -> State, events: nat -> Event, i: nat) returns (k: nat)
    requires Endless(run, events) && FairFrom(run, events, i) && run(i).gate.closed
    ensures i <= k && run(k).work.threads == map[]
    decreases Weight(run(i).work.threads)
  {
    if run(i).work.threads == map[] {
      return i;
    }
    assert StepsAgain(events, i);
    var m: nat :| i <= m && Winding(events(m));
    WeightFalls(run, events, i, m);
    EndlessInv(run, events, m);
    ClosedWeight(run(m), events(m), run(m + 1));
    k := GoroutinesEnd(run, events, m + 1);
  }

  /** Once the context is cancelled, the first Close returns in every fair run. */
  lemma FairCloseReturns(run: nat -> State, events: nat -> Event, i: nat) returns (k: nat)
    requires Endless(run, events) && FairFrom(run, events, i) && run(i).gate.cancelled
    ensures i <= k && run(k).gate.closeReturned && run(k).work.threads == map[]
  {
    EndlessInv(run, events, i);
    var end := GoroutinesEnd(run, events, i);
    if run(end).gate.closeReturned {
      return end;
    }
    assert ReturnsAgain(events, end);
    var m: nat :| end <= m && events(m).CloseReturn?;
    EndlessInv(run, events, m);
    k := m + 1;
  }

  // ---- What the return of a later Close means ----

  predicate GoroutineStep(e: Event) {
    Winding(e) || e.Wake?
  }

  ghost predicate Follows(s: State, states: seq<State>, events: seq<Event>) {
    && |states| == |events| + 1 && states[0] == s
    && forall i :: 0 <= i < |events| ==> Next(states[i], events[i], states[i + 1])
  }

  /** However the run goes on, no goroutine moves and list, counters and last refresh stay. */
  ghost predicate QuietForever(s: State) {
    forall states: seq<State>, events: seq<Event> :: Follows(s, states, events) ==>
      && (forall i :: 0 <= i < |events| ==> !GoroutineStep(events[i]))
      && (forall i :: 0 <= i < |states| ==> states[i].live == s.live)
  }

  lemma {:induction false} QuietRun(s: State, states: seq<State>, events: seq<Event>, i: nat)
    requires s.gate.closed && s.work.threads == map[] && Follows(s, states, events) && i < |states|
    ensures states[i].gate.closed && states[i].work.threads == map[] && states[i].live == s.live
    ensures i < |events| ==> !GoroutineStep(events[i])
  {
    if i > 0 {
      QuietRun(s, states, events, i - 1);
      NoSpawnOnceClosed(states[i - 1], events[i - 1], states[i]);
    }
    if i < |events| {
      assert Next(states[i], events[i], states[i + 1]);
    }
  }

  lemma SomeStep(s: State) returns (e: Event, s': State)
    requires Inv(s) && s.work.threads != map[]
    ensures Next(s, e, s') && GoroutineStep(e)
  {
    var t := SomeoneCanMove(s.work);
    if s.work.threads[t].phase.Asleep? {
      e, s' := Wake(t), s.(work := Moved(s.work, t, Calling));
    } else {
      var at := Reading(s.now);
      GoesOn(s, t, at);
      e, s' := NextOf(s.work, t, at), After(s, t, at);
    }
  }

  /** When a Close returns at once because the pool is closed already, that means what the return of
      the first one means exactly when no goroutine is left at that moment. */
  lemma LaterCloseExactly(run: seq<State>, past: seq<Event>, i: nat)
    requires Run(run, past) && i < |past| && past[i] == CloseAgain
    ensures QuietForever(run[i]) <==> run[i].work.threads == map[]
  {
    var s := run[i];
    RunInv(run, past, i);
    assert Next(s, past[i], run[i + 1]);
    if s.work.threads == map[] {
      forall states: seq<State>, events: seq<Event> | Follows(s, states, events)
        ensures forall j :: 0 <= j < |events| ==> !GoroutineStep(events[j])
        ensures forall j :: 0 <= j < |states| ==> states[j].live == s.live
      {
        forall j: nat | j < |states|
          ensures states[j].live == s.live && (j < |events| ==> !GoroutineStep(events[j]))
        {
          QuietRun(s, states, events, j);
        }
      }
    } else {
      var e, s' := SomeStep(s);
      assert Follows(s, [s, s'], [e]);
      assert GoroutineStep([e][0]);
    }
  }
}

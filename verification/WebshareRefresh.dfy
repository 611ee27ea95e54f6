/** The Webshare credential refresher (proxypool/webshare_refresh.go) as interleaved steps over
    one shared state: the periodic loop, the refreshes 407 reports trigger, the singleflight slot
    they share, the WaitGroup, Close, and the atomically swapped list. A critical section of
    triggerMu is one step; everything else is one step per shared access. The state is kept in
    parts, and a step is given part by part. */
module WebshareRefresh {
  import opened Prelude
  import opened Clock
  import opened SingleFlight
  import opened WebshareFetch

  const KEY: Key := "credentials"

  /** Where a refresher goroutine stands. Fetching to Landing is the inside of the singleflight
      function, run by the flight's leader; Joined waits for another leader. */
  datatype Phase =
    | Asleep
    | Calling
    | Joined
    | Fetching
    | Storing(list: seq<string>)
    | CountingOk
    | Stamping
    | CountingFail
    | Landing
    | Returned
  {
    predicate Leading() {
      Fetching? || Storing? || CountingOk? || Stamping? || CountingFail? || Landing?
    }

    /** The fetch has returned but is not counted yet. */
    predicate Uncounted() {
      Storing? || CountingOk? || CountingFail?
    }
  }

  datatype Thread = Thread(periodic: bool, phase: Phase)

  /** The goroutines, the singleflight slot and the WaitGroup. */
  datatype Work = Work(threads: map<Tid, Thread>, flights: Group, wg: int)

  /** What refreshing changes; started and completed count fetches for the specification. */
  datatype Live = Live(
    proxies: seq<string>,
    ok: nat,
    errs: nat,
    lastRefresh: Option<Time>,
    started: nat,
    completed: nat)

  datatype Gate = Gate(closed: bool, cancelled: bool, closeReturned: bool)

  /** undecided counts reports that have not taken the lock yet; stamps are the instants stored in
      lastTrigger so far. */
  datatype Triggers = Triggers(last: Option<Time>, stamps: seq<Time>, authFailures: nat, undecided: nat)

  datatype State = State(
    cfg: Config,
    hasFetch: bool,
    work: Work,
    live: Live,
    gate: Gate,
    trig: Triggers,
    now: Time)

  datatype Event =
    | Report
    | Decide(t: Tid, read: Instant, stored: Instant)
    | Wake(t: Tid)
    | Exit(t: Tid)
    | Call(t: Tid)
    | FetchOk(t: Tid, list: seq<string>)
    | FetchErr(t: Tid)
    | Store(t: Tid)
    | CountOk(t: Tid)
    | Stamp(t: Tid, at: Instant)
    | CountFail(t: Tid)
    | Release(t: Tid)
    | Return(t: Tid)
    | CloseFirst
    | CloseAgain
    | Cancel
    | CloseReturn

  predicate At(w: Work, t: Tid, p: Phase) {
    t in w.threads && w.threads[t].phase == p
  }

  /** w with goroutine t moved on. */
  function Moved(w: Work, t: Tid, p: Phase): Work
    requires t in w.threads
  {
    w.(threads := w.threads[t := w.threads[t].(phase := p)])
  }

  /** The leader t and everyone who joined its flight get the result. */
  function Released(w: Work, t: Tid): map<Tid, Thread> {
    map u | u in w.threads ::
      if u == t || Joins(w.flights, KEY, u) then w.threads[u].(phase := Returned) else w.threads[u]
  }

  /** spawn: a report decided now may start a refresh; cancelled: the context is done. */
  ghost predicate WorkStep(w: Work, e: Event, spawn: bool, cancelled: bool, w': Work) {
    match e
    case Decide(t, _, _) =>
      && t !in w.threads
      && w' == if spawn then w.(threads := w.threads[t := Thread(false, Calling)], wg := w.wg + 1) else w
    case Wake(t) => At(w, t, Asleep) && w' == Moved(w, t, Calling)
    case Exit(t) => At(w, t, Asleep) && cancelled && w' == w.(threads := w.threads - {t}, wg := w.wg - 1)
    case Call(t) =>
      && At(w, t, Calling)
      && w' == Moved(w, t, if KEY in w.flights then Joined else Fetching).(flights := Enter(w.flights, KEY, t))
    case FetchOk(t, list) => At(w, t, Fetching) && w' == Moved(w, t, Storing(list))
    case FetchErr(t) => At(w, t, Fetching) && w' == Moved(w, t, CountingFail)
    case Store(t) => t in w.threads && w.threads[t].phase.Storing? && w' == Moved(w, t, CountingOk)
    case CountOk(t) => At(w, t, CountingOk) && w' == Moved(w, t, Stamping)
    case Stamp(t, _) => At(w, t, Stamping) && w' == Moved(w, t, Landing)
    case CountFail(t) => At(w, t, CountingFail) && w' == Moved(w, t, Landing)
    case Release(t) => At(w, t, Landing) && w' == w.(flights := Land(w.flights, KEY), threads := Released(w, t))
    case Return(t) =>
      && At(w, t, Returned)
      && w' == if w.threads[t].periodic then Moved(w, t, Asleep) else w.(threads := w.threads - {t}, wg := w.wg - 1)
    case _ => w' == w
  }

  ghost predicate LiveStep(l: Live, w: Work, e: Event, l': Live) {
    match e
    case Call(t) => l' == if KEY in w.flights then l else l.(started := l.started + 1)
    case FetchOk(t, _) => l' == l.(completed := l.completed + 1)
    case FetchErr(t) => l' == l.(completed := l.completed + 1)
    case Store(t) => t in w.threads && w.threads[t].phase.Storing? && l' == l.(proxies := w.threads[t].phase.list)
    case CountOk(t) => l' == l.(ok := l.ok + 1)
    case Stamp(t, at) => l' == l.(lastRefresh := Some(at))
    case CountFail(t) => l' == l.(errs := l.errs + 1)
    case _ => l' == l
  }

  ghost predicate GateStep(g: Gate, hasFetch: bool, wg: int, e: Event, g': Gate) {
    match e
    case CloseFirst => !g.closed && g' == g.(closed := true)
    case CloseAgain => g.closed && g' == g
    case Cancel => g.closed && hasFetch && g' == g.(cancelled := true)
    case CloseReturn =>
      g.closed && !g.closeReturned && (hasFetch ==> g.cancelled) && wg == 0 && g' == g.(closeReturned := true)
    case _ => g' == g
  }

  ghost predicate TriggerStep(tr: Triggers, hasFetch: bool, spawn: bool, e: Event, tr': Triggers) {
    match e
    case Report =>
      tr' == tr.(authFailures := tr.authFailures + 1, undecided := if hasFetch then tr.undecided + 1 else tr.undecided)
    case Decide(_, _, stored) =>
      && tr.undecided > 0
      && tr' == if spawn then Triggers(Some(stored), tr.stamps + [stored], tr.authFailures, tr.undecided - 1)
                else tr.(undecided := tr.undecided - 1)
    case _ => tr' == tr
  }

  predicate TimeStep(now: Time, spawn: bool, e: Event, now': Time) {
    match e
    case Decide(_, read, stored) => now <= read <= stored && now' == if spawn then stored else read
    case Stamp(_, at) => now <= at && now' == at
    case _ => now' == now
  }

  /** A report decided at this reading starts a refresh: the pool is open and the last trigger is
      at least refreshMinGap ago. */
  predicate Spawns(s: State, e: Event) {
    e.Decide? && !s.gate.closed && !(s.trig.last.Some? && Sub(e.read, s.trig.last.value) < s.cfg.refreshMinGap)
  }

  ghost predicate Next(s: State, e: Event, s': State) {
    && s'.cfg == s.cfg && s'.hasFetch == s.hasFetch
    && (e.FetchOk? ==> Fetchable(s.cfg, e.list))
    && WorkStep(s.work, e, Spawns(s, e), s.gate.cancelled, s'.work)
    && LiveStep(s.live, s.work, e, s'.live)
    && GateStep(s.gate, s.hasFetch, s.work.wg, e, s'.gate)
    && TriggerStep(s.trig, s.hasFetch, Spawns(s, e), e, s'.trig)
    && TimeStep(s.now, Spawns(s, e), e, s'.now)
  }

  /** A pool just built, its refresher wired when it can fetch. */
  ghost predicate Initial(s: State) {
    && Ready(s.cfg)
    && |s.live.proxies| > 0 && s.live == Live(s.live.proxies, 0, 0, None, 0, 0)
    && s.gate == Gate(false, false, false) && s.trig == Triggers(None, [], 0, 0)
    && s.work == if s.hasFetch && s.cfg.refreshInterval > 0
                 then Work(map[0 := Thread(true, Asleep)], map[], 1) else Work(map[], map[], 0)
  }

  ghost predicate Run(states: seq<State>, events: seq<Event>) {
    && |states| == |events| + 1 && Initial(states[0])
    && forall i :: 0 <= i < |events| ==> Next(states[i], events[i], states[i + 1])
  }

  // ---- The slot ----

  predicate Inside(w: Work, t: Tid) {
    t in w.threads && w.threads[t].phase.Leading()
  }

  predicate Waiting(w: Work, t: Tid) {
    t in w.threads && w.threads[t].phase.Joined?
  }

  /** The singleflight slot knows exactly who is inside it and who waits for it. */
  ghost predicate FlightsMatch(w: Work) {
    && (forall t :: Leads(w.flights, KEY, t) <==> Inside(w, t))
    && (forall t :: Joins(w.flights, KEY, t) <==> Waiting(w, t))
  }

  lemma CallFlights(w: Work, t: Tid, w': Work)
    requires FlightsMatch(w) && WorkStep(w, Call(t), false, false, w')
    ensures FlightsMatch(w')
  {
    forall u
      ensures Leads(w'.flights, KEY, u) <==> Inside(w', u)
      ensures Joins(w'.flights, KEY, u) <==> Waiting(w', u)
    {
      EnterEffect(w.flights, KEY, t, KEY, u);
    }
  }

  lemma ReleaseFlights(w: Work, t: Tid, w': Work)
    requires FlightsMatch(w) && WorkStep(w, Release(t), false, false, w')
    ensures FlightsMatch(w')
  {
    forall u
      ensures Leads(w'.flights, KEY, u) <==> Inside(w', u)
      ensures Joins(w'.flights, KEY, u) <==> Waiting(w', u)
    {
      LandEffect(w.flights, KEY, KEY, u);
      assert Inside(w, t);
      if Inside(w, u) {
        OneLeader(w.flights, KEY, t, u);
      }
    }
  }

  /** Every other step leaves the slot alone and moves nobody in or out of it. */
  lemma OtherFlights(w: Work, e: Event, spawn: bool, cancelled: bool, w': Work)
    requires WorkStep(w, e, spawn, cancelled, w') && !e.Call? && !e.Release?
    ensures w'.flights == w.flights
    ensures forall u :: Inside(w', u) == Inside(w, u) && Waiting(w', u) == Waiting(w, u)
  {
  }

  lemma FlightsStep(w: Work, e: Event, spawn: bool, cancelled: bool, w': Work)
    requires FlightsMatch(w) && WorkStep(w, e, spawn, cancelled, w')
    ensures FlightsMatch(w')
  {
    if e.Call? {
      CallFlights(w, e.t, w');
    } else if e.Release? {
      ReleaseFlights(w, e.t, w');
    } else {
      OtherFlights(w, e, spawn, cancelled, w');
    }
  }

  // ---- The WaitGroup ----

  lemma SizeAfterPut(m: map<Tid, Thread>, t: Tid, v: Thread)
    ensures |m[t := v]| == if t in m then |m| else |m| + 1
  {
    assert m[t := v].Keys == m.Keys + {t};
    assert |m| == |m.Keys| && |m[t := v]| == |m[t := v].Keys|;
  }

  lemma SizeAfterRemove(m: map<Tid, Thread>, t: Tid)
    requires t in m
    ensures |m - {t}| == |m| - 1
  {
    assert m.Keys == (m - {t}).Keys + {t};
    assert |m| == |m.Keys| && |m - {t}| == |(m - {t}).Keys|;
  }

  lemma SizeAfterRelease(w: Work, t: Tid)
    ensures |Released(w, t)| == |w.threads|
  {
    assert Released(w, t).Keys == w.threads.Keys;
    assert |w.threads| == |w.threads.Keys| && |Released(w, t)| == |Released(w, t).Keys|;
  }

  /** The WaitGroup counts the live refreshers. */
  lemma WaitGroupStep(w: Work, e: Event, spawn: bool, cancelled: bool, w': Work)
    requires w.wg == |w.threads| && WorkStep(w, e, spawn, cancelled, w')
    ensures w'.wg == |w'.threads|
  {
    if w'.threads != w.threads {
      var t := e.t;
      if e.Release? {
        SizeAfterRelease(w, t);
      } else if t in w'.threads {
        SizeAfterPut(w.threads, t, w'.threads[t]);
      } else {
        SizeAfterRemove(w.threads, t);
      }
    }
  }

  // ---- The counters ----

  /** The phase of the goroutine inside the slot. */
  function LeaderPhase(w: Work): Option<Phase> {
    if KEY in w.flights && w.flights[KEY].leader in w.threads
    then Some(w.threads[w.flights[KEY].leader].phase) else None
  }

  predicate CountersMatch(w: Work, l: Live) {
    var p := LeaderPhase(w);
    && l.started == l.completed + (if p == Some(Fetching) then 1 else 0)
    && l.completed == l.ok + l.errs + (if p.Some? && p.value.Uncounted() then 1 else 0)
  }

  lemma InsideIsLeader(w: Work, t: Tid)
    requires FlightsMatch(w) && Inside(w, t)
    ensures LeaderPhase(w) == Some(w.threads[t].phase)
  {
    assert Leads(w.flights, KEY, t);
  }

  lemma LeaderIsInside(w: Work)
    requires FlightsMatch(w) && KEY in w.flights
    ensures LeaderPhase(w).Some? && LeaderPhase(w).value.Leading()
  {
    assert Leads(w.flights, KEY, w.flights[KEY].leader);
    assert Inside(w, w.flights[KEY].leader);
  }

  /** Steps inside the slot: who is in it stays the same. */
  lemma LeaderMoves(w: Work, e: Event, spawn: bool, cancelled: bool, w': Work)
    requires FlightsMatch(w) && WorkStep(w, e, spawn, cancelled, w') && !e.Call? && !e.Release?
    ensures LeaderPhase(w') ==
            if e.FetchOk? || e.FetchErr? || e.Store? || e.CountOk? || e.Stamp? || e.CountFail?
            then Some(w'.threads[e.t].phase) else LeaderPhase(w)
    ensures e.FetchOk? || e.FetchErr? || e.Store? || e.CountOk? || e.Stamp? || e.CountFail? ==>
              e.t in w.threads && LeaderPhase(w) == Some(w.threads[e.t].phase)
  {
    FlightsStep(w, e, spawn, cancelled, w');
    OtherFlights(w, e, spawn, cancelled, w');
    if e.FetchOk? || e.FetchErr? || e.Store? || e.CountOk? || e.Stamp? || e.CountFail? {
      assert Inside(w, e.t);
      InsideIsLeader(w, e.t);
      InsideIsLeader(w', e.t);
    } else if KEY in w.flights {
      LeaderIsInside(w);
    }
  }

  lemma CountersStep(w: Work, l: Live, e: Event, spawn: bool, cancelled: bool, w': Work, l': Live)
    requires FlightsMatch(w) && CountersMatch(w, l)
    requires WorkStep(w, e, spawn, cancelled, w') && LiveStep(l, w, e, l')
    ensures CountersMatch(w', l')
  {
    if e.Call? {
      CallCounters(w, l, e.t, spawn, cancelled, w', l');
    } else if e.Release? {
      assert Inside(w, e.t);
      InsideIsLeader(w, e.t);
    } else {
      LeaderMoves(w, e, spawn, cancelled, w');
    }
  }

  lemma CallCounters(w: Work, l: Live, t: Tid, spawn: bool, cancelled: bool, w': Work, l': Live)
    requires FlightsMatch(w) && CountersMatch(w, l)
    requires WorkStep(w, Call(t), spawn, cancelled, w') && LiveStep(l, w, Call(t), l')
    ensures CountersMatch(w', l')
  {
    if KEY in w.flights {
      LeaderIsInside(w);
      assert w.flights[KEY].leader != t;
    }
  }

  // ---- The list, the triggers and closing ----

  ghost predicate ListsGood(cfg: Config, w: Work, l: Live) {
    && |l.proxies| > 0
    && forall t :: t in w.threads && w.threads[t].phase.Storing? ==> Fetchable(cfg, w.threads[t].phase.list)
  }

  lemma ListsStep(cfg: Config, w: Work, l: Live, e: Event, spawn: bool, cancelled: bool, w': Work, l': Live)
    requires Ready(cfg) && ListsGood(cfg, w, l) && (e.FetchOk? ==> Fetchable(cfg, e.list))
    requires WorkStep(w, e, spawn, cancelled, w') && LiveStep(l, w, e, l')
    ensures ListsGood(cfg, w', l')
  {
    forall t | t in w'.threads && w'.threads[t].phase.Storing?
      ensures Fetchable(cfg, w'.threads[t].phase.list)
    {
    }
    if e.Store? {
      FetchableNonEmpty(cfg);
    }
  }

  ghost predicate TriggersSpaced(tr: Triggers, gap: int, now: Time) {
    && (tr.last == if |tr.stamps| == 0 then None else Some(tr.stamps[|tr.stamps| - 1]))
    && (forall i :: 0 <= i < |tr.stamps| ==> tr.stamps[i] <= now)
    && (forall i, j :: 0 <= i < j < |tr.stamps| ==> tr.stamps[j] - tr.stamps[i] >= gap)
  }

  lemma TriggersStep(s: State, e: Event, s': State)
    requires Next(s, e, s') && TriggersSpaced(s.trig, s.cfg.refreshMinGap, s.now)
    requires s.cfg.refreshMinGap > 0
    ensures TriggersSpaced(s'.trig, s'.cfg.refreshMinGap, s'.now)
  {
  }

  predicate ClosingInOrder(s: State) {
    && (s.gate.cancelled ==> s.gate.closed)
    && (s.gate.closeReturned ==> s.gate.closed && s.work.threads == map[])
    && (!s.hasFetch ==> s.work.threads == map[] && s.trig.undecided == 0)
  }

  /** After Close has marked the pool closed no goroutine is added to the WaitGroup. */
  lemma NoSpawnOnceClosed(s: State, e: Event, s': State)
    requires Next(s, e, s') && s.gate.closed
    ensures s'.gate.closed
    ensures s'.work.threads.Keys <= s.work.threads.Keys && s'.work.wg <= s.work.wg
  {
    assert !Spawns(s, e);
  }

  lemma ClosingStep(s: State, e: Event, s': State)
    requires Next(s, e, s') && ClosingInOrder(s) && s.work.wg == |s.work.threads|
    ensures ClosingInOrder(s')
  {
    if s.gate.closed {
      NoSpawnOnceClosed(s, e, s');
    }
  }

  ghost predicate Inv(s: State) {
    && Ready(s.cfg)
    && FlightsMatch(s.work) && s.work.wg == |s.work.threads|
    && CountersMatch(s.work, s.live) && ListsGood(s.cfg, s.work, s.live)
    && TriggersSpaced(s.trig, s.cfg.refreshMinGap, s.now) && ClosingInOrder(s)
  }

  lemma InvInitial(s: State)
    requires Initial(s)
    ensures Inv(s)
  {
  }

  lemma InvStep(s: State, e: Event, s': State)
    requires Inv(s) && Next(s, e, s')
    ensures Inv(s')
  {
    var spawn, cancelled := Spawns(s, e), s.gate.cancelled;
    FlightsStep(s.work, e, spawn, cancelled, s'.work);
    WaitGroupStep(s.work, e, spawn, cancelled, s'.work);
    CountersStep(s.work, s.live, e, spawn, cancelled, s'.work, s'.live);
    ListsStep(s.cfg, s.work, s.live, e, spawn, cancelled, s'.work, s'.live);
    TriggersStep(s, e, s');
    ClosingStep(s, e, s');
  }

  lemma {:induction false} RunInv(states: seq<State>, events: seq<Event>, i: nat)
    requires Run(states, events) && i < |states|
    ensures Inv(states[i])
  {
    if i == 0 {
      InvInitial(states[0]);
    } else {
      RunInv(states, events, i - 1);
      InvStep(states[i - 1], events[i - 1], states[i]);
    }
  }

  // ---- Main results over every interleaving ----

  predicate IsFetching(s: State, t: Tid) {
    At(s.work, t, Fetching)
  }

  /** At most one credential fetch is in flight. */
  lemma AtMostOneFetch(states: seq<State>, events: seq<Event>, i: nat, t: Tid, u: Tid)
    requires Run(states, events) && i < |states| && IsFetching(states[i], t) && IsFetching(states[i], u)
    ensures t == u
  {
    RunInv(states, events, i);
    var w := states[i].work;
    assert Inside(w, t) && Inside(w, u);
    OneLeader(w.flights, KEY, t, u);
  }

  /** The WaitGroup count is the number of live refreshers; every returned fetch is a success, a
      failure or the one still being counted. */
  lemma Balanced(states: seq<State>, events: seq<Event>, i: nat)
    requires Run(states, events) && i < |states|
    ensures states[i].work.wg == |states[i].work.threads| >= 0
    ensures var l := states[i].live; l.ok + l.errs <= l.completed <= l.ok + l.errs + 1
    ensures var l := states[i].live; l.completed <= l.started <= l.completed + 1
    ensures states[i].work.flights == map[] ==>
              states[i].live.completed == states[i].live.ok + states[i].live.errs == states[i].live.started
  {
    RunInv(states, events, i);
  }

  /** Any two refreshes that 407 reports trigger are triggered at least refreshMinGap apart. */
  lemma TriggersApart(states: seq<State>, events: seq<Event>, i: nat, j: nat, k: nat)
    requires Run(states, events) && i < |states| && j < k < |states[i].trig.stamps|
    ensures states[i].trig.stamps[k] - states[i].trig.stamps[j] >= states[i].cfg.refreshMinGap > 0
  {
    RunInv(states, events, i);
  }

  /** A report decided now starts a refresh exactly when the pool is open and every trigger stored so far
      is at least refreshMinGap old, and exactly then its instant joins them. */
  lemma TriggeredExactly(states: seq<State>, events: seq<Event>, i: nat)
    requires Run(states, events) && i < |events| && events[i].Decide?
    requires states[i].cfg.refreshMinGap <= MAX_DURATION
    ensures var stamps, e := states[i].trig.stamps, events[i];
            var due := !states[i].gate.closed
                       && forall k :: 0 <= k < |stamps| ==> e.read - stamps[k] >= states[i].cfg.refreshMinGap;
            && (e.t in states[i + 1].work.threads <==> due)
            && states[i + 1].trig.stamps == if due then stamps + [e.stored] else stamps
  {
    RunInv(states, events, i);
    assert Next(states[i], events[i], states[i + 1]);
    var stamps := states[i].trig.stamps;
    assert |stamps| > 0 ==> forall k :: 0 <= k < |stamps| ==> stamps[k] <= stamps[|stamps| - 1];
  }

  /** The periodic loop goes on until the context is cancelled, and it is the only one of its kind. */
  lemma {:induction false} LoopLives(states: seq<State>, events: seq<Event>, i: nat)
    requires Run(states, events) && i < |states|
    ensures forall t :: t in states[i].work.threads && states[i].work.threads[t].periodic ==> t == 0
    ensures states[i].hasFetch == states[0].hasFetch && states[i].cfg == states[0].cfg
    ensures states[i].hasFetch && states[i].cfg.refreshInterval > 0 && !states[i].gate.cancelled ==>
              0 in states[i].work.threads && states[i].work.threads[0].periodic
  {
    if i > 0 {
      LoopLives(states, events, i - 1);
      assert Next(states[i - 1], events[i - 1], states[i]);
    }
  }

  /** The live list is never empty, and only the goroutine inside the slot replaces it, by the list
      a successful fetch returned. */
  lemma ListChangesOnSuccess(states: seq<State>, events: seq<Event>, i: nat)
    requires Run(states, events) && i < |events|
    ensures |states[i].live.proxies| > 0
    ensures states[i + 1].live.proxies != states[i].live.proxies ==>
              && events[i].Store? && Inside(states[i].work, events[i].t)
              && states[i].work.threads[events[i].t].phase == Storing(states[i + 1].live.proxies)
              && Fetchable(states[i].cfg, states[i + 1].live.proxies)
  {
    RunInv(states, events, i);
  }

  /** A refresh that finds another in flight joins it: it starts no fetch, and it returns with it. */
  lemma JoinsFlight(states: seq<State>, events: seq<Event>, i: nat)
    requires Run(states, events) && i < |events|
    ensures events[i].Call? && KEY in states[i].work.flights ==>
              states[i + 1].live.started == states[i].live.started && Waiting(states[i + 1].work, events[i].t)
    ensures events[i].Release? ==>
              forall u :: Waiting(states[i].work, u) ==> At(states[i + 1].work, u, Returned)
  {
    RunInv(states, events, i);
  }

  /** A reading of the events alone: reports, the list last fetched and the one last stored, stores, failed
      fetches, and the last stamp. */
  datatype Tally = Tally(
    reports: nat,
    fetched: seq<string>,
    list: seq<string>,
    stores: nat,
    failures: nat,
    stamped: Option<Time>)

  function TallyOf(first: seq<string>, events: seq<Event>): Tally {
    if |events| == 0 then Tally(0, [], first, 0, 0, None)
    else
      var y := TallyOf(first, events[..|events| - 1]);
      match events[|events| - 1]
      case Report => y.(reports := y.reports + 1)
      case FetchOk(_, list) => y.(fetched := list)
      case Store(_) => y.(list := y.fetched, stores := y.stores + 1)
      case FetchErr(_) => y.(failures := y.failures + 1)
      case Stamp(_, at) => y.(stamped := Some(at))
      case _ => y
  }

  /** The shared state is what the events tell, but for what the leader has yet to count. */
  ghost predicate Told(y: Tally, s: State) {
    var p := LeaderPhase(s.work);
    && s.trig.authFailures == y.reports && s.live.proxies == y.list && s.live.lastRefresh == y.stamped
    && (p.Some? && p.value.Storing? ==> p.value.list == y.fetched)
    && y.stores == s.live.ok + (if p == Some(CountingOk) then 1 else 0)
    && y.failures == s.live.errs + (if p == Some(CountingFail) then 1 else 0)
  }

  lemma ToldNext(first: seq<string>, told: seq<Event>, s: State, e: Event, s': State)
    requires Inv(s) && Next(s, e, s') && Told(TallyOf(first, told), s)
    ensures Told(TallyOf(first, told + [e]), s')
  {
    assert (told + [e])[..|told|] == told;
    if e.Call? {
      if KEY in s.work.flights {
        LeaderIsInside(s.work);
        assert s.work.flights[KEY].leader != e.t;
      }
    } else if e.Release? {
      assert Inside(s.work, e.t);
      InsideIsLeader(s.work, e.t);
    } else {
      LeaderMoves(s.work, e, Spawns(s, e), s.gate.cancelled, s'.work);
    }
  }

  /** In every interleaving the live list is the one last stored of those fetched, and the counters and
      the time of the last refresh are what the events alone add up to. */
  lemma {:induction false} ToldInRuns(states: seq<State>, events: seq<Event>, i: nat)
    requires Run(states, events) && i < |states|
    ensures Told(TallyOf(states[0].live.proxies, events[..i]), states[i])
  {
    if i > 0 {
      ToldInRuns(states, events, i - 1);
      RunInv(states, events, i - 1);
      assert events[..i] == events[..i - 1] + [events[i - 1]];
      ToldNext(states[0].live.proxies, events[..i - 1], states[i - 1], events[i - 1], states[i]);
    }
  }

  lemma ClosedStep(s: State, e: Event, s': State)
    requires Inv(s) && Next(s, e, s') && s.gate.closeReturned
    ensures s'.gate.closeReturned && s'.work.threads == map[] && s'.live == s.live
  {
    InvStep(s, e, s');
  }

  /** Once the first Close has returned no fetch is running, none ever starts again, and the list
      and the refresh counters stay as they are. */
  lemma {:induction false} QuiescentAfterClose(states: seq<State>, events: seq<Event>, i: nat, j: nat)
    requires Run(states, events) && i <= j < |states| && states[i].gate.closeReturned
    ensures states[j].gate.closeReturned && states[j].work.threads == map[] && states[j].live == states[i].live
  {
    if i == j {
      RunInv(states, events, i);
    } else {
      QuiescentAfterClose(states, events, i, j - 1);
      RunInv(states, events, j - 1);
      ClosedStep(states[j - 1], events[j - 1], states[j]);
    }
  }

  /** The loop's first refresh reaches its fetch. */
  lemma FetchReached(s: State) returns (awake: State, fetching: State)
    requires Initial(s) && s.hasFetch && s.cfg.refreshInterval > 0
    ensures Next(s, Wake(0), awake) && Next(awake, Call(0), fetching)
    ensures IsFetching(fetching, 0) && fetching.gate == s.gate
  {
    awake := s.(work := Moved(s.work, 0, Calling));
    fetching := awake.(work := Moved(awake.work, 0, Fetching).(flights := Enter(map[], KEY, 0)),
                       live := awake.live.(started := 1));
    assert Next(s, Wake(0), awake);
    assert Next(awake, Call(0), fetching);
  }

  /** Both Close calls may come while t is fetching. */
  lemma ClosedTwice(s: State, t: Tid) returns (closed: State)
    requires IsFetching(s, t) && s.gate == Gate(false, false, false) && s.hasFetch
    ensures Next(s, CloseFirst, closed) && Next(closed, CloseAgain, closed) && IsFetching(closed, t)
  {
    closed := s.(gate := Gate(true, false, false));
  }

  /** The guarantee is the first Close's alone: a second one returns while a fetch is running. */
  lemma SecondCloseReturnsEarly(s: State) returns (states: seq<State>, events: seq<Event>)
    requires Initial(s) && s.hasFetch && s.cfg.refreshInterval > 0
    ensures |events| == 4 && Run(states, events) && states[0] == s
    ensures events[3] == CloseAgain && IsFetching(states[4], 0)
  {
    var awake, fetching := FetchReached(s);
    var closed := ClosedTwice(fetching, 0);
    events := [Wake(0), Call(0), CloseFirst, CloseAgain];
    states := [s, awake, fetching, closed, closed];
  }
}

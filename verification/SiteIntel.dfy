/** The per-domain technology cache (site_intel.go): concurrent Gets with a time-to-live check, a
    singleflight per domain and a second check inside it, as interleaved steps. */
module SiteIntel {
  import opened Prelude
  import opened Clock
  import opened SingleFlight

  type Domain = Key

  datatype Info = Info(technologies: seq<string>, fetchedAt: Time)

  /** What a call of Get hands back; an analysis that failed gives no information. */
  datatype Answer = Found(info: Info) | Failed

  /** Where a call stands. Checking to Landing is the inside of the singleflight function. */
  datatype Phase =
    | Looking
    | Entering
    | Joined
    | Checking
    | Analyzing
    | Storing(info: Info)
    | Landing(answer: Answer)
    | Returned(answer: Answer)
  {
    predicate Leading() {
      Checking? || Analyzing? || Storing? || Landing?
    }
  }

  datatype Thread = Thread(domain: Domain, phase: Phase)

  datatype Work = Work(threads: map<Tid, Thread>, flights: Group)

  /** stored lists, by domain, everything ever put in the cache, for the specification. */
  datatype Cache = Cache(entries: map<Domain, Info>, stored: map<Domain, seq<Info>>)

  datatype State = State(ttl: Duration, work: Work, cache: Cache, now: Time)

  datatype Event =
    | Begin(t: Tid, domain: Domain)
    | Look(t: Tid, read: Instant)
    | Call(t: Tid)
    | Check(t: Tid, read: Instant)
    | AnalyzeOk(t: Tid, technologies: seq<string>, at: Instant)
    | AnalyzeErr(t: Tid)
    | Put(t: Tid)
    | Release(t: Tid)
    | Return(t: Tid)

  /** The cache holds an entry for d younger than ttl. */
  predicate Fresh(c: Cache, d: Domain, ttl: Duration, now: Time) {
    d in c.entries && Sub(now, c.entries[d].fetchedAt) < ttl
  }

  function StoredFor(c: Cache, d: Domain): seq<Info> {
    if d in c.stored then c.stored[d] else []
  }

  function WithPut(c: Cache, k: Domain, info: Info): Cache {
    Cache(c.entries[k := info], c.stored[k := StoredFor(c, k) + [info]])
  }

  function Moved(w: Work, t: Tid, p: Phase): Work
    requires t in w.threads
  {
    w.(threads := w.threads[t := w.threads[t].(phase := p)])
  }

  function Released(w: Work, t: Tid): map<Tid, Thread>
    requires t in w.threads && w.threads[t].phase.Landing?
  {
    map u | u in w.threads ::
      if u == t || Joins(w.flights, w.threads[t].domain, u)
      then w.threads[u].(phase := Returned(w.threads[t].phase.answer)) else w.threads[u]
  }

  ghost predicate WorkStep(w: Work, c: Cache, ttl: Duration, e: Event, w': Work) {
    match e
    case Begin(t, d) => t !in w.threads && w' == w.(threads := w.threads[t := Thread(d, Looking)])
    case Look(t, read) =>
      && t in w.threads && w.threads[t].phase.Looking?
      && var d := w.threads[t].domain;
         w' == Moved(w, t, if Fresh(c, d, ttl, read) then Returned(Found(c.entries[d])) else Entering)
    case Call(t) =>
      && t in w.threads && w.threads[t].phase.Entering?
      && var d := w.threads[t].domain;
         w' == Moved(w, t, if d in w.flights then Joined else Checking).(flights := Enter(w.flights, d, t))
    case Check(t, read) =>
      && t in w.threads && w.threads[t].phase.Checking?
      && var d := w.threads[t].domain;
         w' == Moved(w, t, if Fresh(c, d, ttl, read) then Landing(Found(c.entries[d])) else Analyzing)
    case AnalyzeOk(t, technologies, at) =>
      && t in w.threads && w.threads[t].phase.Analyzing?
      && w' == Moved(w, t, Storing(Info(technologies, at)))
    case AnalyzeErr(t) =>
      t in w.threads && w.threads[t].phase.Analyzing? && w' == Moved(w, t, Landing(Failed))
    case Put(t) =>
      && t in w.threads && w.threads[t].phase.Storing?
      && w' == Moved(w, t, Landing(Found(w.threads[t].phase.info)))
    case Release(t) =>
      && t in w.threads && w.threads[t].phase.Landing?
      && w' == Work(Released(w, t), Land(w.flights, w.threads[t].domain))
    case Return(t) =>
      t in w.threads && w.threads[t].phase.Returned? && w' == w.(threads := w.threads - {t})
  }

  ghost predicate CacheStep(c: Cache, w: Work, e: Event, c': Cache) {
    match e
    case Put(t) =>
      && t in w.threads && w.threads[t].phase.Storing?
      && var d, info := w.threads[t].domain, w.threads[t].phase.info;
         c' == WithPut(c, d, info)
    case _ => c' == c
  }

  predicate TimeStep(now: Time, e: Event, now': Time) {
    match e
    case Look(_, read) => now <= read && now' == read
    case Check(_, read) => now <= read && now' == read
    case AnalyzeOk(_, _, at) => now <= at && now' == at
    case _ => now' == now
  }

  ghost predicate Next(s: State, e: Event, s': State) {
    && s'.ttl == s.ttl
    && WorkStep(s.work, s.cache, s.ttl, e, s'.work)
    && CacheStep(s.cache, s.work, e, s'.cache)
    && TimeStep(s.now, e, s'.now)
  }

  ghost predicate Initial(s: State) {
    s.ttl > 0 && s.work == Work(map[], map[]) && s.cache == Cache(map[], map[])
  }

  ghost predicate Run(states: seq<State>, events: seq<Event>) {
    && |states| == |events| + 1 && Initial(states[0])
    && forall i :: 0 <= i < |events| ==> Next(states[i], events[i], states[i + 1])
  }

  // ---- The slots ----

  predicate Inside(w: Work, d: Domain, t: Tid) {
    t in w.threads && w.threads[t].domain == d && w.threads[t].phase.Leading()
  }

  predicate Waiting(w: Work, d: Domain, t: Tid) {
    t in w.threads && w.threads[t].domain == d && w.threads[t].phase.Joined?
  }

  /** Each domain's slot knows exactly who is inside it and who waits for it. */
  ghost predicate FlightsMatch(w: Work) {
    && (forall d, t :: Leads(w.flights, d, t) <==> Inside(w, d, t))
    && (forall d, t :: Joins(w.flights, d, t) <==> Waiting(w, d, t))
  }

  lemma CallFlights(w: Work, c: Cache, ttl: Duration, t: Tid, w': Work)
    requires FlightsMatch(w) && WorkStep(w, c, ttl, Call(t), w')
    ensures FlightsMatch(w')
  {
    forall d, u
      ensures Leads(w'.flights, d, u) <==> Inside(w', d, u)
      ensures Joins(w'.flights, d, u) <==> Waiting(w', d, u)
    {
      EnterEffect(w.flights, w.threads[t].domain, t, d, u);
    }
  }

  lemma ReleaseFlights(w: Work, c: Cache, ttl: Duration, t: Tid, w': Work)
    requires FlightsMatch(w) && WorkStep(w, c, ttl, Release(t), w')
    ensures FlightsMatch(w')
  {
    var k := w.threads[t].domain;
    forall d, u
      ensures Leads(w'.flights, d, u) <==> Inside(w', d, u)
      ensures Joins(w'.flights, d, u) <==> Waiting(w', d, u)
    {
      LandEffect(w.flights, k, d, u);
      assert Inside(w, k, t);
      assert Joins(w.flights, k, u) <==> Waiting(w, k, u);
      if Inside(w, k, u) {
        OneLeader(w.flights, k, t, u);
      }
    }
  }

  lemma OtherFlights(w: Work, c: Cache, ttl: Duration, e: Event, w': Work)
    requires WorkStep(w, c, ttl, e, w') && !e.Call? && !e.Release?
    ensures w'.flights == w.flights
    ensures forall d, u :: Inside(w', d, u) == Inside(w, d, u) && Waiting(w', d, u) == Waiting(w, d, u)
  {
  }

  lemma FlightsStep(w: Work, c: Cache, ttl: Duration, e: Event, w': Work)
    requires FlightsMatch(w) && WorkStep(w, c, ttl, e, w')
    ensures FlightsMatch(w')
  {
    if e.Call? {
      CallFlights(w, c, ttl, e.t, w');
    } else if e.Release? {
      ReleaseFlights(w, c, ttl, e.t, w');
    } else {
      OtherFlights(w, c, ttl, e, w');
    }
  }

  // ---- The cache ----

  predicate Apart(s: seq<Info>, ttl: Duration) {
    forall i, j :: 0 <= i < j < |s| ==> s[j].fetchedAt - s[i].fetchedAt >= ttl
  }

  /** The entry of a domain is the last thing stored for it, and what is stored is ttl apart. */
  predicate DomainGood(c: Cache, d: Domain, ttl: Duration, now: Time) {
    var s := StoredFor(c, d);
    && (d in c.entries <==> |s| > 0)
    && (d in c.entries ==> c.entries[d] == s[|s| - 1])
    && (forall i :: 0 <= i < |s| ==> s[i].fetchedAt <= now)
    && Apart(s, ttl)
  }

  ghost predicate CacheGood(c: Cache, ttl: Duration, now: Time) {
    forall d :: DomainGood(c, d, ttl, now)
  }

  /** The entry of d, if any, is at least ttl older than this instant. */
  predicate Stale(c: Cache, d: Domain, ttl: Duration, at: Time) {
    d in c.entries ==> at - c.entries[d].fetchedAt >= ttl
  }

  /** A call that analyses or has analysed its domain found the entry missing or stale. */
  ghost predicate AnalysesStale(w: Work, c: Cache, ttl: Duration, now: Time) {
    && (forall t :: t in w.threads && w.threads[t].phase.Analyzing? ==> Stale(c, w.threads[t].domain, ttl, now))
    && (forall t :: t in w.threads && w.threads[t].phase.Storing? ==>
          && w.threads[t].phase.info.fetchedAt <= now
          && Stale(c, w.threads[t].domain, ttl, w.threads[t].phase.info.fetchedAt))
  }

  /** An answer names something that was stored for the call's own domain. */
  predicate Answered(c: Cache, d: Domain, a: Answer) {
    a.Found? ==> a.info in StoredFor(c, d)
  }

  ghost predicate AnswersGood(w: Work, c: Cache) {
    forall t :: t in w.threads && (w.threads[t].phase.Landing? || w.threads[t].phase.Returned?) ==>
      Answered(c, w.threads[t].domain, w.threads[t].phase.answer)
  }

  ghost predicate Inv(s: State) {
    && s.ttl > 0
    && FlightsMatch(s.work) && CacheGood(s.cache, s.ttl, s.now)
    && AnalysesStale(s.work, s.cache, s.ttl, s.now) && AnswersGood(s.work, s.cache)
  }

  lemma CacheGoodStep(s: State, e: Event, s': State)
    requires Inv(s) && Next(s, e, s')
    ensures CacheGood(s'.cache, s'.ttl, s'.now)
  {
    forall d
      ensures DomainGood(s'.cache, d, s'.ttl, s'.now)
    {
      assert DomainGood(s.cache, d, s.ttl, s.now);
    }
  }

  lemma AnalysesStaleStep(s: State, e: Event, s': State)
    requires Inv(s) && Next(s, e, s')
    ensures AnalysesStale(s'.work, s'.cache, s'.ttl, s'.now)
  {
    if e.Put? {
      forall t | t in s'.work.threads && (s'.work.threads[t].phase.Analyzing? || s'.work.threads[t].phase.Storing?)
        ensures s'.work.threads[t].domain != s.work.threads[e.t].domain
      {
        var d := s.work.threads[e.t].domain;
        assert Inside(s.work, d, e.t);
        if s.work.threads[t].domain == d {
          assert Inside(s.work, d, t);
          OneLeader(s.work.flights, d, t, e.t);
        }
      }
    }
  }

  lemma AnswersStep(s: State, e: Event, s': State)
    requires Inv(s) && Next(s, e, s')
    ensures AnswersGood(s'.work, s'.cache)
  {
    if e.Look? || e.Check? {
      assert DomainGood(s.cache, s.work.threads[e.t].domain, s.ttl, s.now);
    }
  }

  lemma InvStep(s: State, e: Event, s': State)
    requires Inv(s) && Next(s, e, s')
    ensures Inv(s')
  {
    FlightsStep(s.work, s.cache, s.ttl, e, s'.work);
    CacheGoodStep(s, e, s');
    AnalysesStaleStep(s, e, s');
    AnswersStep(s, e, s');
  }

  lemma {:induction false} RunInv(states: seq<State>, events: seq<Event>, i: nat)
    requires Run(states, events) && i < |states|
    ensures Inv(states[i])
  {
    if i > 0 {
      RunInv(states, events, i - 1);
      InvStep(states[i - 1], events[i - 1], states[i]);
    }
  }

  // ---- Main results over every interleaving ----

  predicate IsAnalyzing(s: State, d: Domain, t: Tid) {
    t in s.work.threads && s.work.threads[t] == Thread(d, Analyzing)
  }

  /** At most one analysis per domain runs at a time. */
  lemma OneAnalysisPerDomain(states: seq<State>, events: seq<Event>, i: nat, d: Domain, t: Tid, u: Tid)
    requires Run(states, events) && i < |states|
    requires IsAnalyzing(states[i], d, t) && IsAnalyzing(states[i], d, u)
    ensures t == u
  {
    RunInv(states, events, i);
    var w := states[i].work;
    assert Inside(w, d, t) && Inside(w, d, u);
    OneLeader(w.flights, d, t, u);
  }

  /** From the moment an analysis starts until it ends its domain has no fresh entry. */
  lemma AnalyzedOnlyWhenStale(states: seq<State>, events: seq<Event>, i: nat, d: Domain, t: Tid)
    requires Run(states, events) && i < |states| && IsAnalyzing(states[i], d, t)
    ensures !Fresh(states[i].cache, d, states[i].ttl, states[i].now)
  {
    RunInv(states, events, i);
  }

  /** Storing a result never overwrites a fresh entry. */
  lemma FreshNeverOverwritten(states: seq<State>, events: seq<Event>, i: nat)
    requires Run(states, events) && i < |events| && events[i].Put?
    ensures events[i].t in states[i].work.threads
    ensures !Fresh(states[i].cache, states[i].work.threads[events[i].t].domain, states[i].ttl, states[i].now)
  {
    RunInv(states, events, i);
    assert Next(states[i], events[i], states[i + 1]);
  }

  /** Any two successful analyses of a domain are at least ttl apart. */
  lemma SuccessesApart(states: seq<State>, events: seq<Event>, i: nat, d: Domain, j: nat, k: nat)
    requires Run(states, events) && i < |states| && j < k < |StoredFor(states[i].cache, d)|
    ensures var s := StoredFor(states[i].cache, d); s[k].fetchedAt - s[j].fetchedAt >= states[i].ttl > 0
  {
    RunInv(states, events, i);
    assert DomainGood(states[i].cache, d, states[i].ttl, states[i].now);
  }

  /** Every call that joined a flight returns with its leader's answer; calls for other domains and
      calls that did not join are not affected. */
  lemma JoinersShare(states: seq<State>, events: seq<Event>, i: nat, u: Tid)
    requires Run(states, events) && i < |events| && events[i].Release? && u in states[i].work.threads
    ensures var w, w', t := states[i].work, states[i + 1].work, events[i].t;
            && t in w.threads && w.threads[t].phase.Landing? && u in w'.threads
            && var leader := w.threads[t];
               w'.threads[u] == if u == t || Waiting(w, leader.domain, u)
                                then Thread(leader.domain, Returned(leader.phase.answer)) else w.threads[u]
  {
    RunInv(states, events, i);
    assert Next(states[i], events[i], states[i + 1]);
    var d := states[i].work.threads[events[i].t].domain;
    assert Joins(states[i].work.flights, d, u) <==> Waiting(states[i].work, d, u);
  }

  /** Whatever information a call returns was stored in the cache for the domain it asked about. */
  lemma AnswersOwnDomain(states: seq<State>, events: seq<Event>, i: nat, t: Tid)
    requires Run(states, events) && i < |states| && t in states[i].work.threads
    requires states[i].work.threads[t].phase.Returned? && states[i].work.threads[t].phase.answer.Found?
    ensures states[i].work.threads[t].phase.answer.info in StoredFor(states[i].cache, states[i].work.threads[t].domain)
  {
    RunInv(states, events, i);
  }

  /** What was stored last for d, if it was younger than ttl when read. */
  function YoungFor(c: Cache, d: Domain, ttl: Duration, read: Instant): Option<Info> {
    var s := StoredFor(c, d);
    if |s| > 0 && read - s[|s| - 1].fetchedAt < ttl then Some(s[|s| - 1]) else None
  }

  /** The first look of a call ends it exactly with what was stored last for its domain, if that is
      younger than ttl; the second look spares the analysis exactly then. */
  lemma LooksExactly(states: seq<State>, events: seq<Event>, i: nat)
    requires Run(states, events) && i < |events| && (events[i].Look? || events[i].Check?)
    ensures events[i].t in states[i].work.threads && events[i].t in states[i + 1].work.threads
    ensures var e, s := events[i], states[i];
            var d := s.work.threads[e.t].domain;
            states[i + 1].work.threads[e.t] == Thread(d,
              match YoungFor(s.cache, d, s.ttl, e.read)
              case Some(info) => if e.Look? then Returned(Found(info)) else Landing(Found(info))
              case None => if e.Look? then Entering else Analyzing)
  {
    RunInv(states, events, i);
    assert Next(states[i], events[i], states[i + 1]);
    assert DomainGood(states[i].cache, states[i].work.threads[events[i].t].domain, states[i].ttl, states[i].now);
  }

  /** This event settles its call's answer: a second look that finds it young, or the analysis. */
  predicate Settles(ttl: Duration, e: Event, a: Answer) {
    match e
    case Check(_, read) => a.Found? && read - a.info.fetchedAt < ttl
    case AnalyzeOk(_, technologies, at) => a == Found(Info(technologies, at))
    case AnalyzeErr(_) => a == Failed
    case _ => false
  }

  /** So did one of the first i events, of t's call that is still up. */
  ghost predicate Settled(events: seq<Event>, i: nat, t: Tid, ttl: Duration, a: Answer) {
    exists j :: 0 <= j < i <= |events| && events[j].t == t && Settles(ttl, events[j], a)
                && forall k :: j < k < i ==> !(events[k].Begin? && events[k].t == t)
  }

  lemma StaysSettled(events: seq<Event>, i: nat, t: Tid, ttl: Duration, a: Answer)
    ensures Settled(events, i, t, ttl, a) && i < |events| && !(events[i].Begin? && events[i].t == t) ==>
              Settled(events, i + 1, t, ttl, a)
  {
  }

  /** The answer a phase of t stands for, once there is one. */
  function AnswerOf(p: Phase): Option<Answer> {
    match p
    case Storing(info) => Some(Found(info))
    case Landing(answer) => Some(answer)
    case _ => None
  }

  lemma AnswerFrom(s: State, e: Event, s': State, t: Tid)
    requires Inv(s) && Next(s, e, s') && t in s'.work.threads && AnswerOf(s'.work.threads[t].phase).Some?
    ensures || (e.t == t && Settles(s.ttl, e, AnswerOf(s'.work.threads[t].phase).value))
            || (t in s.work.threads && !(e.Begin? && e.t == t)
                && AnswerOf(s.work.threads[t].phase) == AnswerOf(s'.work.threads[t].phase))
  {
    if e.Check? {
      assert DomainGood(s.cache, s.work.threads[e.t].domain, s.ttl, s.now);
    }
  }

  /** In every interleaving a leader hands on what its own second look found young, what its own analysis
      gave, or, if that failed, nothing. */
  lemma {:induction false} AnswerSettled(states: seq<State>, events: seq<Event>, i: nat, t: Tid)
    requires Run(states, events) && i < |states| && t in states[i].work.threads
    ensures var a := AnswerOf(states[i].work.threads[t].phase);
            a.Some? ==> Settled(events, i, t, states[i].ttl, a.value)
  {
    if i > 0 {
      var s, e, s' := states[i - 1], events[i - 1], states[i];
      var a := AnswerOf(s'.work.threads[t].phase);
      RunInv(states, events, i - 1);
      if a.Some? {
        AnswerFrom(s, e, s', t);
        if !(e.t == t && Settles(s.ttl, e, a.value)) {
          AnswerSettled(states, events, i - 1, t);
          StaysSettled(events, i - 1, t, s.ttl, a.value);
        }
      }
    }
  }

  // ---- Naming the firewall ----

  const KNOWN_WAFS: seq<string> :=
    ["Cloudflare", "Akamai", "Sucuri", "Imperva", "AWS WAF", "Fastly", "StackPath", "Barracuda", "F5 BIG-IP"]

  /** Equal under a given case folding. */
  predicate Same(fold: string -> string, a: string, b: string) {
    fold(a) == fold(b)
  }

  ghost predicate NoWaf(fold: string -> string, technology: string) {
    forall k :: 0 <= k < |KNOWN_WAFS| ==> !Same(fold, technology, KNOWN_WAFS[k])
  }

  /** Technology i is the earliest recognised one, and the k-th known name the first it matches. */
  ghost predicate FirstWaf(fold: string -> string, technologies: seq<string>, i: nat, k: nat) {
    && i < |technologies| && k < |KNOWN_WAFS| && Same(fold, technologies[i], KNOWN_WAFS[k])
    && (forall j :: 0 <= j < i ==> NoWaf(fold, technologies[j]))
    && (forall j :: 0 <= j < k ==> !Same(fold, technologies[i], KNOWN_WAFS[j]))
  }

  /** The WAF field of a new entry: the first known name the earliest recognised technology matches,
      or "". */
  method DetectWaf(fold: string -> string, technologies: seq<string>) returns (waf: string)
    ensures waf == "" <==> forall i :: 0 <= i < |technologies| ==> NoWaf(fold, technologies[i])
    ensures waf != "" ==> exists i: nat, k: nat :: FirstWaf(fold, technologies, i, k) && waf == KNOWN_WAFS[k]
  {
    waf := "";
    for i := 0 to |technologies|
      invariant waf == "" && forall j :: 0 <= j < i ==> NoWaf(fold, technologies[j])
    {
      for k := 0 to |KNOWN_WAFS|
        invariant waf == "" && forall j :: 0 <= j < k ==> !Same(fold, technologies[i], KNOWN_WAFS[j])
      {
        if Same(fold, technologies[i], KNOWN_WAFS[k]) {
          assert FirstWaf(fold, technologies, i, k);
          waf := KNOWN_WAFS[k];
          return;
        }
      }
    }
  }
}

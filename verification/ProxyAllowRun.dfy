/** What the proxy allowance remembers over whole histories, and under any interleaving of the
    two-phase apply calls (proxy_allow.go). */
module ProxyAllowRun {
  import opened Prelude
  import opened Sequences
  import opened ProxyAllow

  /** A URL is remembered as the newest, or forgotten after a rejected first switch. */
  datatype Change = Used(url: Url) | Dropped(url: Url)

  /** The remembered order after a history that starts with nothing remembered. */
  function Order(h: seq<Change>): seq<Url> {
    if |h| == 0 then []
    else
      match h[|h| - 1]
      case Used(u) => AfterUse(Order(h[..|h| - 1]), u)
      case Dropped(u) => Without(Order(h[..|h| - 1]), u)
  }

  /** The same without a bound: every URL in use, by last use. */
  function Recency(h: seq<Change>): seq<Url> {
    if |h| == 0 then []
    else
      match h[|h| - 1]
      case Used(u) => Without(Recency(h[..|h| - 1]), u) + [u]
      case Dropped(u) => Without(Recency(h[..|h| - 1]), u)
  }

  /** The other URLs used since u was last used. */
  function Since(h: seq<Change>, u: Url): set<Url> {
    if |h| == 0 then {}
    else
      var before := Since(h[..|h| - 1], u);
      match h[|h| - 1]
      case Used(v) => if v == u then {} else before + {v}
      case Dropped(_) => before
  }

  /** s is r from some index on. */
  ghost predicate SuffixOf(s: seq<Url>, r: seq<Url>) {
    |s| <= |r| && s == r[|r| - |s|..]
  }

  lemma SuffixConcat(s: seq<Url>, r: seq<Url>, t: seq<Url>)
    requires SuffixOf(s, r)
    ensures SuffixOf(s + t, r + t)
  {
  }

  lemma NewestSuffix(s: seq<Url>, r: seq<Url>)
    requires SuffixOf(s, r)
    ensures SuffixOf(Newest(s), r)
  {
  }

  lemma IndexUnique(s: seq<Url>, u: Url, k: nat)
    requires Distinct(s) && k < |s| && s[k] == u
    ensures u in s && IndexOf(s, u) == k
  {
  }

  lemma WithoutAt(s: seq<Url>, u: Url, k: nat)
    requires Distinct(s) && k < |s| && s[k] == u
    ensures Without(s, u) == s[..k] + s[k + 1..]
  {
    IndexUnique(s, u, k);
  }

  lemma SuffixDistinct(s: seq<Url>, r: seq<Url>, k: nat)
    requires SuffixOf(s, r) && Distinct(r) && k < |r|
    ensures Distinct(s)
    ensures k < |r| - |s| ==> r[k] !in s
    ensures k >= |r| - |s| ==> s[k - (|r| - |s|)] == r[k]
  {
  }

  /** Cutting the same entry out of a list and a suffix of it leaves a suffix. */
  lemma CutInside(s: seq<Url>, r: seq<Url>, k: nat)
    requires SuffixOf(s, r) && |r| - |s| <= k < |r|
    ensures var d := |r| - |s|; SuffixOf(s[..k - d] + s[k - d + 1..], r[..k] + r[k + 1..])
  {
    var d := |r| - |s|;
    assert s[..k - d] == r[..k][d..] && s[k - d + 1..] == r[k + 1..];
  }

  lemma CutBefore(s: seq<Url>, r: seq<Url>, k: nat)
    requires SuffixOf(s, r) && k < |r| - |s|
    ensures SuffixOf(s, r[..k] + r[k + 1..])
  {
    var d := |r| - |s|;
    assert s == r[k + 1..][d - k - 1..];
  }

  lemma WithoutInside(s: seq<Url>, r: seq<Url>, u: Url, k: nat)
    requires SuffixOf(s, r) && Distinct(r) && Distinct(s) && |r| - |s| <= k < |r|
    requires r[k] == u && s[k - (|r| - |s|)] == u
    ensures SuffixOf(Without(s, u), Without(r, u))
  {
    WithoutAt(s, u, k - (|r| - |s|));
    WithoutAt(r, u, k);
    CutInside(s, r, k);
  }

  lemma WithoutBefore(s: seq<Url>, r: seq<Url>, u: Url, k: nat)
    requires SuffixOf(s, r) && Distinct(r) && k < |r| - |s| && r[k] == u && u !in s
    ensures SuffixOf(Without(s, u), Without(r, u))
  {
    WithoutAt(r, u, k);
    CutBefore(s, r, k);
  }

  /** Removing a URL from a list and from a suffix of it leaves a suffix. */
  lemma WithoutSuffix(s: seq<Url>, r: seq<Url>, u: Url)
    requires SuffixOf(s, r) && Distinct(r)
    ensures SuffixOf(Without(s, u), Without(r, u))
  {
    if u !in r {
      assert u !in s;
      return;
    }
    var k := IndexOf(r, u);
    SuffixDistinct(s, r, k);
    if k >= |r| - |s| {
      WithoutInside(s, r, u, k);
    } else {
      WithoutBefore(s, r, u, k);
    }
  }

  lemma {:induction false} RecencyDistinct(h: seq<Change>)
    ensures Distinct(Recency(h))
  {
    if |h| > 0 {
      RecencyDistinct(h[..|h| - 1]);
      WithoutDistinct(Recency(h[..|h| - 1]), h[|h| - 1].url);
    }
  }

  /** What is remembered is a duplicate-free suffix of the recency list, at most 64 long. */
  lemma {:induction false} OrderIsSuffix(h: seq<Change>)
    ensures Distinct(Order(h)) && |Order(h)| <= MAX_REMEMBERED
    ensures SuffixOf(Order(h), Recency(h))
  {
    RecencyDistinct(h);
    if |h| > 0 {
      var front, u := h[..|h| - 1], h[|h| - 1].url;
      OrderIsSuffix(front);
      RecencyDistinct(front);
      WithoutSuffix(Order(front), Recency(front), u);
      WithoutDistinct(Order(front), u);
      if h[|h| - 1].Used? {
        SuffixConcat(Without(Order(front), u), Without(Recency(front), u), [u]);
        NewestSuffix(Without(Order(front), u) + [u], Recency(h));
      }
    }
  }

  ghost predicate NeverDropped(h: seq<Change>) {
    forall i :: 0 <= i < |h| ==> h[i].Used?
  }

  lemma {:induction false} OrderLength(h: seq<Change>)
    requires NeverDropped(h)
    ensures |Order(h)| == if |Recency(h)| > MAX_REMEMBERED then MAX_REMEMBERED else |Recency(h)|
  {
    if |h| > 0 {
      var front, u := h[..|h| - 1], h[|h| - 1].url;
      OrderLength(front);
      OrderIsSuffix(front);
      assert u in Order(front) ==> u in Recency(front);
      assert |Order(front)| == |Recency(front)| ==> Order(front) == Recency(front);
    }
  }

  /** When no switch failed, it is exactly the last 64 of the recency list. */
  lemma {:induction false} OrderExact(h: seq<Change>)
    requires NeverDropped(h)
    ensures Order(h) == Newest(Recency(h))
  {
    OrderIsSuffix(h);
    OrderLength(h);
  }

  /** Everything after a URL in the recency list was used since that URL was. */
  lemma {:induction false} LaterUsedSince(h: seq<Change>, i: nat, j: nat)
    requires i < j < |Recency(h)|
    ensures Recency(h)[j] in Since(h, Recency(h)[i])
  {
    var front, c := h[..|h| - 1], h[|h| - 1];
    var r := Recency(front);
    RecencyDistinct(front);
    WithoutDistinct(r, c.url);
    var w := Without(r, c.url);
    if j < |w| {
      var k := if c.url in r then IndexOf(r, c.url) else |r|;
      assert forall x :: 0 <= x < |w| ==> w[x] == r[if x < k then x else x + 1];
      LaterUsedSince(front, if i < k then i else i + 1, if j < k then j else j + 1);
    }
    assert w[i] != c.url;
  }

  /** A URL still in use that is not remembered has seen at least 64 other URLs used since. */
  lemma {:induction false} ForgottenOnlyAfter64(h: seq<Change>, u: Url)
    requires u in Recency(h) && u !in Order(h)
    ensures |Since(h, u)| >= MAX_REMEMBERED
  {
    var front, c := h[..|h| - 1], h[|h| - 1];
    var o := Order(front);
    OrderIsSuffix(front);
    RecencyDistinct(front);
    WithoutDistinct(o, c.url);
    WithoutDistinct(Recency(front), c.url);
    assert c.Used? ==> Order(h)[|Order(h)| - 1] == c.url;
    assert u != c.url;
    if u !in o {
      ForgottenOnlyAfter64(front, u);
      SubsetSize(Since(front, u), Since(h, u));
    } else {
      EvictedLast(h, u);
    }
  }

  /** The list grows by at most one, so what the bound pushes out is its oldest URL. */
  lemma PushedOut(long: seq<Url>, u: Url)
    requires |long| <= MAX_REMEMBERED + 1 && u in long && u !in Newest(long)
    ensures |long| == MAX_REMEMBERED + 1 && long[0] == u && Newest(long) == long[1..]
  {
    assert |long| == MAX_REMEMBERED + 1;
    assert long == [long[0]] + long[1..];
  }

  /** The URLs of h's recency list that come after position i, when s is all of them. */
  lemma {:induction false} AllUsedSince(h: seq<Change>, i: nat, s: seq<Url>)
    requires i < |Recency(h)| && s == Recency(h)[i + 1..]
    ensures |s| <= |Since(h, Recency(h)[i])|
  {
    var r, since := Recency(h), Since(h, Recency(h)[i]);
    RecencyDistinct(h);
    forall x | x in s
      ensures x in since
    {
      var j :| 0 <= j < |s| && s[j] == x;
      LaterUsedSince(h, i, i + 1 + j);
    }
    SetOfDistinct(s);
    SubsetSize((set x | x in s), since);
  }

  /** The step that evicts u keeps 64 URLs, all used since u was. */
  lemma {:induction false} EvictedLast(h: seq<Change>, u: Url)
    requires |h| > 0
    ensures u in Order(h[..|h| - 1]) && u !in Order(h) && u != h[|h| - 1].url ==> |Since(h, u)| >= MAX_REMEMBERED
  {
    var front, c := h[..|h| - 1], h[|h| - 1];
    if u in Order(front) && u !in Order(h) && u != c.url {
      OrderIsSuffix(front);
      OrderIsSuffix(h);
      WithoutDistinct(Order(front), c.url);
      var long := Without(Order(front), c.url) + [c.url];
      PushedOut(long, u);
      RecencyDistinct(front);
      WithoutSuffix(Order(front), Recency(front), c.url);
      SuffixConcat(Without(Order(front), c.url), Without(Recency(front), c.url), [c.url]);
      var r := Recency(h);
      var i := |r| - |long|;
      assert r[i..] == long && r[i] == u && r[i + 1..] == long[1..];
      AllUsedSince(h, i, long[1..]);
    }
  }

  /** A rejected first switch leaves the list as it was exactly when the bound was not reached;
      at the bound it costs the oldest URL. */
  lemma {:induction false} RejectedFirstSwitch(h: seq<Change>, u: Url)
    requires u !in Order(h)
    ensures var after := Order(h + [Used(u), Dropped(u)]);
            && (after == Order(h) <==> |Order(h)| < MAX_REMEMBERED)
            && (|Order(h)| == MAX_REMEMBERED ==> after == Order(h)[1..])
  {
    OrderIsSuffix(h);
    var used, g := h + [Used(u)], h + [Used(u), Dropped(u)];
    assert g[..|g| - 1] == used && used[..|h|] == h;
    UseThenDrop(Order(h), u);
  }

  function Name(k: nat): (u: Url)
    ensures |u| == k
  {
    seq(k, _ => 'a')
  }

  function Names(n: nat): (s: seq<Url>)
    ensures |s| == n && Distinct(s) && forall k :: 0 <= k < n ==> s[k] == Name(k)
  {
    if n == 0 then [] else Names(n - 1) + [Name(n - 1)]
  }

  function Uses(n: nat): (h: seq<Change>)
    ensures |h| == n && forall k :: 0 <= k < n ==> h[k] == Used(Name(k))
  {
    seq(n, k requires 0 <= k => Used(Name(k)))
  }

  lemma {:induction false} UsesOrder(n: nat)
    requires n <= MAX_REMEMBERED
    ensures Order(Uses(n)) == Names(n)
  {
    if n > 0 {
      UsesOrder(n - 1);
      assert Uses(n)[..n - 1] == Uses(n - 1);
      assert Name(n - 1) !in Names(n - 1);
    }
  }

  /** The bound is reached, and there a rejected first switch loses the oldest URL. */
  lemma RejectedAtTheBound() returns (h: seq<Change>, u: Url)
    ensures |Order(h)| == MAX_REMEMBERED && u !in Order(h)
    ensures Order(h + [Used(u), Dropped(u)]) == Order(h)[1..] && Order(h)[0] !in Order(h)[1..]
  {
    h, u := Uses(MAX_REMEMBERED), Name(MAX_REMEMBERED);
    UsesOrder(MAX_REMEMBERED);
    assert u !in Names(MAX_REMEMBERED);
    RejectedFirstSwitch(h, u);
  }

  // ---- Interleaved apply calls ----

  type Tid = nat

  /** Where a call of apply stands: looking the host up outside the lock, about to take the lock
      again, or inside set with the lock held. */
  datatype Phase =
    | Looking(url: Url)
    | Resolved(url: Url, ep: Option<Endpoint>)
    | Switching(url: Url, ep: Option<Endpoint>, wasKnown: bool)

  datatype State = State(
    order: seq<Url>,
    entries: map<Url, Endpoint>,
    snap: Option<seq<Endpoint>>,
    holder: Option<Tid>,
    calls: map<Tid, Phase>,
    history: seq<Change>)

  datatype Event =
    | Start(t: Tid, url: Url)
    | Lookup(t: Tid, ep: Option<Endpoint>)
    | Begin(t: Tid)
    | End(t: Tid, accepted: bool)
    | Dialed(d: Dial, inner: bool, pass: bool)

  /** What the class invariant of ProxyAllowance says of the shared fields. */
  ghost predicate Consistent(s: State) {
    && Distinct(s.order) && |s.order| <= MAX_REMEMBERED
    && (s.entries.Keys == set u | u in s.order)
    && (s.snap == Some(Endpoints(s.order, s.entries)) || (s.snap == None && s.order == []))
  }

  /** The fields after Remember. */
  ghost predicate UsedStep(s: State, u: Url, ep: Endpoint, s': State) {
    && RememberedAs(s.order, s.entries, u, ep, s'.order, s'.entries)
    && s'.snap == Some(Endpoints(s'.order, s'.entries))
    && s'.history == s.history + [Used(u)]
  }

  /** The fields after Forget. */
  ghost predicate DroppedStep(s: State, u: Url, s': State) {
    && ForgottenAs(s.order, s.entries, u, s'.order, s'.entries)
    && s'.snap == Some(Endpoints(s'.order, s'.entries))
    && s'.history == s.history + [Dropped(u)]
  }

  ghost predicate SameFields(s: State, s': State) {
    s'.order == s.order && s'.entries == s.entries && s'.snap == s.snap && s'.history == s.history
  }

  ghost predicate SnapHits(l: seq<Endpoint>, ip: Addr, port: string) {
    exists i :: 0 <= i < |l| && EndpointAllows(l[i], ip, port)
  }

  /** What the guard finds in the snapshot, whoever holds the lock. */
  ghost predicate SnapAllows(snap: Option<seq<Endpoint>>, d: Dial) {
    !IsUnix(d.network) && d.target.Some? && snap.Some? && SnapHits(snap.value, d.target.value.0, d.target.value.1)
  }

  ghost predicate Initial(s: State) {
    && s.holder == None && s.calls == map[]
    && ((s.order == [] && s.entries == map[] && s.snap == None && s.history == [])
        || exists u, ep :: UsedStep(State([], map[], None, None, map[], []), u, ep, s))
  }

  ghost predicate Next(s: State, e: Event, s': State) {
    match e
    case Start(t, url) =>
      && s.holder == None && t !in s.calls && SameFields(s, s') && s'.holder == None
      && s'.calls == s.calls[t := if url in s.entries then Resolved(url, Some(s.entries[url])) else Looking(url)]
    case Lookup(t, ep) =>
      && t in s.calls && s.calls[t].Looking? && SameFields(s, s') && s'.holder == s.holder
      && s'.calls == s.calls[t := Resolved(s.calls[t].url, ep)]
    case Begin(t) =>
      && s.holder == None && t in s.calls && s.calls[t].Resolved? && s'.holder == Some(t)
      && var c := s.calls[t];
      && s'.calls == s.calls[t := Switching(c.url, c.ep, c.url in s.entries)]
      && (if c.ep.Some? then UsedStep(s, c.url, c.ep.value, s') else SameFields(s, s'))
    case End(t, accepted) =>
      && s.holder == Some(t) && t in s.calls && s.calls[t].Switching? && s'.holder == None
      && s'.calls == s.calls - {t}
      && var c := s.calls[t];
      && (if !accepted && c.ep.Some? && !c.wasKnown then DroppedStep(s, c.url, s') else SameFields(s, s'))
    case Dialed(d, inner, pass) =>
      && SameFields(s, s') && s'.holder == s.holder && s'.calls == s.calls
      && pass == (inner || SnapAllows(s.snap, d))
  }

  /** Every drop undoes the use directly before it, of a URL not remembered before that. */
  ghost predicate DropsOwnUse(h: seq<Change>) {
    forall i :: 0 <= i < |h| && h[i].Dropped? ==>
      i > 0 && h[i - 1] == Used(h[i].url) && h[i].url !in Order(h[..i - 1])
  }

  /** The last change is the switch now in progress. */
  ghost predicate SwitchInProgress(h: seq<Change>, url: Url, wasKnown: bool) {
    |h| > 0 && h[|h| - 1] == Used(url) && (!wasKnown ==> url !in Order(h[..|h| - 1]))
  }

  /** The fields are consistent and what the history makes of them. */
  ghost predicate Tracked(s: State) {
    Consistent(s) && s.order == Order(s.history) && DropsOwnUse(s.history)
  }

  ghost predicate Inv(s: State) {
    && Tracked(s)
    && (forall t :: t in s.calls && s.calls[t].Switching? ==> s.holder == Some(t))
    && (forall t :: s.holder == Some(t) && t in s.calls && s.calls[t].Switching? && s.calls[t].ep.Some? ==>
          SwitchInProgress(s.history, s.calls[t].url, s.calls[t].wasKnown)
          && s.calls[t].url in s.entries && s.entries[s.calls[t].url] == s.calls[t].ep.value)
  }

  lemma {:induction false} DropsAppend(h: seq<Change>, c: Change)
    requires DropsOwnUse(h) && (c.Dropped? ==> SwitchInProgress(h, c.url, false))
    ensures DropsOwnUse(h + [c])
  {
    var g := h + [c];
    forall i | 0 <= i < |g| && g[i].Dropped?
      ensures i > 0 && g[i - 1] == Used(g[i].url) && g[i].url !in Order(g[..i - 1])
    {
      assert i < |h| ==> h[i] == g[i];
      assert i > 0 ==> g[..i - 1] == h[..i - 1];
    }
  }

  lemma UsedStepKeeps(s: State, u: Url, ep: Endpoint, s': State)
    requires UsedStep(s, u, ep, s')
    ensures Tracked(s) ==> Tracked(s')
    ensures Tracked(s) ==>
              SwitchInProgress(s'.history, u, u in s.entries) && u in s'.entries && s'.entries[u] == ep
  {
    var h := s'.history;
    assert h[..|h| - 1] == s.history;
    OrderIsSuffix(h);
    if Tracked(s) {
      assert s'.order == Order(h);
      assert s'.order[|s'.order| - 1] == u;
      DropsAppend(s.history, Used(u));
    }
  }

  lemma DroppedStepKeeps(s: State, u: Url, s': State)
    requires DroppedStep(s, u, s')
    ensures Tracked(s) && SwitchInProgress(s.history, u, false) ==> Tracked(s')
  {
    var h := s'.history;
    assert h[..|h| - 1] == s.history;
    OrderIsSuffix(h);
    if Tracked(s) && SwitchInProgress(s.history, u, false) {
      DropsAppend(s.history, Dropped(u));
    }
  }

  lemma InitialTracked(s: State)
    requires Initial(s)
    ensures Tracked(s)
  {
    var none := State([], map[], None, None, map[], []);
    assert Tracked(none);
    if s.history != [] {
      var u, ep :| UsedStep(none, u, ep, s);
      UsedStepKeeps(none, u, ep, s);
    }
  }

  lemma InvInitial(s: State)
    requires Initial(s)
    ensures Inv(s)
  {
    InitialTracked(s);
  }

  lemma InvStep(s: State, e: Event, s': State)
    requires Inv(s) && Next(s, e, s')
    ensures Inv(s')
  {
    match e
    case Start(t, url) =>
    case Lookup(t, ep) =>
    case Dialed(d, inner, pass) =>
    case Begin(t) =>
      var c := s.calls[t];
      if c.ep.Some? {
        UsedStepKeeps(s, c.url, c.ep.value, s');
      }
    case End(t, accepted) =>
      var c := s.calls[t];
      if !accepted && c.ep.Some? && !c.wasKnown {
        DroppedStepKeeps(s, c.url, s');
      }
  }

  /** states is a run of the events. */
  ghost predicate Run(states: seq<State>, events: seq<Event>) {
    && |states| == |events| + 1 && Initial(states[0])
    && forall i :: 0 <= i < |events| ==> Next(states[i], events[i], states[i + 1])
  }

  lemma {:induction false} RunInv(states: seq<State>, events: seq<Event>, i: nat)
    requires Run(states, events) && i < |states|
    ensures Inv(states[i])
  {
    if i == 0 {
      InvInitial(states[0]);
    } else {
      RunInv(states, events, i - 1);
      InvStep(states[i - 1], events[i - 1], states[i]);
    }
  }

  /** In every interleaving the list is the bounded suffix of the recency list, each published
      snapshot is that list mapped to endpoints, and a URL is dropped only directly after its use. */
  lemma RememberedInRuns(states: seq<State>, events: seq<Event>, i: nat)
    requires Run(states, events) && i < |states|
    ensures Consistent(states[i]) && DropsOwnUse(states[i].history)
    ensures SuffixOf(states[i].order, Recency(states[i].history))
    ensures NeverDropped(states[i].history) ==> states[i].order == Newest(Recency(states[i].history))
  {
    RunInv(states, events, i);
    OrderIsSuffix(states[i].history);
    if NeverDropped(states[i].history) {
      OrderExact(states[i].history);
    }
  }

  lemma UsedStepLeaves(s: State, u: Url, ep: Endpoint, s': State, x: Url)
    requires UsedStep(s, u, ep, s') && Consistent(s) && s.order == Order(s.history)
    ensures x in s.order && x !in s'.order ==> |Since(s'.history, x)| >= MAX_REMEMBERED
  {
    var h := s'.history;
    assert h[..|h| - 1] == s.history;
    assert s'.order[|s'.order| - 1] == u;
    EvictedLast(h, x);
  }

  /** The call t fails its own first switch to u. */
  predicate RejectsFirst(s: State, e: Event, u: Url) {
    e.End? && !e.accepted && e.t in s.calls && s.calls[e.t].Switching? &&
    s.calls[e.t].url == u && !s.calls[e.t].wasKnown
  }

  lemma StepLeaves(s: State, e: Event, s': State, u: Url)
    requires Inv(s) && Next(s, e, s')
    ensures u in s.order && u !in s'.order ==> RejectsFirst(s, e, u) || |Since(s'.history, u)| >= MAX_REMEMBERED
  {
    if e.Begin? && s.calls[e.t].ep.Some? {
      UsedStepLeaves(s, s.calls[e.t].url, s.calls[e.t].ep.value, s', u);
    } else if e.End? {
      WithoutDistinct(s.order, s.calls[e.t].url);
    }
  }

  /** In every interleaving a URL leaves the list only through the failure of its own first
      switch, or once 64 other URLs have been used since it was. */
  lemma LeavesOnly(states: seq<State>, events: seq<Event>, i: nat, u: Url)
    requires Run(states, events) && i < |events|
    requires u in states[i].order && u !in states[i + 1].order
    ensures RejectsFirst(states[i], events[i], u) || |Since(states[i + 1].history, u)| >= MAX_REMEMBERED
  {
    RunInv(states, events, i);
    StepLeaves(states[i], events[i], states[i + 1], u);
  }

  /** While a backend is being switched, dials to the new proxy's endpoint already pass. */
  lemma AllowedDuringSwitch(states: seq<State>, events: seq<Event>, i: nat, t: Tid, a: Addr)
    requires Run(states, events) && i < |states|
    requires states[i].holder == Some(t) && t in states[i].calls && states[i].calls[t].Switching?
    requires states[i].calls[t].ep.Some? && a in states[i].calls[t].ep.value.addrs
    ensures states[i].snap.Some? &&
            exists k :: 0 <= k < |states[i].snap.value| && a in states[i].snap.value[k].addrs
                        && states[i].snap.value[k].port == states[i].calls[t].ep.value.port
  {
    RunInv(states, events, i);
    var s := states[i];
    var k :| 0 <= k < |s.order| && s.order[k] == s.calls[t].url;
    assert s.snap.value[k] == s.entries[s.order[k]];
  }

  /** ep was u's to begin with, or one of the first i events is a lookup for u that gave it. */
  ghost predicate LookedUp(states: seq<State>, events: seq<Event>, i: nat, u: Url, ep: Endpoint) {
    || (|states| > 0 && u in states[0].entries && states[0].entries[u] == ep)
    || exists j :: 0 <= j < i <= |events| < |states| && events[j].Lookup? && events[j].ep == Some(ep)
                   && events[j].t in states[j].calls && states[j].calls[events[j].t].url == u
  }

  /** In every interleaving the endpoint of a remembered URL is one looked up for that URL. */
  lemma {:induction false} EndpointsLookedUp(states: seq<State>, events: seq<Event>, i: nat)
    requires Run(states, events) && i < |states|
    ensures forall u :: u in states[i].order ==>
              u in states[i].entries && LookedUp(states, events, i, u, states[i].entries[u])
    ensures forall t :: t in states[i].calls && !states[i].calls[t].Looking? && states[i].calls[t].ep.Some? ==>
              LookedUp(states, events, i, states[i].calls[t].url, states[i].calls[t].ep.value)
  {
    RunInv(states, events, i);
    if i > 0 {
      EndpointsLookedUp(states, events, i - 1);
      RunInv(states, events, i - 1);
      var s, e, s' := states[i - 1], events[i - 1], states[i];
      assert Next(s, e, s');
      forall u, ep | LookedUp(states, events, i - 1, u, ep)
        ensures LookedUp(states, events, i, u, ep)
      {
      }
    }
  }

  /** In every interleaving, whoever holds the lock, a dial passes exactly as promised. */
  lemma DialExactly(states: seq<State>, events: seq<Event>, i: nat)
    requires Run(states, events) && i < |events| && events[i].Dialed?
    ensures Consistent(states[i])
    ensures var s, e := states[i], events[i];
            e.pass <==>
            || e.inner
            || (e.d.network !in {"unix", "unixgram", "unixpacket"} && e.d.target.Some?
                && exists u :: u in s.order && s.entries[u].port == e.d.target.value.1
                               && e.d.target.value.0 in s.entries[u].addrs)
  {
    RunInv(states, events, i);
    assert Next(states[i], events[i], states[i + 1]);
    if events[i].d.target.Some? {
      SnapExactly(states[i], events[i].d);
    }
  }

  /** The published endpoint k is that of the k-th URL in order. */
  lemma SnapExactly(s: State, d: Dial)
    requires Consistent(s) && d.target.Some?
    ensures s.snap.Some? && SnapHits(s.snap.value, d.target.value.0, d.target.value.1) <==>
            exists u :: u in s.order && s.entries[u].port == d.target.value.1
                        && d.target.value.0 in s.entries[u].addrs
  {
    var (ip, port) := d.target.value;
    if s.snap.Some? && SnapHits(s.snap.value, ip, port) {
      var k :| 0 <= k < |s.snap.value| && EndpointAllows(s.snap.value[k], ip, port);
      assert s.order[k] in s.order;
    }
    if u :| u in s.order && s.entries[u].port == port && ip in s.entries[u].addrs {
      var k :| 0 <= k < |s.order| && s.order[k] == u;
      assert EndpointAllows(s.snap.value[k], ip, port);
    }
  }
}

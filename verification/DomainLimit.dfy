/** Per-host rate limiting with request spacing (ratelimit/domain.go). A host is what
    uri.ExtractHost returns for the request URL. */
module DomainLimit {
  import opened Prelude
  import opened Clock
  import opened GoInt
  import opened RateStore
  import opened RateLimit

  type Host = string

  datatype Rule = Rule(
    pattern: string,
    requestsPerWindow: int,
    window: Duration,
    minDelay: Duration,
    randomDelay: Duration)
  {
    /** At least one request per window, and a window that can expire. */
    predicate Sane() {
      requestsPerWindow >= 1 && window < MAX_DURATION
    }

    /** No draw makes minDelay + draw wrap around. */
    predicate SumFits() {
      randomDelay <= 0 || minDelay + randomDelay - 1 <= MAX_DURATION
    }

    /** The longest delay a draw can ask for, were the sum not to wrap around. */
    function LongestDelay(): int {
      minDelay + if randomDelay > 0 then randomDelay else 0
    }
  }

  predicate EndsWith(s: string, suffix: string) {
    |suffix| <= |s| && s[|s| - |suffix|..] == suffix
  }

  predicate Matches(pattern: string, host: Host) {
    || pattern == ""
    || pattern == host
    || (|pattern| >= 2 && pattern[..2] == "*." && (EndsWith(host, pattern[1..]) || host == pattern[2..]))
  }

  /** A wildcard rule covers the bare domain and everything below it, and nothing else. */
  lemma WildcardCovers(base: string, host: Host)
    ensures Matches("*." + base, host) <==> host == base || exists sub :: host == sub + "." + base
  {
    var pattern := "*." + base;
    assert pattern[1..] == "." + base && pattern[2..] == base && pattern[..2] == "*.";
    if EndsWith(host, "." + base) {
      assert host == host[..|host| - |base| - 1] + "." + base;
    }
    if sub :| host == sub + "." + base {
      assert host[|sub|..] == "." + base;
    }
    if pattern == host {
      assert host == "*" + "." + base;
    }
  }

  ghost predicate AtOrBelow(base: string, host: Host) {
    host == base || exists sub :: host == sub + "." + base
  }

  /** A pattern covers every host when empty, its own text, and, as a wildcard, its base and everything
      below that; nothing else. */
  lemma MatchesExactly(pattern: string, host: Host)
    ensures Matches(pattern, host) <==>
            pattern == "" || pattern == host || exists base :: pattern == "*." + base && AtOrBelow(base, host)
  {
    if |pattern| >= 2 && pattern[..2] == "*." {
      assert pattern == "*." + pattern[2..];
      WildcardCovers(pattern[2..], host);
    }
    if base :| pattern == "*." + base && AtOrBelow(base, host) {
      assert pattern[2..] == base;
    }
  }

  /** Index of the first rule that matches. */
  ghost predicate FirstMatch(rules: seq<Rule>, host: Host, m: Option<nat>) {
    match m
    case Some(i) =>
      i < |rules| && Matches(rules[i].pattern, host) && forall k :: 0 <= k < i ==> !Matches(rules[k].pattern, host)
    case None => forall k :: 0 <= k < |rules| ==> !Matches(rules[k].pattern, host)
  }

  ghost function FirstFrom(rules: seq<Rule>, host: Host, from: nat): (m: Option<nat>)
    requires from <= |rules|
    requires forall k :: 0 <= k < from ==> !Matches(rules[k].pattern, host)
    ensures FirstMatch(rules, host, m)
    decreases |rules| - from
  {
    if from == |rules| then None
    else if Matches(rules[from].pattern, host) then Some(from)
    else FirstFrom(rules, host, from + 1)
  }

  /** Index of the rule that applies to the host. */
  ghost function RuleOf(rules: seq<Rule>, host: Host): (m: Option<nat>)
    ensures FirstMatch(rules, host, m)
  {
    FirstFrom(rules, host, 0)
  }

  method MatchRule(rules: seq<Rule>, host: Host) returns (m: Option<nat>)
    ensures m == RuleOf(rules, host)
  {
    for i := 0 to |rules|
      invariant forall k :: 0 <= k < i ==> !Matches(rules[k].pattern, host)
    {
      if Matches(rules[i].pattern, host) {
        return Some(i);
      }
    }
    return None;
  }

  /** The clock readings and the random draw of one call: the spacing check, the limiter's, and
      the one stored as the last request. */
  datatype Poll = Poll(spaced: Instant, r: Readings, done: Instant, draw: Int) {
    predicate Ordered() {
      spaced <= r.now && r.Ordered() && r.later <= done
    }
  }

  /** What the limiter knows about one host. */
  datatype HostState = HostState(entry: Option<Entry>, last: Option<Time>)

  /** The sum may wrap around. */
  function Delay(rule: Rule, p: Poll): Int {
    if rule.randomDelay > 0 then Sum(rule.minDelay, p.draw) else rule.minDelay
  }

  predicate DrawOk(rule: Rule, p: Poll) {
    rule.randomDelay > 0 ==> 0 <= p.draw < rule.randomDelay
  }

  /** The call comes too soon after the last admitted one. */
  predicate TooSoon(rule: Rule, h: HostState, p: Poll) {
    (rule.minDelay > 0 || rule.randomDelay > 0) && h.last.Some? && Sub(p.spaced, h.last.value) < Delay(rule, p)
  }

  /** Allow on one host. */
  function HostPolled(rule: Rule, h: HostState, p: Poll): (HostState, bool) {
    if TooSoon(rule, h, p) then (h, false)
    else
      var (e, ok) := Polled(h.entry, rule.requestsPerWindow, rule.window, p.r);
      if ok then (HostState(e, Some(p.done)), true) else (h.(entry := e), false)
  }

  class DomainLimiter {
    const rules: seq<Rule>
    var limiters: map<Host, Limiter>
    var lastReq: map<Host, Time>
    ghost var latest: int
    /** The limiters and their stores. */
    ghost var Repr: set<object>
    /** The uses of each host that a rule covers so far. */
    ghost var events: map<Host, seq<HostEvent>>

    /** Each limiter follows its host's rule and shares no object with another host's. */
    ghost predicate Valid()
      reads this`limiters, this`latest, this`Repr, Repr
    {
      && latest >= 0 && this !in Repr
      && (forall h :: h in limiters ==> limiters[h] in Repr && limiters[h].store in Repr && HostValid(h, limiters[h]))
      && (forall g, h :: g in limiters && h in limiters && g != h ==>
            limiters[g] != limiters[h] && limiters[g].store != limiters[h].store)
    }

    ghost predicate HostValid(h: Host, l: Limiter)
      reads this`latest, l, l.store
    {
      && l.Valid() && l.perKeyCap == map[] && l.latest <= latest
      && RuleOf(rules, h).Some?
      && var rule := rules[RuleOf(rules, h).value];
         l.requestsPerWindow == rule.requestsPerWindow && l.window == rule.window
    }

    ghost function HostOf(h: Host): HostState
      requires Valid()
      reads this`limiters, this`lastReq, this`latest, this`Repr, Repr
    {
      HostState(if h in limiters then Lookup(limiters[h].store.state, h) else None,
                if h in lastReq then Some(lastReq[h]) else None)
    }

    /** What is known about each covered host is what its uses so far make of it, in order. */
    ghost predicate Recorded()
      requires Valid()
      reads this, Repr
    {
      forall h :: HostRecorded(h)
    }

    ghost predicate HostRecorded(h: Host)
      requires Valid()
      reads this, Repr
    {
      Explains(rules, h, EventsOf(events, h), HostOf(h), latest)
    }

    constructor (rules: seq<Rule>)
      ensures Valid() && Recorded() && Repr == {} && this.rules == rules && latest == 0 && events == map[]
      ensures forall h :: HostOf(h) == HostState(None, None)
    {
      this.rules := rules;
      limiters, lastReq, latest, Repr, events := map[], map[], 0, {}, map[];
    }

    method GetLimiter(h: Host, i: nat) returns (l: Limiter)
      requires Valid() && RuleOf(rules, h) == Some(i)
      modifies this`limiters, this`Repr
      ensures Valid() && fresh(Repr - old(Repr)) && old(Repr) <= Repr
      ensures h in limiters && limiters[h] == l
      ensures forall g :: HostOf(g) == old(HostOf(g))
    {
      if h in limiters {
        return limiters[h];
      }
      l := new Limiter(rules[i].requestsPerWindow, rules[i].window);
      assert HostValid(h, l) && Lookup(l.store.state, h) == None;
      AddLimiter(h, l);
    }

    method AddLimiter(h: Host, l: Limiter)
      requires Valid() && h !in limiters && HostValid(h, l) && Lookup(l.store.state, h) == None
      requires l !in Repr && l.store !in Repr
      modifies this`limiters, this`Repr
      ensures Valid() && Repr == old(Repr) + {l, l.store}
      ensures limiters == old(limiters)[h := l]
      ensures forall g :: HostOf(g) == old(HostOf(g))
    {
      limiters := limiters[h := l];
      Repr := Repr + {l, l.store};
      forall g | g in limiters && g != h
        ensures HostValid(g, limiters[g]) && limiters[g] in old(Repr) && limiters[g].store in old(Repr)
      {
        assert old(HostValid(g, limiters[g]));
      }
    }

    /** Moves the latest reading on. */
    ghost method Pass(t: Instant)
      requires Valid() && latest <= t
      modifies this`latest
      ensures Valid() && latest == t
      ensures forall g :: HostOf(g) == old(HostOf(g))
    {
      latest := t;
      forall g | g in limiters
        ensures HostValid(g, limiters[g])
      {
        assert old(HostValid(g, limiters[g]));
      }
    }

    /** A use of one host leaves the records of the others in place. */
    twostate lemma OthersStay(h: Host)
      requires old(Valid()) && Valid() && old(Recorded())
      requires events == old(events) && old(latest) <= latest
      requires forall g :: g != h ==> HostOf(g) == old(HostOf(g))
      ensures forall g :: g != h ==> HostRecorded(g)
    {
      forall g | g != h
        ensures HostRecorded(g)
      {
        assert old(HostRecorded(g));
      }
    }

    /** Adds to a host's uses the one just made. */
    ghost method Note(h: Host, e: HostEvent)
      requires Valid() && forall g :: g != h ==> HostRecorded(g)
      requires Explains(rules, h, EventsOf(events, h) + [e], HostOf(h), latest)
      modifies this`events
      ensures Valid() && Recorded() && events == old(events)[h := EventsOf(old(events), h) + [e]]
    {
      events := events[h := EventsOf(events, h) + [e]];
      assert HostRecorded(h);
      forall g | g != h
        ensures HostRecorded(g)
      {
        assert EventsOf(events, g) == EventsOf(old(events), g);
        assert old(HostRecorded(g));
      }
    }

    /** The host is covered or it is let through; a covered one gets one more use. */
    method Allow(h: Host, p: Poll) returns (allowed: bool)
      requires Valid() && Recorded() && p.Ordered() && latest <= p.spaced
      requires var m := RuleOf(rules, h); m.Some? ==> DrawOk(rules[m.value], p)
      modifies this, Repr
      ensures Valid() && Recorded() && fresh(Repr - old(Repr)) && latest <= p.done
      ensures RuleOf(rules, h) == None ==> allowed && HostOf(h) == old(HostOf(h)) && events == old(events)
      ensures var m := RuleOf(rules, h);
              m.Some? ==>
                && (HostOf(h), allowed) == HostPolled(rules[m.value], old(HostOf(h)), p)
                && events == old(events)[h := EventsOf(old(events), h) + [Request(p)]]
      ensures forall g :: g != h ==> HostOf(g) == old(HostOf(g))
    {
      var m := MatchRule(rules, h);
      if m == None {
        return true;
      }
      allowed := AllowNoted(h, m.value, p);
    }

    /** The part of Allow after the rule is found, and the note of it. */
    method AllowNoted(h: Host, i: nat, p: Poll) returns (allowed: bool)
      requires Valid() && Recorded() && p.Ordered() && latest <= p.spaced
      requires RuleOf(rules, h) == Some(i) && DrawOk(rules[i], p)
      modifies this, Repr
      ensures Valid() && Recorded() && fresh(Repr - old(Repr)) && latest <= p.done
      ensures (HostOf(h), allowed) == HostPolled(rules[i], old(HostOf(h)), p)
      ensures events == old(events)[h := EventsOf(old(events), h) + [Request(p)]]
      ensures forall g :: g != h ==> HostOf(g) == old(HostOf(g))
    {
      assert HostRecorded(h);
      ghost var before, start := HostOf(h), latest;
      allowed := AllowRuled(h, i, p);
      Pass(p.done);
      OthersStay(h);
      ExplainsNext(rules, h, EventsOf(events, h), before, start, Request(p));
      Note(h, Request(p));
    }

    /** The part of Allow after the rule is found, itself. */
    method AllowRuled(h: Host, i: nat, p: Poll) returns (allowed: bool)
      requires Valid() && p.Ordered() && latest <= p.spaced
      requires RuleOf(rules, h) == Some(i) && DrawOk(rules[i], p)
      modifies this`limiters, this`lastReq, this`latest, this`Repr, Repr
      ensures Valid() && fresh(Repr - old(Repr)) && latest <= p.done
      ensures (HostOf(h), allowed) == HostPolled(rules[i], old(HostOf(h)), p)
      ensures forall g :: g != h ==> HostOf(g) == old(HostOf(g))
    {
      var rule := rules[i];
      if rule.minDelay > 0 || rule.randomDelay > 0 {
        if h in lastReq {
          var delay: Int := rule.minDelay;
          if rule.randomDelay > 0 {
            delay := Sum(delay, p.draw);
          }
          if Sub(p.spaced, lastReq[h]) < delay {
            return false;
          }
        }
      }
      allowed := AllowSpaced(h, i, p);
    }

    /** The part of Allow after the spacing check. */
    method AllowSpaced(h: Host, i: nat, p: Poll) returns (allowed: bool)
      requires Valid() && p.Ordered() && latest <= p.spaced
      requires RuleOf(rules, h) == Some(i)
      modifies this`limiters, this`lastReq, this`latest, this`Repr, Repr
      ensures Valid() && fresh(Repr - old(Repr)) && latest <= p.done
      ensures var (e, ok) := Polled(old(HostOf(h)).entry, rules[i].requestsPerWindow, rules[i].window, p.r);
              allowed == ok && HostOf(h) == HostState(e, if ok then Some(p.done) else old(HostOf(h)).last)
      ensures forall g :: g != h ==> HostOf(g) == old(HostOf(g))
    {
      var l := GetLimiter(h, i);
      assert HostValid(h, l);
      allowed := AllowOn(h, l, p);
      if allowed {
        SetLast(h, p.done);
      }
    }

    method SetLast(h: Host, t: Time)
      requires Valid()
      modifies this`lastReq
      ensures Valid() && HostOf(h) == HostState(old(HostOf(h)).entry, Some(t))
      ensures forall g :: g != h ==> HostOf(g) == old(HostOf(g))
    {
      lastReq := lastReq[h := t];
    }

    /** The rate-limit check on the host's own limiter leaves the other hosts' alone. */
    method AllowOn(h: Host, l: Limiter, p: Poll) returns (allowed: bool)
      requires Valid() && h in limiters && limiters[h] == l
      requires p.Ordered() && latest <= p.spaced
      modifies l, l.store, this`latest
      ensures Valid() && latest <= p.done
      ensures (HostOf(h).entry, allowed) == Polled(old(HostOf(h)).entry, l.requestsPerWindow, l.window, p.r)
      ensures forall g :: g != h ==> HostOf(g) == old(HostOf(g))
    {
      assert HostValid(h, l);
      allowed := l.Allow(h, p.r);
      latest := p.done;
      forall g | g in limiters && g != h
        ensures HostValid(g, limiters[g])
      {
        assert old(HostValid(g, limiters[g]));
        assert limiters[g] != l && limiters[g].store != l.store;
      }
    }

    method MarkRateLimited(h: Host, until: Time, created: Instant)
      requires Valid() && Recorded() && latest <= created
      modifies this, Repr
      ensures Valid() && Recorded() && fresh(Repr - old(Repr)) && latest <= created
      ensures HostOf(h) == if RuleOf(rules, h) == None then old(HostOf(h)) else Marked(old(HostOf(h)), until, created)
      ensures events == if RuleOf(rules, h) == None then old(events)
                        else old(events)[h := EventsOf(old(events), h) + [Mark(until, created)]]
      ensures forall g :: g != h ==> HostOf(g) == old(HostOf(g))
    {
      var m := MatchRule(rules, h);
      if m != None {
        assert HostRecorded(h);
        ghost var before, start := HostOf(h), latest;
        MarkRuled(h, m.value, until, created);
        OthersStay(h);
        ExplainsNext(rules, h, EventsOf(events, h), before, start, Mark(until, created));
        Note(h, Mark(until, created));
      }
    }

    method MarkRuled(h: Host, i: nat, until: Time, created: Instant)
      requires Valid() && RuleOf(rules, h) == Some(i) && latest <= created
      modifies this`limiters, this`latest, this`Repr, Repr
      ensures Valid() && fresh(Repr - old(Repr)) && latest == created
      ensures HostOf(h) == Marked(old(HostOf(h)), until, created)
      ensures forall g :: g != h ==> HostOf(g) == old(HostOf(g))
    {
      var l := GetLimiter(h, i);
      MarkOn(h, l, until, created);
    }

    method MarkOn(h: Host, l: Limiter, until: Time, created: Instant)
      requires Valid() && h in limiters && limiters[h] == l && latest <= created
      modifies l, l.store, this`latest
      ensures Valid() && latest == created
      ensures HostOf(h) == Marked(old(HostOf(h)), until, created)
      ensures forall g :: g != h ==> HostOf(g) == old(HostOf(g))
    {
      assert HostValid(h, l);
      l.MarkRateLimited(h, until, created);
      latest := created;
      forall g | g in limiters && g != h
        ensures HostValid(g, limiters[g])
      {
        assert old(HostValid(g, limiters[g]));
        assert limiters[g] != l && limiters[g].store != l.store;
      }
    }

    /** One use of a host by somebody else. */
    method UseOne(u: HostUse)
      requires Valid() && Recorded() && u.e.Ordered() && latest <= u.e.First()
      requires RuleOf(rules, u.host).Some? ==> DrawsOk(rules[RuleOf(rules, u.host).value], [u.e])
      modifies this, Repr
      ensures Valid() && Recorded() && fresh(Repr - old(Repr)) && latest <= u.e.Last()
      ensures forall g :: RuleOf(rules, g).Some? ==>
                HostOf(g) == UsedBy(rules[RuleOf(rules, g).value], g, old(HostOf(g)), u)
    {
      assert [u.e][0] == u.e;
      match u.e
      case Request(p) =>
        var _ := Allow(u.host, p);
      case Mark(until, created) =>
        MarkRateLimited(u.host, until, created);
    }

    /** What others do while one waits, all of it over by then. */
    method UseAll(uses: seq<HostUse>, ghost from: int, ghost to: int)
      requires Valid() && Recorded() && latest <= from <= to && UsesOk(rules, uses, from, to)
      modifies this, Repr
      ensures Valid() && Recorded() && fresh(Repr - old(Repr)) && latest <= to
      ensures forall g :: RuleOf(rules, g).Some? ==>
                HostOf(g) == UsedByAll(rules[RuleOf(rules, g).value], g, old(HostOf(g)), uses)
      ensures uses == [] ==> forall g :: HostOf(g) == old(HostOf(g))
    {
      for k := 0 to |uses|
        invariant Valid() && Recorded() && fresh(Repr - old(Repr))
        invariant latest <= to && (k < |uses| ==> latest <= uses[k].e.First())
        invariant k == 0 ==> forall g :: HostOf(g) == old(HostOf(g))
        invariant forall g :: RuleOf(rules, g).Some? ==>
                    HostOf(g) == UsedByAll(rules[RuleOf(rules, g).value], g, old(HostOf(g)), uses[..k])
      {
        assert uses[..k + 1][..k] == uses[..k];
        UseOne(uses[k]);
      }
      assert uses[..|uses|] == uses;
    }

    /** The same, as one host sees it. */
    method Rest(h: Host, ghost i: nat, uses: seq<HostUse>, ghost from: int, ghost to: int)
      requires Valid() && Recorded() && latest <= from <= to && UsesOk(rules, uses, from, to)
      requires RuleOf(rules, h) == Some(i)
      modifies this, Repr
      ensures Valid() && Recorded() && fresh(Repr - old(Repr)) && latest <= to
      ensures HostOf(h) == UsedByAll(rules[i], h, old(HostOf(h)), uses)
      ensures uses == [] ==> forall g :: HostOf(g) == old(HostOf(g))
    {
      UseAll(uses, from, to);
    }

    /** Polls every 50 ms or more until a request is let through or the context is done; others(j) is what
        others do to any host after poll j. A host no rule covers passes at once. states are what is known
        about the host before each poll. It ends because the context is done at poll limit, or because
        nobody else uses anything and the host becomes due. */
    method Wait(h: Host, polls: nat -> Poll, cancelled: nat -> bool, others: nat -> seq<HostUse>, ghost limit: nat)
      returns (ok: bool, n: nat, ghost states: seq<HostState>)
      requires Valid() && Recorded() && latest <= polls(0).spaced
      requires var m := RuleOf(rules, h);
               m.Some? ==>
                 && Polling(rules[m.value], polls) && OthersOk(rules, others, polls)
                 && (cancelled(limit) || (rules[m.value].Sane() && NoOthers(others)))
      modifies this, Repr
      ensures Valid() && Recorded() && fresh(Repr - old(Repr))
      ensures !ok ==> cancelled(n)
      ensures var m := RuleOf(rules, h);
              match m
              case None => ok && n == 0
              case Some(i) =>
                && (forall j: nat :: j < n ==> !cancelled(j))
                && |states| == n + 1 && states[0] == old(HostOf(h)) && Waits(rules[i], h, polls, others, states)
                && (HostOf(h), ok) == HostPolled(rules[i], states[n], polls(n))
                && (rules[i].Sane() ==> RefusedInTime(rules[i], polls, states, n))
                && (rules[i].Sane() && NoOthers(others) ==> AllEarly(polls, n, Due(rules[i], states[0])))
                && (rules[i].requestsPerWindow < 1 ==> !ok)
      ensures NoOthers(others) ==> forall g :: g != h ==> HostOf(g) == old(HostOf(g))
    {
      var m := MatchRule(rules, h);
      states := [];
      if m == None {
        return true, 0, states;
      }
      ok, n, states := WaitRuled(h, m.value, polls, cancelled, others, limit);
      WaitSummary(rules[m.value], h, polls, others, states, n);
    }

    /** The loop of Wait. */
    method WaitRuled(h: Host, ghost i: nat, polls: nat -> Poll, cancelled: nat -> bool, others: nat -> seq<HostUse>,
                     ghost limit: nat)
      returns (ok: bool, n: nat, ghost states: seq<HostState>)
      requires Valid() && Recorded() && latest <= polls(0).spaced && RuleOf(rules, h) == Some(i)
      requires Polling(rules[i], polls) && OthersOk(rules, others, polls)
      requires cancelled(limit) || (rules[i].Sane() && NoOthers(others))
      modifies this, Repr
      ensures Valid() && Recorded() && fresh(Repr - old(Repr))
      ensures (!ok ==> cancelled(n)) && forall j: nat :: j < n ==> !cancelled(j)
      ensures |states| == n + 1 && states[0] == old(HostOf(h)) && Waits(rules[i], h, polls, others, states)
      ensures (HostOf(h), ok) == HostPolled(rules[i], states[n], polls(n))
      ensures NoOthers(others) ==> forall g :: g != h ==> HostOf(g) == old(HostOf(g))
    {
      states := [HostOf(h)];
      ghost var due := Due(rules[i], HostOf(h));
      n := 0;
      while true
        invariant Valid() && Recorded() && fresh(Repr - old(Repr)) && latest <= polls(n).spaced
        invariant forall j: nat :: j < n ==> !cancelled(j)
        invariant |states| == n + 1 && states[0] == old(HostOf(h)) && states[n] == HostOf(h)
        invariant Waits(rules[i], h, polls, others, states)
        invariant NoOthers(others) ==> forall g :: g != h ==> HostOf(g) == old(HostOf(g))
        decreases if cancelled(limit) then Max(limit - n + 1, 0) else Max(due - polls(n).spaced, 0)
      {
        ok, states := Round(h, i, polls, others, n, states, cancelled(n));
        if ok || cancelled(n) {
          return;
        }
        Closer(rules[i], h, polls, cancelled, others, limit, states, n);
        n := n + 1;
      }
    }

    /** One poll and, when it is refused and the wait goes on, the sleep after it. */
    method Round(h: Host, ghost i: nat, polls: nat -> Poll, others: nat -> seq<HostUse>, n: nat,
                 ghost states: seq<HostState>, stop: bool)
      returns (ok: bool, ghost more: seq<HostState>)
      requires Valid() && Recorded() && latest <= polls(n).spaced && RuleOf(rules, h) == Some(i)
      requires Polling(rules[i], polls) && OthersOk(rules, others, polls)
      requires |states| == n + 1 && Waits(rules[i], h, polls, others, states) && states[n] == HostOf(h)
      modifies this, Repr
      ensures Valid() && Recorded() && fresh(Repr - old(Repr))
      ensures ok == HostPolled(rules[i], states[n], polls(n)).1
      ensures ok || stop ==> more == states && HostOf(h) == HostPolled(rules[i], states[n], polls(n)).0
      ensures !ok && !stop ==> more == states + [HostOf(h)] && latest <= polls(n + 1).spaced
      ensures Waits(rules[i], h, polls, others, more)
      ensures NoOthers(others) ==> forall g :: g != h ==> HostOf(g) == old(HostOf(g))
    {
      more := states;
      ok := Allow(h, polls(n));
      if !ok && !stop {
        more := AfterRefusal(h, i, polls, others, n, states);
      }
    }

    /** The sleep after a refused poll. */
    method AfterRefusal(h: Host, ghost i: nat, polls: nat -> Poll, others: nat -> seq<HostUse>, n: nat,
                        ghost states: seq<HostState>)
      returns (ghost more: seq<HostState>)
      requires Valid() && Recorded() && latest <= polls(n).done && RuleOf(rules, h) == Some(i)
      requires Polling(rules[i], polls) && OthersOk(rules, others, polls)
      requires |states| == n + 1 && Waits(rules[i], h, polls, others, states)
      requires (HostOf(h), false) == HostPolled(rules[i], states[n], polls(n))
      modifies this, Repr
      ensures Valid() && Recorded() && fresh(Repr - old(Repr)) && latest <= polls(n + 1).spaced
      ensures more == states + [HostOf(h)] && Waits(rules[i], h, polls, others, more)
      ensures NoOthers(others) ==> forall g :: HostOf(g) == old(HostOf(g))
    {
      ghost var left := HostOf(h);
      Rest(h, i, others(n), polls(n).done, polls(n + 1).spaced);
      WaitsNext(rules[i], h, polls, others, states, left, HostOf(h));
      more := states + [HostOf(h)];
    }

    /** Of a live limiter: any two requests it has let through to a host are at least the rule's minimum
        delay and the later one's draw apart, if its delays do not wrap around. */
    lemma AdmissionsApart(h: Host, i: nat, j: nat)
      requires Valid() && Recorded() && RuleOf(rules, h).Some? && i < j < |EventsOf(events, h)|
      requires var rule := rules[RuleOf(rules, h).value];
               rule.SumFits() && Passes(rule, EventsOf(events, h), i) && Passes(rule, EventsOf(events, h), j)
      ensures EventsOf(events, h)[j].p.spaced - EventsOf(events, h)[i].p.done >=
              Distance(rules[RuleOf(rules, h).value], EventsOf(events, h)[j].p)
    {
      assert HostRecorded(h);
      Spaced(rules[RuleOf(rules, h).value], EventsOf(events, h), i, j);
    }

    /** Of a live limiter: no closed interval of one window length has seen more than twice a host's budget. */
    lemma BudgetKept(h: Host, a: int)
      requires Valid() && Recorded() && RuleOf(rules, h).Some?
      ensures var rule := rules[RuleOf(rules, h).value];
              |PassedIn(rule, EventsOf(events, h), a)| <= 2 * Max(rule.requestsPerWindow, 0)
    {
      assert HostRecorded(h);
      HostBudget(rules[RuleOf(rules, h).value], EventsOf(events, h), a);
    }

    /** Of a live limiter: a host it was told about is refused until then, unless told again. */
    lemma MarkedStaysRefused(h: Host, i: nat, j: nat)
      requires Valid() && Recorded() && RuleOf(rules, h).Some? && i < j < |EventsOf(events, h)|
      requires EventsOf(events, h)[i].Mark? && EventsOf(events, h)[j].Request?
      requires Passes(rules[RuleOf(rules, h).value], EventsOf(events, h), j)
      requires EventsOf(events, h)[j].p.r.now < EventsOf(events, h)[i].until
      ensures exists k :: i < k < j && EventsOf(events, h)[k].Mark?
    {
      var uses := EventsOf(events, h);
      if forall k :: i < k < j ==> !uses[k].Mark? {
        MarkedRefuses(rules[RuleOf(rules, h).value], uses, i, j);
      }
    }
  }

  /** One use of one host. */
  datatype HostUse = HostUse(host: Host, e: HostEvent)

  function UsedBy(rule: Rule, g: Host, h: HostState, u: HostUse): HostState {
    if u.host == g then Used(rule, h, u.e) else h
  }

  function UsedByAll(rule: Rule, g: Host, h: HostState, uses: seq<HostUse>): HostState {
    if |uses| == 0 then h
    else UsedBy(rule, g, UsedByAll(rule, g, h, uses[..|uses| - 1]), uses[|uses| - 1])
  }

  /** Uses with good draws, one after the other, between these instants. */
  ghost predicate UsesOk(rules: seq<Rule>, uses: seq<HostUse>, from: int, to: int) {
    && (forall k :: 0 <= k < |uses| ==>
          && uses[k].e.Ordered() && from <= uses[k].e.First() && uses[k].e.Last() <= to
          && (RuleOf(rules, uses[k].host).Some? ==>
                DrawsOk(rules[RuleOf(rules, uses[k].host).value], [uses[k].e])))
    && (forall k, l :: 0 <= k < l < |uses| ==> uses[k].e.Last() <= uses[l].e.First())
  }

  ghost predicate OthersOk(rules: seq<Rule>, others: nat -> seq<HostUse>, polls: nat -> Poll) {
    forall j: nat :: UsesOk(rules, others(j), polls(j).done, polls(j + 1).spaced)
  }

  ghost predicate NoOthers(others: nat -> seq<HostUse>) {
    forall j: nat :: others(j) == []
  }

  /** Every poll but the last is refused, and the next finds what it and the others have left. */
  ghost predicate Waits(rule: Rule, h: Host, polls: nat -> Poll, others: nat -> seq<HostUse>, states: seq<HostState>) {
    && |states| > 0
    && forall j :: 0 <= j < |states| - 1 ==>
         && !HostPolled(rule, states[j], polls(j)).1
         && states[j + 1] == UsedByAll(rule, h, HostPolled(rule, states[j], polls(j)).0, others(j))
  }

  lemma WaitsNext(rule: Rule, h: Host, polls: nat -> Poll, others: nat -> seq<HostUse>, states: seq<HostState>,
                  left: HostState, next: HostState)
    requires Waits(rule, h, polls, others, states)
    requires var n := |states| - 1;
             (left, false) == HostPolled(rule, states[n], polls(n)) && next == UsedByAll(rule, h, left, others(n))
    ensures Waits(rule, h, polls, others, states + [next])
  {
  }

  /** Under a sane rule a poll is refused only before the host is due, as it is at that moment, whatever
      others have done to it. */
  lemma RefusedEarly(rule: Rule, h: Host, polls: nat -> Poll, others: nat -> seq<HostUse>, states: seq<HostState>,
                     j: nat)
    requires rule.Sane() && Polling(rule, polls) && Waits(rule, h, polls, others, states) && j < |states| - 1
    ensures polls(j).spaced < Due(rule, states[j])
  {
    RefusedKeepsDue(rule, states[j], polls(j));
  }

  /** With nobody else using the host, that is before the instant it was due at the start. */
  lemma {:induction false} RefusedBeforeDue(rule: Rule, h: Host, polls: nat -> Poll, others: nat -> seq<HostUse>,
                                            states: seq<HostState>, j: nat)
    requires rule.Sane() && Polling(rule, polls) && Waits(rule, h, polls, others, states) && j < |states|
    requires NoOthers(others)
    ensures Due(rule, states[j]) == Due(rule, states[0])
    ensures j < |states| - 1 ==> polls(j).spaced < Due(rule, states[0])
  {
    if j > 0 {
      RefusedBeforeDue(rule, h, polls, others, states, j - 1);
      RefusedKeepsDue(rule, states[j - 1], polls(j - 1));
    }
    if j < |states| - 1 {
      RefusedEarly(rule, h, polls, others, states, j);
    }
  }

  /** The first n polls all come before due. */
  ghost predicate AllEarly(polls: nat -> Poll, n: nat, due: int) {
    forall j: nat :: j < n ==> polls(j).spaced < due
  }

  /** The first n polls come before the host is due at that moment. */
  ghost predicate RefusedInTime(rule: Rule, polls: nat -> Poll, states: seq<HostState>, n: nat) {
    n <= |states| && forall j: nat :: j < n ==> polls(j).spaced < Due(rule, states[j])
  }

  lemma WaitSummary(rule: Rule, h: Host, polls: nat -> Poll, others: nat -> seq<HostUse>, states: seq<HostState>,
                    n: nat)
    requires Polling(rule, polls) && Waits(rule, h, polls, others, states) && |states| == n + 1
    ensures rule.Sane() ==> RefusedInTime(rule, polls, states, n)
    ensures rule.Sane() && NoOthers(others) ==> AllEarly(polls, n, Due(rule, states[0]))
    ensures rule.requestsPerWindow < 1 ==> !HostPolled(rule, states[n], polls(n)).1
  {
    forall j: nat | j < n && rule.Sane()
      ensures polls(j).spaced < Due(rule, states[j])
      ensures NoOthers(others) ==> polls(j).spaced < Due(rule, states[0])
    {
      RefusedEarly(rule, h, polls, others, states, j);
      if NoOthers(others) {
        RefusedBeforeDue(rule, h, polls, others, states, j);
      }
    }
  }

  /** A refused poll brings the end of the wait closer. */
  lemma Closer(rule: Rule, h: Host, polls: nat -> Poll, cancelled: nat -> bool, others: nat -> seq<HostUse>,
               limit: nat, states: seq<HostState>, n: nat)
    requires Polling(rule, polls) && Waits(rule, h, polls, others, states) && |states| == n + 2
    requires cancelled(limit) || (rule.Sane() && NoOthers(others))
    requires forall j: nat :: j <= n ==> !cancelled(j)
    ensures var due := Due(rule, states[0]);
            if cancelled(limit) then Max(limit - (n + 1) + 1, 0) < Max(limit - n + 1, 0)
            else Max(due - polls(n + 1).spaced, 0) < Max(due - polls(n).spaced, 0)
  {
    if !cancelled(limit) {
      RefusedBeforeDue(rule, h, polls, others, states, n);
      assert polls(n).Ordered();
    }
  }

  const POLL_INTERVAL := 50_000_000

  /** A sequence of calls, each at least 50 ms after the one before has returned. */
  ghost predicate Polling(rule: Rule, polls: nat -> Poll) {
    forall i: nat ::
      polls(i).Ordered() && DrawOk(rule, polls(i)) && polls(i).done + POLL_INTERVAL <= polls(i + 1).spaced
  }

  function Max(a: int, b: int): int {
    if a > b then a else b
  }

  /** From this instant on a request must be let through: the block is over, the window has
      expired and the longest possible spacing has passed. */
  function Due(rule: Rule, h: HostState): int {
    Max(if h.last.Some? then h.last.value + rule.LongestDelay() else ZERO,
        Max(BlockedUntil(h.entry), if h.entry.Some? then h.entry.value.windowStart + rule.window + 1 else ZERO))
  }

  lemma DueAdmits(rule: Rule, h: HostState, p: Poll)
    requires rule.Sane() && p.Ordered() && DrawOk(rule, p) && p.spaced >= Due(rule, h)
    ensures HostPolled(rule, h, p).1
  {
    assert !TooSoon(rule, h, p);
    OpensAgain(h.entry, rule.requestsPerWindow, rule.window, p.r);
  }

  /** A refused request leaves the due time where it was; one refused for spacing leaves the
      window budget untouched as well. */
  lemma RefusedKeepsDue(rule: Rule, h: HostState, p: Poll)
    requires rule.Sane() && p.Ordered() && DrawOk(rule, p) && !HostPolled(rule, h, p).1
    ensures p.spaced < Due(rule, h)
    ensures Due(rule, HostPolled(rule, h, p).0) == Due(rule, h)
    ensures TooSoon(rule, h, p) ==> HostPolled(rule, h, p).0 == h
  {
    if p.spaced >= Due(rule, h) {
      DueAdmits(rule, h, p);
    }
  }

  function Marked(h: HostState, until: Time, created: Instant): HostState {
    h.(entry := Some(Opened(h.entry, created).(blockedUntil := until)))
  }

  /** One use of a host. */
  datatype HostEvent = Request(p: Poll) | Mark(until: Time, created: Instant) {
    predicate Ordered() {
      Request? ==> p.Ordered()
    }

    function First(): Instant {
      if Request? then p.spaced else created
    }

    function Last(): Instant {
      if Request? then p.done else created
    }
  }

  ghost predicate InOrder(events: seq<HostEvent>) {
    && (forall i :: 0 <= i < |events| ==> events[i].Ordered())
    && (forall i, j :: 0 <= i < j < |events| ==> events[i].Last() <= events[j].First())
  }

  function Used(rule: Rule, h: HostState, e: HostEvent): HostState {
    match e
    case Request(p) => HostPolled(rule, h, p).0
    case Mark(until, created) => Marked(h, until, created)
  }

  function HostAfter(rule: Rule, events: seq<HostEvent>): HostState {
    if |events| == 0 then HostState(None, None)
    else
      Used(rule, HostAfter(rule, events[..|events| - 1]), events[|events| - 1])
  }

  function EventsOf(events: map<Host, seq<HostEvent>>, h: Host): seq<HostEvent> {
    if h in events then events[h] else []
  }

  ghost predicate DrawsOk(rule: Rule, events: seq<HostEvent>) {
    forall i :: 0 <= i < |events| && events[i].Request? ==> DrawOk(rule, events[i].p)
  }

  /** In order, and all over by then. */
  ghost predicate Orderly(events: seq<HostEvent>, latest: int) {
    InOrder(events) && forall i :: 0 <= i < |events| ==> events[i].Last() <= latest
  }

  /** These uses, all over by latest, make h what is known about a covered host. */
  ghost predicate Explains(rules: seq<Rule>, host: Host, uses: seq<HostEvent>, h: HostState, latest: int) {
    RuleOf(rules, host).Some? ==>
      var rule := rules[RuleOf(rules, host).value];
      h == HostAfter(rule, uses) && Orderly(uses, latest) && DrawsOk(rule, uses)
  }

  lemma ExplainsNext(rules: seq<Rule>, host: Host, uses: seq<HostEvent>, h: HostState, latest: int, e: HostEvent)
    requires Explains(rules, host, uses, h, latest) && e.Ordered() && latest <= e.First()
    requires RuleOf(rules, host).Some? && DrawsOk(rules[RuleOf(rules, host).value], [e])
    ensures Explains(rules, host, uses + [e], Used(rules[RuleOf(rules, host).value], h, e), e.Last())
  {
    assert [e][0] == e;
  }

  /** Event i is a request that is let through. */
  predicate Passes(rule: Rule, events: seq<HostEvent>, i: nat) {
    i < |events| && events[i].Request? && HostPolled(rule, HostAfter(rule, events[..i]), events[i].p).1
  }

  lemma {:induction false} LastAtLeast(rule: Rule, events: seq<HostEvent>, i: nat)
    requires InOrder(events) && i < |events| && Passes(rule, events, i)
    ensures var h := HostAfter(rule, events);
            h.last.Some? && events[i].p.done <= h.last.value <= events[|events| - 1].Last()
    decreases |events|
  {
    var front, last := events[..|events| - 1], |events| - 1;
    if i < last {
      assert front[..i] == events[..i];
      LastAtLeast(rule, front, i);
      assert front[|front| - 1] == events[last - 1];
    } else {
      assert events[..i] == front;
    }
  }

  /** What a request must keep its distance by: the minimum delay and, with a random one, its draw. */
  function Distance(rule: Rule, p: Poll): int {
    rule.minDelay + if rule.randomDelay > 0 then p.draw else 0
  }

  /** Two requests let through to one host are at least that apart, whatever came between, if no delay
      wraps around. */
  lemma Spaced(rule: Rule, events: seq<HostEvent>, i: nat, j: nat)
    requires rule.SumFits() && DrawsOk(rule, events) && InOrder(events) && i < j < |events|
    requires Passes(rule, events, i) && Passes(rule, events, j)
    ensures events[j].p.done - events[i].p.done >= events[j].p.spaced - events[i].p.done
            >= Distance(rule, events[j].p) >= rule.minDelay
  {
    var before := events[..j];
    assert before[..i] == events[..i] && before[i] == events[i] && before[|before| - 1] == events[j - 1];
    LastAtLeast(rule, before, i);
    assert DrawOk(rule, events[j].p);
  }

  /** A mark is what counts as the block until the next mark. */
  lemma {:induction false} BlockLasts(rule: Rule, events: seq<HostEvent>, i: nat)
    requires i < |events| && events[i].Mark? && forall k :: i < k < |events| ==> events[k].Request?
    ensures BlockedUntil(HostAfter(rule, events).entry) == events[i].until
    decreases |events|
  {
    if i < |events| - 1 {
      BlockLasts(rule, events[..|events| - 1], i);
    }
  }

  /** A marked host is refused until then, unless marked again: no request between is let through. */
  lemma MarkedRefuses(rule: Rule, events: seq<HostEvent>, i: nat, j: nat)
    requires i < j < |events| && events[i].Mark? && forall k :: i < k <= j ==> events[k].Request?
    requires events[j].p.r.now < events[i].until
    ensures !Passes(rule, events, j)
  {
    BlockLasts(rule, events[..j], i);
  }

  // ---- A host's budget ----

  /** What one use asks of the host's own store: nothing when it is too soon or blocked. */
  function OpsFrom(rule: Rule, h: HostState, e: HostEvent): seq<Op> {
    match e
    case Mark(until, created) => [Block(created, until)]
    case Request(p) =>
      if TooSoon(rule, h, p) || p.r.now < BlockedUntil(h.entry) then []
      else [Inc(p.r.created, p.r.later, rule.requestsPerWindow)]
  }

  function OpsMade(rule: Rule, events: seq<HostEvent>): seq<Op> {
    if |events| == 0 then []
    else
      var front := events[..|events| - 1];
      OpsMade(rule, front) + OpsFrom(rule, HostAfter(rule, front), events[|events| - 1])
  }

  lemma {:induction false} EntryFromOps(rule: Rule, events: seq<HostEvent>)
    ensures HostAfter(rule, events).entry == After(OpsMade(rule, events), rule.window)
  {
    if |events| > 0 {
      var front, e := events[..|events| - 1], events[|events| - 1];
      EntryFromOps(rule, front);
      var ops, more := OpsMade(rule, front), OpsFrom(rule, HostAfter(rule, front), e);
      if more == [] {
        assert ops + more == ops;
      } else {
        assert (ops + more)[..|ops|] == ops;
      }
    }
  }

  lemma {:induction false} OpsOrdered(rule: Rule, events: seq<HostEvent>, c: nat)
    requires InOrder(events) && rule.requestsPerWindow <= c
    ensures Monotone(OpsMade(rule, events)) && CapsAtMost(OpsMade(rule, events), c)
    ensures |events| > 0 ==>
              forall k :: 0 <= k < |OpsMade(rule, events)| ==>
                OpsMade(rule, events)[k].At() <= events[|events| - 1].Last()
  {
    if |events| > 0 {
      var front, e := events[..|events| - 1], events[|events| - 1];
      OpsOrdered(rule, front, c);
      assert e.Ordered();
      assert |front| > 0 ==> front[|front| - 1].Ordered() && front[|front| - 1].Last() <= e.First();
    }
  }

  /** Requests let through whose count was taken at an instant of the closed interval that starts at a. */
  ghost function PassedIn(rule: Rule, events: seq<HostEvent>, a: int): set<nat> {
    set i | 0 <= i < |events| && Passes(rule, events, i) && a <= events[i].p.r.later <= a + rule.window
  }

  /** The last event is one of them. */
  predicate LastPassedIn(rule: Rule, events: seq<HostEvent>, a: int) {
    |events| > 0 && Passes(rule, events, |events| - 1) && a <= events[|events| - 1].p.r.later <= a + rule.window
  }

  lemma PassedStep(rule: Rule, events: seq<HostEvent>, a: int)
    requires |events| > 0
    ensures |PassedIn(rule, events, a)| ==
            |PassedIn(rule, events[..|events| - 1], a)| + if LastPassedIn(rule, events, a) then 1 else 0
  {
    var front, last := events[..|events| - 1], |events| - 1;
    forall i | 0 <= i < last
      ensures front[..i] == events[..i] && front[i] == events[i]
    {
    }
    assert PassedIn(rule, events, a) ==
           PassedIn(rule, front, a) + if LastPassedIn(rule, events, a) then {last} else {};
  }

  predicate LastAdmittedIn(ops: seq<Op>, window: Duration, a: int) {
    |ops| > 0 && Admitted(ops, window, |ops| - 1) && a <= ops[|ops| - 1].now <= a + window
  }

  lemma AdmittedInSnoc(front: seq<Op>, op: Op, window: Duration, a: int)
    ensures AdmittedIn(front + [op], window, a) ==
            AdmittedIn(front, window, a) + if LastAdmittedIn(front + [op], window, a) then {|front|} else {}
  {
    var ops := front + [op];
    forall i | 0 <= i < |front|
      ensures front[..i + 1] == ops[..i + 1] && front[i] == ops[i]
    {
    }
  }

  lemma AdmittedSnoc(ops: seq<Op>, op: Op, window: Duration, a: int)
    ensures |AdmittedIn(ops + [op], window, a)| ==
            |AdmittedIn(ops, window, a)| + if LastAdmittedIn(ops + [op], window, a) then 1 else 0
  {
    AdmittedInSnoc(ops, op, window, a);
    assert |ops| !in AdmittedIn(ops, window, a);
  }

  lemma AdmittedStep(rule: Rule, events: seq<HostEvent>, a: int)
    requires |events| > 0
    ensures |AdmittedIn(OpsMade(rule, events), rule.window, a)| ==
            |AdmittedIn(OpsMade(rule, events[..|events| - 1]), rule.window, a)|
            + if LastPassedIn(rule, events, a) then 1 else 0
  {
    var front, last := events[..|events| - 1], |events| - 1;
    var ops, more := OpsMade(rule, front), OpsFrom(rule, HostAfter(rule, front), events[last]);
    if more == [] {
      assert ops + more == ops;
    } else {
      AdmittedSnoc(ops, more[0], rule.window, a);
      LastPasses(rule, events);
    }
  }

  /** As many requests are let through as the store admits. */
  lemma {:induction false} PassedAreAdmitted(rule: Rule, events: seq<HostEvent>, a: int)
    ensures |PassedIn(rule, events, a)| == |AdmittedIn(OpsMade(rule, events), rule.window, a)|
  {
    if |events| > 0 {
      PassedAreAdmitted(rule, events[..|events| - 1], a);
      PassedStep(rule, events, a);
      AdmittedStep(rule, events, a);
    }
  }

  lemma LastPasses(rule: Rule, events: seq<HostEvent>)
    requires |events| > 0
    ensures var front, last := events[..|events| - 1], |events| - 1;
            OpsFrom(rule, HostAfter(rule, front), events[last]) != [] ==>
              (Passes(rule, events, last) <==> Admitted(OpsMade(rule, events), rule.window, |OpsMade(rule, front)|))
  {
    var front, e := events[..|events| - 1], events[|events| - 1];
    var before, more := OpsMade(rule, front), OpsFrom(rule, HostAfter(rule, front), e);
    if more != [] {
      EntryFromOps(rule, front);
      var ops := before + more;
      assert ops[..|ops| - 1] == before && ops[..|ops|] == ops && ops[|ops| - 1] == more[0];
      if e.Request? {
        assert After(ops, rule.window) ==
               Some(Incremented(After(before, rule.window), rule.window, e.p.r.created, e.p.r.later));
      }
    }
  }

  /** However its requests are spaced and marked, any closed interval of one window length sees at most twice
      the rule's budget of them let through. */
  lemma HostBudget(rule: Rule, events: seq<HostEvent>, a: int)
    requires InOrder(events)
    ensures |PassedIn(rule, events, a)| <= 2 * Max(rule.requestsPerWindow, 0)
  {
    OpsOrdered(rule, events, Max(rule.requestsPerWindow, 0));
    PassedAreAdmitted(rule, events, a);
    IntervalBound(OpsMade(rule, events), rule.window, a, Max(rule.requestsPerWindow, 0));
  }

  // ---- When the minimum delay is kept ----

  ghost predicate AlwaysSpaced(rule: Rule) {
    forall events: seq<HostEvent>, i: nat, j: nat ::
      (InOrder(events) && DrawsOk(rule, events) && i < j < |events|
       && Passes(rule, events, i) && Passes(rule, events, j))
      ==> events[j].p.done - events[i].p.done >= rule.minDelay
  }

  /** Without expiry a window that has let one request through is used up for a budget of one. */
  lemma {:induction false} OncePerWindow(rule: Rule, events: seq<HostEvent>, i: nat)
    requires rule.requestsPerWindow == 1 && rule.window == MAX_DURATION && i < |events| && Passes(rule, events, i)
    ensures var h := HostAfter(rule, events); h.entry.Some? && h.entry.value.count >= 1
    decreases |events|
  {
    var front, last := events[..|events| - 1], |events| - 1;
    if i < last {
      assert front[..i] == events[..i];
      OncePerWindow(rule, front, i);
    } else {
      assert events[..i] == front;
    }
  }

  lemma NeverTwice(rule: Rule, events: seq<HostEvent>, i: nat, j: nat)
    requires rule.requestsPerWindow == 1 && rule.window == MAX_DURATION && i < j < |events|
    requires Passes(rule, events, i)
    ensures !Passes(rule, events, j)
  {
    var before := events[..j];
    assert before[..i] == events[..i] && before[i] == events[i];
    OncePerWindow(rule, before, i);
  }

  /** Two requests at the same instant, the first one's limiter call long enough before. */
  function Twice(rule: Rule): seq<HostEvent>
    requires rule.randomDelay > 0
  {
    var s := MAX_DURATION + 1;
    var d := s + (if rule.window > 0 then rule.window else 0) + 1;
    [Request(Poll(s, Readings(s, s, s), d, rule.randomDelay - 1)),
     Request(Poll(d, Readings(d, d, d), d, rule.randomDelay - 1))]
  }

  lemma TwicePasses(rule: Rule)
    requires !rule.SumFits() && rule.minDelay > 0 && rule.requestsPerWindow >= 1
    requires rule.requestsPerWindow >= 2 || rule.window < MAX_DURATION
    ensures var events := Twice(rule);
            && InOrder(events) && DrawsOk(rule, events) && Passes(rule, events, 0) && Passes(rule, events, 1)
            && events[1].p.done == events[0].p.done
  {
    var events := Twice(rule);
    assert events[..0] == [] && events[..1][..0] == [];
    assert HostAfter(rule, events[..0]) == HostState(None, None);
    assert Delay(rule, events[1].p) < 0;
    assert HostAfter(rule, events[..1]) == HostPolled(rule, HostState(None, None), events[0].p).0;
  }

  /** A minimum delay is kept in every history exactly when it is none, no delay can wrap around, or the
      budget alone never lets two requests through. */
  lemma SpacedExactly(rule: Rule)
    ensures AlwaysSpaced(rule) <==>
            || rule.minDelay <= 0 || rule.SumFits() || rule.requestsPerWindow < 1
            || (rule.requestsPerWindow == 1 && rule.window == MAX_DURATION)
  {
    if rule.minDelay <= 0 || rule.SumFits() || rule.requestsPerWindow < 1
       || (rule.requestsPerWindow == 1 && rule.window == MAX_DURATION) {
      forall events: seq<HostEvent>, i: nat, j: nat |
        InOrder(events) && DrawsOk(rule, events) && i < j < |events|
        && Passes(rule, events, i) && Passes(rule, events, j)
        ensures events[j].p.done - events[i].p.done >= rule.minDelay
      {
        if rule.SumFits() {
          Spaced(rule, events, i, j);
        } else if rule.requestsPerWindow == 1 && rule.window == MAX_DURATION {
          NeverTwice(rule, events, i, j);
        }
      }
    } else {
      TwicePasses(rule);
    }
  }
}

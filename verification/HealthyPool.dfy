/** A fixed proxy rotation (proxypool/static.go) under a per-proxy health filter
    (proxypool/healthy.go, proxypool/healthstore.go). Times are whole nanoseconds, 0 is the zero
    time; the rotation counter does not wrap; rates are float64, counts below 2^53. */
module HealthyPool {
  import opened Clock
  import opened Rotation
  import opened Float64

  type Proxy = string

  datatype ProxyHealth = ProxyHealth(
    successes: nat,
    failures: nat,
    totalLatency: int,
    lastUsed: Time,
    deactivateAt: Time)
  {
    function Total(): nat {
      successes + failures
    }

    function SuccessRate(): real {
      if Total() == 0 then 1.0 else Nearest(successes as real / Total() as real)
    }
  }

  const UNSEEN := ProxyHealth(0, 0, 0, ZERO, ZERO)

  datatype Config = Config(failureThreshold: real, minRequests: int, cooldown: Duration)

  /** NewHealthyPool's defaults for values that are not positive. */
  function WithDefaults(c: Config): (r: Config)
    ensures r.failureThreshold > 0.0 && r.minRequests >= 1 && r.cooldown > 0
    ensures c.failureThreshold > 0.0 && c.minRequests >= 1 && c.cooldown > 0 <==> r == c
  {
    Config(
      if c.failureThreshold <= 0.0 then 0.5 else c.failureThreshold,
      if c.minRequests <= 0 then 3 else c.minRequests,
      if c.cooldown <= 0 then 300_000_000_000 else c.cooldown)
  }

  class Static {
    const proxies: seq<Proxy>
    var counter: nat

    constructor (proxies: seq<Proxy>)
      ensures this.proxies == proxies && counter == 0
    {
      this.proxies, counter := proxies, 0;
    }

    method Next() returns (proxy: Proxy)
      modifies this
      ensures |proxies| == 0 ==> proxy == "" && counter == old(counter)
      ensures |proxies| > 0 ==> counter == old(counter) + 1 && proxy == proxies[counter % |proxies|]
    {
      if |proxies| == 0 {
        return "";
      }
      counter := counter + 1;
      proxy := proxies[counter % |proxies|];
    }
  }

  class MemoryHealthStore {
    var data: map<Proxy, ProxyHealth>

    constructor ()
      ensures data == map[]
    {
      data := map[];
    }

    method Get(proxy: Proxy) returns (h: ProxyHealth, ok: bool)
      ensures ok == (proxy in data) && h == Health(data, proxy)
    {
      if proxy in data {
        return data[proxy], true;
      }
      return UNSEEN, false;
    }

    method Set(proxy: Proxy, h: ProxyHealth)
      modifies this
      ensures data == old(data)[proxy := h]
    {
      data := data[proxy := h];
    }
  }

  function Health(data: map<Proxy, ProxyHealth>, proxy: Proxy): ProxyHealth {
    if proxy in data then data[proxy] else UNSEEN
  }

  predicate CoolingDown(h: ProxyHealth, cooldown: Duration, now: Time) {
    h.deactivateAt != ZERO && now <= h.deactivateAt + cooldown
  }

  /** A deactivated proxy whose cooldown is over starts afresh; its latency sum stays. */
  function Reactivated(h: ProxyHealth, cooldown: Duration, now: Time): ProxyHealth {
    if h.deactivateAt != ZERO && now > h.deactivateAt + cooldown
    then h.(deactivateAt := ZERO, successes := 0, failures := 0) else h
  }

  function Succeeded(h: ProxyHealth, latency: int, now: Time): ProxyHealth {
    h.(successes := h.successes + 1, totalLatency := h.totalLatency + latency, lastUsed := now)
  }

  /** rate < 1 - threshold, in float64. Beyond a threshold of one the right side is negative. */
  predicate BelowComplement(rate: real, threshold: real) {
    threshold <= 1.0 && rate < Nearest(1.0 - threshold)
  }

  /** The stored counts call for deactivation. */
  predicate Unhealthy(h: ProxyHealth, c: Config) {
    h.Total() >= c.minRequests && BelowComplement(h.SuccessRate(), c.failureThreshold)
  }

  /** now and marked are the readings stored as last use and, if it comes to that, deactivation. */
  function FailedOnce(h: ProxyHealth, latency: int, c: Config, now: Time, marked: Time): ProxyHealth {
    var g := h.(failures := h.failures + 1, totalLatency := h.totalLatency + latency, lastUsed := now);
    if Unhealthy(g, c) then g.(deactivateAt := marked) else g
  }

  /** The fraction of failed requests, exactly. */
  function FailureRate(h: ProxyHealth): (r: real)
    requires h.Total() > 0
    ensures 0.0 <= r <= 1.0
  {
    Quotient(h.failures, h.Total());
    h.failures as real / h.Total() as real
  }

  lemma Fractions(h: ProxyHealth)
    requires h.Total() > 0
    ensures h.successes as real / h.Total() as real == 1.0 - FailureRate(h)
  {
    var n := h.Total();
    var p, q := h.successes as real / n as real, h.failures as real / n as real;
    Quotient(h.successes, n);
    Quotient(h.failures, n);
    SumToOne(p, q, n as real, h.successes as real, h.failures as real);
  }

  lemma SumToOne(p: real, q: real, t: real, a: real, b: real)
    requires t > 0.0 && p * t == a && q * t == b && a + b == t
    ensures p + q == 1.0
  {
    var d := p + q - 1.0;
    assert d * t == 0.0;
  }

  lemma Quotient(a: nat, b: nat)
    requires b > 0
    ensures a as real / b as real * b as real == a as real
    ensures a as real / b as real >= 0.0
    ensures a <= b ==> a as real / b as real <= 1.0
  {
    var q := a as real / b as real;
    assert q < 0.0 ==> q * b as real < 0.0;
    assert q > 1.0 ==> (q - 1.0) * b as real > 0.0;
  }

  /** Over any threshold, enough requests and strictly more failures than it are needed; they are
      also enough, except when the success rate and the threshold's complement round to the same
      float64. */
  lemma UnhealthyExactly(h: ProxyHealth, c: Config)
    requires h.Total() > 0
    ensures Unhealthy(h, c) <==>
            && h.Total() >= c.minRequests && FailureRate(h) > c.failureThreshold
            && Nearest(1.0 - FailureRate(h)) != Nearest(1.0 - c.failureThreshold)
  {
    Fractions(h);
    var x := 1.0 - FailureRate(h);
    if c.failureThreshold <= 1.0 {
      var y := 1.0 - c.failureThreshold;
      if x < y {
        NearestMonotone(x, y);
      } else {
        NearestMonotone(y, x);
      }
    }
  }

  /** a / b and m / d, when different, are at least 1 / (b * d) apart. */
  lemma FractionsApart(a: nat, b: nat, m: nat, d: nat, x: real, y: real)
    requires b > 0 && d > 0 && x * b as real == a as real && y * d as real == m as real && x < y
    ensures (y - x) * (b * d) as real >= 1.0
  {
    var p, q, bd := b as real, d as real, (b * d) as real;
    assert bd == p * q;
    assert y * bd == (y * q) * p && x * bd == (x * p) * q;
    assert (y - x) * bd == m as real * p - a as real * q;
    assert (m * b - a * d) as real == m as real * p - a as real * q;
    assert (y - x) * bd > 0.0;
  }

  lemma Scaled(x: real, y: real, k: real)
    requires k > 0.0 && x <= y
    ensures x * k <= y * k
  {
    assert (y - x) * k >= 0.0;
  }

  lemma WideGap(gap: real, bd: real)
    requires 0.0 < bd < 2.0 * GRID && gap * bd >= 1.0
    ensures gap > 0.5 / GRID
  {
    var half := 0.5 / GRID;
    assert half * bd < 1.0;
    if gap <= half {
      Scaled(gap, half, bd);
    }
  }

  lemma StaysBelow(r: real, x: real, y: real, bd: real)
    requires r <= x + 0.5 / GRID && 0.0 < bd < 2.0 * GRID && (y - x) * bd >= 1.0
    ensures r < y
  {
    WideGap(y - x, bd);
  }

  lemma RoundsBelow(a: nat, b: nat, m: nat, d: nat, x: real, y: real)
    requires 0 < b && 0 < d && a <= b && m <= d && x == a as real / b as real && y == m as real / d as real
    requires x < y && (b * d) as real < 2.0 * GRID
    ensures Nearest(x) < y
  {
    Quotient(a, b);
    Quotient(m, d);
    FractionsApart(a, b, m, d, x, y);
    assert b * d > 0;
    NearestNear(x);
    StaysBelow(Nearest(x), x, y, (b * d) as real);
  }

  /** When the threshold's complement m / d is itself a float64, as for the default of one half,
      and fewer than 2^54 / d requests are counted, rounding plays no part. */
  lemma UnhealthyAtExactThresholds(h: ProxyHealth, c: Config, m: nat, d: nat)
    requires h.Total() > 0 && d > 0 && m <= d && 1.0 - c.failureThreshold == m as real / d as real
    requires Nearest(m as real / d as real) == m as real / d as real
    requires (h.Total() * d) as real < 2.0 * GRID
    ensures Unhealthy(h, c) <==> h.Total() >= c.minRequests && FailureRate(h) > c.failureThreshold
  {
    Fractions(h);
    UnhealthyExactly(h, c);
    if FailureRate(h) > c.failureThreshold {
      RoundsBelow(h.successes, h.Total(), m, d, 1.0 - FailureRate(h), 1.0 - c.failureThreshold);
    }
  }

  /** "At which" is not so: two failures of four do not reach a threshold of one half. */
  lemma AtHalfNotDeactivated(c: Config)
    requires c.failureThreshold == 0.5
    ensures !Unhealthy(UNSEEN.(successes := 2, failures := 2), c)
  {
    UnhealthyExactly(UNSEEN.(successes := 2, failures := 2), c);
  }

  lemma SevenTenths()
    ensures Nearest(0.7) == 6305039478318694.0 / GRID
  {
  }

  lemma ThreeTenths()
    ensures Nearest(0.3) == 2702159776422297.5 / GRID
  {
    assert Nearest(0.6) == 5404319552844595.0 / GRID;
  }

  /** The float64 nearest to 0.7 lies below it, so seven failures of ten deactivate. */
  lemma SevenOfTen(c: Config)
    requires c.failureThreshold == Nearest(0.7) && c.minRequests <= 10
    ensures Unhealthy(UNSEEN.(successes := 3, failures := 7), c)
  {
    SevenTenths();
    ThreeTenths();
    NearestNear(2.0 * (1.0 - Nearest(0.7)));
  }

  /** So does the one nearest to 0.3, and three failures of ten are more than that, but they do not
      deactivate: the success rate and the complement round to the same float64. */
  lemma ThreeOfTen(c: Config)
    requires c.failureThreshold == Nearest(0.3)
    ensures var h := UNSEEN.(successes := 7, failures := 3);
            !Unhealthy(h, c) && FailureRate(h) > c.failureThreshold
  {
    SevenTenths();
    ThreeTenths();
    assert Nearest(1.0 - Nearest(0.3)) == Nearest(0.7);
  }

  /** The locked look at one proxy: the records afterwards, and whether it may be used. */
  function Looked(data: map<Proxy, ProxyHealth>, proxy: Proxy, cooldown: Duration, now: Time)
    : (map<Proxy, ProxyHealth>, bool)
  {
    if proxy !in data then (data, true)
    else
      var h := data[proxy];
      if h.deactivateAt != ZERO && now > h.deactivateAt + cooldown
      then (data[proxy := Reactivated(h, cooldown, now)], true)
      else (data, h.deactivateAt == ZERO)
  }

  /** A look refuses exactly a proxy that is cooling down, and changes at most its own record. */
  lemma LookedExactly(data: map<Proxy, ProxyHealth>, proxy: Proxy, cooldown: Duration, now: Time, p: Proxy)
    ensures Looked(data, proxy, cooldown, now).1 <==> !CoolingDown(Health(data, proxy), cooldown, now)
    ensures Looked(data, proxy, cooldown, now).1 <==>
            proxy !in data || data[proxy].deactivateAt == ZERO || now - data[proxy].deactivateAt > cooldown
    ensures var after := Looked(data, proxy, cooldown, now).0;
            Health(after, p) == if p == proxy then Reactivated(Health(data, p), cooldown, now) else Health(data, p)
    ensures CoolingDown(Health(data, proxy), cooldown, now) ==> Looked(data, proxy, cooldown, now).0 == data
  {
  }

  /** What can happen to one proxy's record. */
  datatype Event =
    | Success(latency: int, now: Time)
    | Failure(latency: int, now: Time, marked: Time)
    | LookedAt(now: Time)

  function Applied(h: ProxyHealth, c: Config, e: Event): ProxyHealth {
    match e
    case Success(latency, now) => Succeeded(h, latency, now)
    case Failure(latency, now, marked) => FailedOnce(h, latency, c, now, marked)
    case LookedAt(now) => Reactivated(h, c.cooldown, now)
  }

  function HealthAfter(h: ProxyHealth, c: Config, events: seq<Event>): ProxyHealth {
    if |events| == 0 then h
    else Applied(HealthAfter(h, c, events[..|events| - 1]), c, events[|events| - 1])
  }

  lemma AfterEvent(h: ProxyHealth, c: Config, events: seq<Event>, e: Event)
    ensures HealthAfter(h, c, events + [e]) == Applied(HealthAfter(h, c, events), c, e)
  {
    assert (events + [e])[..|events|] == events;
  }

  function HistoryOf(history: map<Proxy, seq<Event>>, proxy: Proxy): seq<Event> {
    if proxy in history then history[proxy] else []
  }

  class HealthyProxyPool {
    const pool: Static
    const config: Config
    const store: MemoryHealthStore
    /** What has happened to each proxy's record so far. */
    ghost var history: map<Proxy, seq<Event>>

    ghost predicate Valid()
      reads this`history, store
    {
      forall p :: RecordValid(p)
    }

    ghost predicate RecordValid(p: Proxy)
      reads this`history, store
    {
      Health(store.data, p) == HealthAfter(UNSEEN, config, HistoryOf(history, p))
    }

    constructor (pool: Static, cfg: Config)
      ensures this.pool == pool && config == WithDefaults(cfg)
      ensures fresh(store) && store.data == map[] && Valid() && history == map[]
    {
      this.pool, config := pool, WithDefaults(cfg);
      store := new MemoryHealthStore();
      history := map[];
    }

    /** Adds to one proxy's history what has just been done to its record. */
    ghost method Note(proxy: Proxy, e: Event)
      requires forall p :: p != proxy ==> RecordValid(p)
      requires Health(store.data, proxy) == HealthAfter(UNSEEN, config, HistoryOf(history, proxy) + [e])
      modifies this`history
      ensures Valid() && history == old(history)[proxy := HistoryOf(old(history), proxy) + [e]]
    {
      history := history[proxy := HistoryOf(history, proxy) + [e]];
      forall p
        ensures RecordValid(p)
      {
        assert p != proxy ==> old(RecordValid(p));
      }
    }

    /** The rotation's k-th proxy from here on is cooling down. */
    ghost predicate CoolingAt(c: nat, k: nat, data: map<Proxy, ProxyHealth>, now: Time)
      requires |pool.proxies| > 0
    {
      CoolingDown(Health(data, pool.proxies[(c + 1 + k) % |pool.proxies|]), config.cooldown, now)
    }

    /** The locked section of one round of Next. */
    method Look(proxy: Proxy, now: Instant) returns (usable: bool)
      requires Valid()
      modifies store, this`history
      ensures (store.data, usable) == Looked(old(store.data), proxy, config.cooldown, now)
      ensures Valid()
      ensures history == if usable then old(history)[proxy := HistoryOf(old(history), proxy) + [LookedAt(now)]]
                         else old(history)
    {
      ghost var before := store.data;
      assert RecordValid(proxy);
      var h, exists_ := store.Get(proxy);
      usable := h.deactivateAt == ZERO;
      if exists_ && h.deactivateAt != ZERO && now > h.deactivateAt + config.cooldown {
        h := h.(deactivateAt := ZERO, successes := 0, failures := 0);
        store.Set(proxy, h);
        usable := true;
      }
      if usable {
        AfterEvent(UNSEEN, config, HistoryOf(history, proxy), LookedAt(now));
        forall p | p != proxy
          ensures RecordValid(p)
        {
          assert old(RecordValid(p));
        }
        Note(proxy, LookedAt(now));
      }
    }

    /** One call at a time: returns the first proxy of one full rotation that is not cooling down,
        lifting its deactivation, or else simply the next proxy of the rotation. */
    method Next(now: Instant) returns (proxy: Proxy, ghost steps: nat)
      requires Valid()
      modifies pool, store, this`history
      ensures Valid()
      ensures |pool.proxies| == 0 ==> proxy == "" && store.data == old(store.data)
      ensures |pool.proxies| > 0 ==>
                && steps <= |pool.proxies| && pool.counter == old(pool.counter) + 1 + steps
                && proxy == pool.proxies[pool.counter % |pool.proxies|]
                && (forall k: nat :: k < steps ==> CoolingAt(old(pool.counter), k, old(store.data), now))
                && (steps < |pool.proxies| ==>
                      && !CoolingAt(old(pool.counter), steps, old(store.data), now)
                      && store.data == Looked(old(store.data), proxy, config.cooldown, now).0)
                && (steps == |pool.proxies| ==> store.data == old(store.data))
    {
      var poolLen := |pool.proxies|;
      ghost var before := store.data;
      steps := 0;
      for i := 0 to poolLen
        invariant steps == i && pool.counter == old(pool.counter) + i && store.data == before && Valid()
        invariant forall k: nat :: k < i ==> CoolingAt(old(pool.counter), k, before, now)
      {
        proxy := pool.Next();
        LookedExactly(before, proxy, config.cooldown, now, proxy);
        var usable := Look(proxy, now);
        if usable {
          return;
        }
        steps := steps + 1;
      }
      proxy := pool.Next();
    }

    method RecordSuccess(proxy: Proxy, latency: int, now: Instant)
      requires Valid()
      modifies store, this`history
      ensures Valid() && history == old(history)[proxy := HistoryOf(old(history), proxy) + [Success(latency, now)]]
      ensures store.data == old(store.data)[proxy := Succeeded(Health(old(store.data), proxy), latency, now)]
    {
      assert RecordValid(proxy);
      var h, _ := store.Get(proxy);
      h := h.(successes := h.successes + 1, totalLatency := h.totalLatency + latency, lastUsed := now);
      store.Set(proxy, h);
      AfterEvent(UNSEEN, config, HistoryOf(history, proxy), Success(latency, now));
      forall p | p != proxy
        ensures RecordValid(p)
      {
        assert old(RecordValid(p));
      }
      Note(proxy, Success(latency, now));
    }

    method RecordFailure(proxy: Proxy, latency: int, now: Instant, marked: Instant)
      requires Valid()
      modifies store, this`history
      ensures Valid()
      ensures history == old(history)[proxy := HistoryOf(old(history), proxy) + [Failure(latency, now, marked)]]
      ensures store.data ==
              old(store.data)[proxy := FailedOnce(Health(old(store.data), proxy), latency, config, now, marked)]
    {
      assert RecordValid(proxy);
      var h, _ := store.Get(proxy);
      h := h.(failures := h.failures + 1, totalLatency := h.totalLatency + latency, lastUsed := now);
      var total := h.successes + h.failures;
      if total >= config.minRequests && BelowComplement(h.SuccessRate(), config.failureThreshold) {
        h := h.(deactivateAt := marked);
      }
      store.Set(proxy, h);
      AfterEvent(UNSEEN, config, HistoryOf(history, proxy), Failure(latency, now, marked));
      forall p | p != proxy
        ensures RecordValid(p)
      {
        assert old(RecordValid(p));
      }
      Note(proxy, Failure(latency, now, marked));
    }

    /** Of a live pool: a proxy that is deactivated now and was reactivated by event i of its history
        has had at least minRequests outcomes recorded since. */
    lemma DeactivatedSince(proxy: Proxy, i: nat)
      requires Valid() && i < |HistoryOf(history, proxy)| && HistoryOf(history, proxy)[i].LookedAt?
      requires HealthAfter(UNSEEN, config, HistoryOf(history, proxy)[..i]).deactivateAt != ZERO
      requires HealthAfter(UNSEEN, config, HistoryOf(history, proxy)[..i + 1]).deactivateAt == ZERO
      requires Health(store.data, proxy).deactivateAt != ZERO
      ensures Outcomes(HistoryOf(history, proxy)[i + 1..]) >= config.minRequests
    {
      var events := HistoryOf(history, proxy);
      assert RecordValid(proxy);
      assert events[..|events|] == events && events[i + 1..|events|] == events[i + 1..];
      ReactivationLasts(UNSEEN, config, events, i, |events|);
    }

    /** Of a live pool: each record holds the outcomes since event i - 1 of its history, if that is the last
        reactivation, or all of them if there was none. */
    lemma RecordsOutcomes(proxy: Proxy, i: nat)
      requires Valid() && LastReactivation(config, HistoryOf(history, proxy), i)
      ensures var h, events := Health(store.data, proxy), HistoryOf(history, proxy);
              && h.successes == Successes(events[i..]) && h.failures == Failures(events[i..])
              && h.deactivateAt == LastMark(config, events[i..])
              && h.totalLatency == Latencies(events) && h.lastUsed == LastUse(events)
    {
      assert RecordValid(proxy);
      CountedSince(config, HistoryOf(history, proxy), i);
      Totals(config, HistoryOf(history, proxy));
    }

    /** A full rotation meets every listed proxy, so a proxy that is cooling down is handed out
        only when every listed one is. */
    lemma CoolingOnlyWhenAllAre(c: nat, steps: nat, data: map<Proxy, ProxyHealth>, now: Time)
      requires |pool.proxies| > 0 && steps <= |pool.proxies|
      requires forall k: nat :: k < steps ==> CoolingAt(c, k, data, now)
      requires steps < |pool.proxies| ==> !CoolingAt(c, steps, data, now)
      ensures CoolingDown(Health(data, pool.proxies[(c + 1 + steps) % |pool.proxies|]), config.cooldown, now) <==>
              forall p :: 0 <= p < |pool.proxies| ==> CoolingDown(Health(data, pool.proxies[p]), config.cooldown, now)
    {
      var n := |pool.proxies|;
      if steps == n {
        forall p | 0 <= p < n
          ensures CoolingDown(Health(data, pool.proxies[p]), config.cooldown, now)
        {
          var k := Distance((c + 1) % n, p, n);
          CountsRound(c + 1, k, n);
          assert CoolingAt(c, k, data, now);
        }
      }
    }
  }

  /** Outcomes recorded among the events. */
  function Outcomes(events: seq<Event>): (n: nat) {
    if |events| == 0 then 0
    else Outcomes(events[..|events| - 1]) + (if events[|events| - 1].LookedAt? then 0 else 1)
  }

  /** A proxy that starts afresh is deactivated again only after minRequests outcomes. */
  lemma {:induction false} FreshStartLasts(h: ProxyHealth, c: Config, events: seq<Event>)
    requires h.deactivateAt == ZERO && h.Total() == 0
    ensures HealthAfter(h, c, events).Total() <= Outcomes(events)
    ensures HealthAfter(h, c, events).deactivateAt != ZERO ==> Outcomes(events) >= c.minRequests
  {
    if |events| > 0 {
      FreshStartLasts(h, c, events[..|events| - 1]);
    }
  }

  function Successes(events: seq<Event>): nat {
    if |events| == 0 then 0
    else Successes(events[..|events| - 1]) + (if events[|events| - 1].Success? then 1 else 0)
  }

  function Failures(events: seq<Event>): nat {
    if |events| == 0 then 0
    else Failures(events[..|events| - 1]) + (if events[|events| - 1].Failure? then 1 else 0)
  }

  function Latencies(events: seq<Event>): int {
    if |events| == 0 then 0
    else Latencies(events[..|events| - 1]) + if events[|events| - 1].LookedAt? then 0 else events[|events| - 1].latency
  }

  function LastUse(events: seq<Event>): Time {
    if |events| == 0 then ZERO
    else if events[|events| - 1].LookedAt? then LastUse(events[..|events| - 1])
    else events[|events| - 1].now
  }

  /** When the last failure that left the counts unhealthy was recorded. */
  function LastMark(c: Config, events: seq<Event>): Time {
    if |events| == 0 then ZERO
    else if events[|events| - 1].Failure?
            && Unhealthy(UNSEEN.(successes := Successes(events), failures := Failures(events)), c)
    then events[|events| - 1].marked
    else LastMark(c, events[..|events| - 1])
  }

  /** Event k is a look that comes after the end of the proxy's cooldown. */
  predicate Reactivates(c: Config, events: seq<Event>, k: nat) {
    k < |events| &&
    var marked := HealthAfter(UNSEEN, c, events[..k]).deactivateAt;
    events[k].LookedAt? && marked != ZERO && events[k].now - marked > c.cooldown
  }

  /** Event i - 1 is the last reactivation, or i is 0 and there is none. */
  ghost predicate LastReactivation(c: Config, events: seq<Event>, i: nat) {
    && i <= |events| && (i > 0 ==> Reactivates(c, events, i - 1))
    && forall k :: i <= k < |events| ==> !Reactivates(c, events, k)
  }

  /** h holds what these outcomes add up to. */
  predicate Holds(h: ProxyHealth, c: Config, since: seq<Event>) {
    && h.successes == Successes(since) && h.failures == Failures(since)
    && h.deactivateAt == LastMark(c, since)
  }

  lemma HoldsNext(h: ProxyHealth, c: Config, since: seq<Event>, e: Event)
    ensures Holds(h, c, since) && !(e.LookedAt? && h.deactivateAt != ZERO && e.now - h.deactivateAt > c.cooldown) ==>
              Holds(Applied(h, c, e), c, since + [e])
  {
    assert (since + [e])[..|since|] == since;
  }

  /** The counts are those of the outcomes since the last reactivation, and the proxy is marked by the last
      failure among them that left them unhealthy. */
  lemma {:induction false} CountedSince(c: Config, events: seq<Event>, i: nat)
    requires LastReactivation(c, events, i)
    ensures Holds(HealthAfter(UNSEEN, c, events), c, events[i..])
    decreases |events|
  {
    var n := |events| - 1;
    if i < |events| {
      var front := events[..n];
      assert events[i..] == front[i..] + [events[n]];
      forall k | 0 <= k < n
        ensures Reactivates(c, front, k) == Reactivates(c, events, k)
      {
        assert front[..k] == events[..k];
      }
      CountedSince(c, front, i);
      assert !Reactivates(c, events, n);
      HoldsNext(HealthAfter(UNSEEN, c, front), c, front[i..], events[n]);
    } else if i > 0 {
      assert Reactivates(c, events, n);
    }
  }

  /** The latency sum and the time of last use are those of the whole history. */
  lemma {:induction false} Totals(c: Config, events: seq<Event>)
    ensures var h := HealthAfter(UNSEEN, c, events);
            h.totalLatency == Latencies(events) && h.lastUsed == LastUse(events)
  {
    if |events| > 0 {
      Totals(c, events[..|events| - 1]);
    }
  }

  lemma {:induction false} HealthAfterConcat(h: ProxyHealth, c: Config, a: seq<Event>, b: seq<Event>)
    ensures HealthAfter(h, c, a + b) == HealthAfter(HealthAfter(h, c, a), c, b)
  {
    if |b| == 0 {
      assert a + b == a;
    } else {
      assert (a + b)[..|a + b| - 1] == a + b[..|b| - 1];
      HealthAfterConcat(h, c, a, b[..|b| - 1]);
    }
  }

  /** Over a whole run: between a reactivation at event i and a later state in which the proxy is
      deactivated, at least minRequests outcomes were recorded. */
  lemma ReactivationLasts(h: ProxyHealth, c: Config, events: seq<Event>, i: nat, j: nat)
    requires i < j <= |events| && events[i].LookedAt?
    requires HealthAfter(h, c, events[..i]).deactivateAt != ZERO
    requires HealthAfter(h, c, events[..i + 1]).deactivateAt == ZERO
    requires HealthAfter(h, c, events[..j]).deactivateAt != ZERO
    ensures Outcomes(events[i + 1..j]) >= c.minRequests
  {
    assert events[..i + 1][..i] == events[..i];
    assert events[..j] == events[..i + 1] + events[i + 1..j];
    HealthAfterConcat(h, c, events[..i + 1], events[i + 1..j]);
    FreshStartLasts(HealthAfter(h, c, events[..i + 1]), c, events[i + 1..j]);
  }
}

/** The proxy endpoints the dial guard lets through (proxy_allow.go): a bounded recency list of
    proxy URLs, their endpoints, and the snapshot that dials read without a lock. */
module ProxyAllow {
  import opened Prelude
  import opened Sequences

  type Url = string
  type Addr = string

  const MAX_REMEMBERED := 64

  datatype Endpoint = Endpoint(addrs: seq<Addr>, port: string)

  function Without(s: seq<Url>, u: Url): seq<Url> {
    if u in s then s[..IndexOf(s, u)] + s[IndexOf(s, u) + 1..] else s
  }

  /** The newest MAX_REMEMBERED of s. */
  function Newest(s: seq<Url>): seq<Url> {
    if |s| > MAX_REMEMBERED then s[|s| - MAX_REMEMBERED..] else s
  }

  function AfterUse(order: seq<Url>, u: Url): seq<Url> {
    Newest(Without(order, u) + [u])
  }

  lemma WithoutDistinct(s: seq<Url>, u: Url)
    requires Distinct(s)
    ensures Distinct(Without(s, u)) && u !in Without(s, u)
    ensures forall x :: x in Without(s, u) <==> x in s && x != u
  {
    if u in s {
      var k := IndexOf(s, u);
      var w := Without(s, u);
      assert forall i :: 0 <= i < |w| ==> w[i] == if i < k then s[i] else s[i + 1];
      forall x | x in s && x != u
        ensures x in w
      {
        var i :| 0 <= i < |s| && s[i] == x;
        assert w[if i < k then i else i - 1] == x;
      }
    }
  }

  lemma DropEntry(order: seq<Url>, entries: map<Url, Endpoint>)
    requires Distinct(order) && |order| == MAX_REMEMBERED + 1 && entries.Keys == set u | u in order
    ensures var left := entries - {order[0]};
            && left.Keys == (set u | u in order[1..])
            && forall u :: u in order[1..] ==> u in left && left[u] == entries[u]
  {
  }

  /** Remembering a new URL and forgetting it costs the oldest URL exactly at the bound. */
  lemma UseThenDrop(o: seq<Url>, u: Url)
    requires Distinct(o) && |o| <= MAX_REMEMBERED
    ensures u !in o ==> Without(AfterUse(o, u), u) == if |o| < MAX_REMEMBERED then o else o[1..]
  {
    if u !in o {
      var kept := if |o| < MAX_REMEMBERED then o else o[1..];
      assert AfterUse(o, u) == kept + [u];
      assert IndexOf(kept + [u], u) == |kept|;
    }
  }

  /** The endpoints of the URLs, in order. */
  function Endpoints(order: seq<Url>, entries: map<Url, Endpoint>): (l: seq<Endpoint>)
    requires forall u :: u in order ==> u in entries
    ensures |l| == |order| && forall i :: 0 <= i < |l| ==> l[i] == entries[order[i]]
  {
    seq(|order|, i requires 0 <= i < |order| => entries[order[i]])
  }

  /** Remembering url at ep makes it the newest; the URLs kept keep their endpoints. */
  ghost predicate RememberedAs(order: seq<Url>, entries: map<Url, Endpoint>, url: Url, ep: Endpoint,
                               order': seq<Url>, entries': map<Url, Endpoint>)
  {
    && order' == AfterUse(order, url)
    && entries'.Keys == (set x | x in order')
    && (forall x :: x in order' ==>
          if x == url then entries'[x] == ep else x in entries && entries'[x] == entries[x])
  }

  /** Forgetting url takes it out; all others keep their endpoints. */
  ghost predicate ForgottenAs(order: seq<Url>, entries: map<Url, Endpoint>, url: Url,
                              order': seq<Url>, entries': map<Url, Endpoint>)
  {
    && order' == Without(order, url)
    && entries'.Keys == (set x | x in order')
    && (forall x :: x in order' ==> x in entries && entries'[x] == entries[x])
  }

  predicate EndpointAllows(e: Endpoint, ip: Addr, port: string) {
    port == e.port && ip in e.addrs
  }

  /** What a dial is asked for: its network, and its address once split and parsed. */
  datatype Dial = Dial(network: string, target: Option<(Addr, string)>)

  predicate IsUnix(network: string) {
    network == "unix" || network == "unixgram" || network == "unixpacket"
  }

  class ProxyAllowance {
    var order: seq<Url>
    var entries: map<Url, Endpoint>
    var snap: Option<seq<Endpoint>>

    /** Distinct URLs, at most 64, each with its endpoint. */
    ghost predicate ListValid()
      reads this
    {
      && Distinct(order) && |order| <= MAX_REMEMBERED
      && entries.Keys == set u | u in order
    }

    /** The snapshot is the list mapped to endpoints; before the first publication there is none. */
    ghost predicate Valid()
      reads this
    {
      && ListValid()
      && (snap == Some(Endpoints(order, entries)) || (snap == None && order == []))
    }

    constructor ()
      ensures Valid() && order == [] && snap == None
    {
      order, entries, snap := [], map[], None;
    }

    method Publish()
      requires ListValid()
      modifies this`snap
      ensures Valid() && snap == Some(Endpoints(order, entries))
    {
      var list := [];
      for i := 0 to |order|
        invariant list == Endpoints(order, entries)[..i]
      {
        list := list + [entries[order[i]]];
      }
      assert list == Endpoints(order, entries);
      snap := Some(list);
    }

    /** The loop that drops url from the order. */
    method Drop(url: Url)
      modifies this`order
      ensures order == Without(old(order), url)
    {
      for i := 0 to |order|
        invariant order == old(order) && url !in order[..i]
      {
        if order[i] == url {
          assert IndexOf(order, url) == i;
          order := order[..i] + order[i + 1..];
          return;
        }
      }
      assert order[..|order|] == order;
    }

    method Remember(url: Url, ep: Endpoint)
      requires Valid()
      modifies this
      ensures Valid() && snap.Some?
      ensures RememberedAs(old(order), old(entries), url, ep, order, entries)
    {
      WithoutDistinct(order, url);
      Drop(url);
      order := order + [url];
      entries := entries[url := ep];
      assert entries.Keys == set u | u in order;
      Evict();
      Publish();
    }

    /** The loop that evicts the oldest beyond the bound. */
    method Evict()
      requires Distinct(order) && |order| <= MAX_REMEMBERED + 1 && entries.Keys == set u | u in order
      modifies this`order, this`entries
      ensures ListValid() && order == Newest(old(order))
      ensures forall u :: u in order ==> u in old(entries) && entries[u] == old(entries)[u]
    {
      while |order| > MAX_REMEMBERED
        invariant Distinct(order) && |order| <= MAX_REMEMBERED + 1 && entries.Keys == set u | u in order
        invariant Newest(order) == Newest(old(order))
        invariant forall u :: u in order ==> u in old(entries) && entries[u] == old(entries)[u]
      {
        DropEntry(order, entries);
        entries := entries - {order[0]};
        order := order[1..];
      }
    }

    method Forget(url: Url)
      requires Valid()
      modifies this
      ensures Valid() && snap.Some?
      ensures ForgottenAs(old(order), old(entries), url, order, entries)
    {
      WithoutDistinct(order, url);
      Drop(url);
      entries := entries - {url};
      Publish();
    }

    /** Reads only the snapshot. */
    method Allows(target: Option<(Addr, string)>) returns (ok: bool)
      ensures ok <==> target.Some? && snap.Some? &&
                      exists i :: 0 <= i < |snap.value| && snap.value[i].port == target.value.1
                                  && target.value.0 in snap.value[i].addrs
    {
      if target == None || snap == None {
        return false;
      }
      for i := 0 to |snap.value|
        invariant forall k :: 0 <= k < i ==> !EndpointAllows(snap.value[k], target.value.0, target.value.1)
      {
        if EndpointAllows(snap.value[i], target.value.0, target.value.1) {
          return true;
        }
      }
      return false;
    }

    /** The wrapped guard: a dial passes exactly when it is not a unix one and hits a published
        endpoint, or the inner guard accepts it. */
    method Guard(d: Dial, inner: Dial -> bool) returns (pass: bool)
      requires Valid()
      ensures pass <==>
              || inner(d)
              || (d.network !in {"unix", "unixgram", "unixpacket"} && d.target.Some?
                  && exists u :: u in order && entries[u].port == d.target.value.1
                                 && d.target.value.0 in entries[u].addrs)
    {
      if !IsUnix(d.network) {
        var ok := Allows(d.target);
        if ok {
          return true;
        }
      }
      pass := inner(d);
    }

    /** First locked section of apply. */
    method Known(url: Url) returns (ep: Option<Endpoint>)
      ensures ep == if url in entries then Some(entries[url]) else None
    {
      ep := if url in entries then Some(entries[url]) else None;
    }

    /** Second locked section, up to the call of set: the endpoint is let through before the
        backend switches. */
    method BeginSwitch(url: Url, ep: Option<Endpoint>) returns (wasKnown: bool)
      requires Valid()
      modifies this
      ensures Valid() && wasKnown == (url in old(entries))
      ensures ep == None ==> order == old(order) && entries == old(entries) && snap == old(snap)
      ensures ep.Some? ==> snap.Some? && RememberedAs(old(order), old(entries), url, ep.value, order, entries)
    {
      wasKnown := url in entries;
      if ep.Some? {
        Remember(url, ep.value);
      }
    }

    /** The rest of it, once set has answered. */
    method EndSwitch(url: Url, ep: Option<Endpoint>, wasKnown: bool, accepted: bool)
      requires Valid()
      modifies this
      ensures Valid()
      ensures if !accepted && ep.Some? && !wasKnown
              then snap.Some? && ForgottenAs(old(order), old(entries), url, order, entries)
              else order == old(order) && entries == old(entries) && snap == old(snap)
    {
      if !accepted {
        if ep.Some? && !wasKnown {
          Forget(url);
        }
      }
    }

    /** The whole of apply with nobody else at it: found is what a lookup of the host yields, made only
        when the URL has no endpoint yet; accepted is what set answers. */
    method Apply(url: Url, found: Option<Endpoint>, accepted: bool) returns (ok: bool)
      requires Valid()
      modifies this
      ensures Valid() && ok == accepted
      ensures var known := url in old(entries);
              var ep := if known then Some(old(entries)[url]) else found;
              if ep == None then order == old(order) && entries == old(entries) && snap == old(snap)
              else if accepted || known then RememberedAs(old(order), old(entries), url, ep.value, order, entries)
              else
                && order == (if |old(order)| < MAX_REMEMBERED then old(order) else old(order)[1..])
                && forall u :: u in order ==> u in old(entries) && entries[u] == old(entries)[u]
    {
      var ep := Known(url);
      if ep == None {
        ep := found;
      }
      UseThenDrop(order, url);
      var wasKnown := BeginSwitch(url, ep);
      EndSwitch(url, ep, wasKnown, accepted);
      ok := accepted;
    }
  }
}

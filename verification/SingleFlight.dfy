/** golang.org/x/sync/singleflight as the two cache-filling protocols use it: calls for one key
    share a single execution. */
module SingleFlight {

  type Tid = nat

  /** An execution in progress: the call that runs it and the calls that wait for it. */
  datatype Flight = Flight(leader: Tid, joiners: set<Tid>)

  type Key = string

  type Group = map<Key, Flight>

  /** t calls Do for k: it leads a new flight or joins the one in progress. */
  function Enter(g: Group, k: Key, t: Tid): Group {
    if k in g then g[k := g[k].(joiners := g[k].joiners + {t})] else g[k := Flight(t, {})]
  }

  /** The execution for k is over: its leader and all its joiners return. */
  function Land(g: Group, k: Key): Group {
    g - {k}
  }

  predicate Leads(g: Group, k: Key, t: Tid) {
    k in g && g[k].leader == t
  }

  predicate Joins(g: Group, k: Key, t: Tid) {
    k in g && t in g[k].joiners
  }

  /** At most one leader per key. */
  lemma OneLeader(g: Group, k: Key, t: Tid, u: Tid)
    requires Leads(g, k, t) && Leads(g, k, u)
    ensures t == u
  {
  }

  /** Entering makes t the leader exactly when no flight was in progress, and a joiner otherwise;
      nobody else is affected. */
  lemma EnterEffect(g: Group, k: Key, t: Tid, l: Key, u: Tid)
    ensures Leads(Enter(g, k, t), l, u) <==> Leads(g, l, u) || (l == k && u == t && k !in g)
    ensures Joins(Enter(g, k, t), l, u) <==> Joins(g, l, u) || (l == k && u == t && k in g)
  {
  }

  /** Landing releases exactly the calls of that key's flight. */
  lemma LandEffect(g: Group, k: Key, l: Key, u: Tid)
    ensures Leads(Land(g, k), l, u) <==> l != k && Leads(g, l, u)
    ensures Joins(Land(g, k), l, u) <==> l != k && Joins(g, l, u)
  {
  }
}

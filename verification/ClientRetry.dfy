/** The client's retry loop over proxies (client.go), run against a script of the pool, of
    SetProxy and of the handler, and refined to a closed-form trace. */
module ClientRetry {
  import opened Prelude
  import opened GoInt

  datatype Response = Response(status: int, id: int)

  /** An error of the handler: whether its text is a proxy's 407 rejection, whether it wraps
      ErrSSRFBlocked, and the status of the response that came with it, if any. */
  datatype HandlerError = HandlerError(proxyAuth: bool, guardBlocked: bool, status: Option<int>)

  datatype Client = Client(hasPool: bool, poolReports: bool, blockRetries: Int) {
    /** 1 + blockRetries wraps around for the largest int. */
    function MaxAttempts(): Int {
      if hasPool && blockRetries > 0 then Sum(1, blockRetries) else 1
    }

    /** The loop is not entered at all. */
    predicate NeverTries() {
      hasPool && blockRetries == MAX_INT
    }
  }

  /** What attempt i meets. */
  datatype Script = Script(
    next: nat -> string,
    setProxy: nat -> Option<string>,
    handle: nat -> Result<Response, HandlerError>)

  datatype Event =
    | Next(url: string)
    | SetProxy(url: string, ok: bool)
    | Handle(attempt: nat)
    | ReportAuthFailure
    | Pause

  datatype Answer =
    | Replied(response: Response)
    | Failed(error: HandlerError, status: int)
    | PoolExhausted(attempts: int, cause: string)
    | Nothing  // no reply, status 0, and a nil error

  predicate IsBlockStatus(code: int) {
    code in {403, 429, 502, 503}
  }

  /** Attempt i gets as far as the handler. */
  predicate Reaches(c: Client, s: Script, i: nat) {
    c.hasPool ==> s.setProxy(i) == None
  }

  /** The handler's outcome is one a rotated proxy might cure. */
  predicate Curable(c: Client, r: Result<Response, HandlerError>) {
    match r
    case Ok(resp) => IsBlockStatus(resp.status)
    case Err(e) => c.hasPool && !e.guardBlocked
  }

  predicate Retries(c: Client, s: Script, i: nat) {
    i + 1 < c.MaxAttempts() && (!Reaches(c, s, i) || Curable(c, s.handle(i)))
  }

  ghost predicate EndsAt(c: Client, s: Script, k: nat) {
    k < c.MaxAttempts() && !Retries(c, s, k) && forall i: nat :: i < k ==> Retries(c, s, i)
  }

  /** Attempt i tells a pool that listens that its credentials were rejected. */
  predicate Reports(c: Client, r: Result<Response, HandlerError>) {
    c.hasPool && c.poolReports &&
    match r
    case Ok(resp) => resp.status == 407
    case Err(e) => !e.guardBlocked && e.proxyAuth
  }

  function Handled(c: Client, s: Script, i: nat): seq<Event> {
    [Handle(i)]
    + (if Reports(c, s.handle(i)) then [ReportAuthFailure] else [])
    + (if s.handle(i).Ok? && Retries(c, s, i) then [Pause] else [])
  }

  function Attempt(c: Client, s: Script, i: nat): seq<Event> {
    (if c.hasPool then [Next(s.next(i)), SetProxy(s.next(i), s.setProxy(i) == None)] else [])
    + (if Reaches(c, s, i) then Handled(c, s, i) else [])
  }

  function Attempts(c: Client, s: Script, n: nat): seq<Event> {
    if n == 0 then [] else Attempts(c, s, n - 1) + Attempt(c, s, n - 1)
  }

  function AnswerAt(c: Client, s: Script, k: nat): Answer {
    if c.hasPool && s.setProxy(k).Some? then PoolExhausted(c.MaxAttempts(), s.setProxy(k).value)
    else
      match s.handle(k)
      case Ok(resp) => Replied(resp)
      case Err(e) => Failed(e, if !e.guardBlocked && e.status.Some? then e.status.value else 0)
  }

  /** One round of the loop: the events of the attempt, and whether it is the last one. */
  method Try(c: Client, s: Script, i: nat, maxAttempts: Int) returns (done: bool, answer: Answer, events: seq<Event>)
    requires maxAttempts == c.MaxAttempts() && i < maxAttempts
    ensures events == Attempt(c, s, i)
    ensures done <==> !Retries(c, s, i)
    ensures done ==> answer == AnswerAt(c, s, i)
  {
    done, answer, events := false, Nothing, [];
    if c.hasPool {
      var proxyURL := s.next(i);
      events := [Next(proxyURL), SetProxy(proxyURL, s.setProxy(i) == None)];
      if s.setProxy(i).Some? {
        if i == maxAttempts - 1 {
          done, answer := true, PoolExhausted(maxAttempts, s.setProxy(i).value);
        }
        return;
      }
    }
    events := events + [Handle(i)];
    var outcome := s.handle(i);
    if outcome.Err? {
      var e := outcome.error;
      if e.guardBlocked {
        done, answer := true, Failed(e, 0);
        return;
      }
      if c.hasPool && e.proxyAuth && c.poolReports {
        events := events + [ReportAuthFailure];
      }
      if !(i < maxAttempts - 1 && c.hasPool) {
        done, answer := true, Failed(e, if e.status.Some? then e.status.value else 0);
      }
      return;
    }
    var resp := outcome.value;
    if c.hasPool && resp.status == 407 && c.poolReports {
      events := events + [ReportAuthFailure];
    }
    if i < maxAttempts - 1 && IsBlockStatus(resp.status) {
      events := events + [Pause];
      return;
    }
    done, answer := true, Replied(resp);
  }

  /** doWithRetry. end is the attempt it returned from. The trailing return is reached exactly when the
      number of attempts wraps around. */
  method DoWithRetry(c: Client, s: Script) returns (answer: Answer, trace: seq<Event>, end: nat)
    ensures answer == Nothing <==> c.NeverTries()
    ensures c.NeverTries() ==> trace == []
    ensures !c.NeverTries() ==> EndsAt(c, s, end)
    ensures !c.NeverTries() ==> answer == AnswerAt(c, s, end) && trace == Attempts(c, s, end + 1)
  {
    var maxAttempts: Int := 1;
    if c.hasPool && c.blockRetries > 0 {
      maxAttempts := Sum(1, c.blockRetries);
    }
    trace, end := [], 0;
    while end < maxAttempts
      invariant maxAttempts == c.MaxAttempts()
      invariant maxAttempts > 0 ==> end < maxAttempts
      invariant end == 0 || maxAttempts > 0
      invariant forall i: nat :: i < end ==> Retries(c, s, i)
      invariant trace == Attempts(c, s, end)
      decreases maxAttempts - end
    {
      var done, reply, events := Try(c, s, end, maxAttempts);
      trace := trace + events;
      if done {
        return reply, trace, end;
      }
      end := end + 1;
    }
    answer := Nothing;
  }

  function Nexts(trace: seq<Event>): (n: nat) {
    if |trace| == 0 then 0
    else Nexts(trace[..|trace| - 1]) + (if trace[|trace| - 1].Next? then 1 else 0)
  }

  lemma {:induction false} NextsConcat(a: seq<Event>, b: seq<Event>)
    ensures Nexts(a + b) == Nexts(a) + Nexts(b)
  {
    if |b| == 0 {
      assert a + b == a;
    } else {
      assert (a + b)[..|a + b| - 1] == a + b[..|b| - 1];
      NextsConcat(a, b[..|b| - 1]);
    }
  }

  lemma {:induction false} NoNexts(t: seq<Event>)
    requires forall e :: e in t ==> !e.Next?
    ensures Nexts(t) == 0
  {
    if |t| > 0 {
      NoNexts(t[..|t| - 1]);
    }
  }

  function PerAttempt(c: Client): nat {
    if c.hasPool then 1 else 0
  }

  lemma PairNexts(url: string, ok: bool)
    ensures Nexts([Next(url), SetProxy(url, ok)]) == 1
  {
    var one := [Next(url)];
    assert [Next(url), SetProxy(url, ok)][..1] == one && one[..0] == [];
    assert Nexts(one) == 1;
  }

  lemma AttemptNexts(c: Client, s: Script, i: nat)
    ensures Nexts(Attempt(c, s, i)) == PerAttempt(c)
  {
    var rest := if Reaches(c, s, i) then Handled(c, s, i) else [];
    NoNexts(rest);
    if c.hasPool {
      var pair := [Next(s.next(i)), SetProxy(s.next(i), s.setProxy(i) == None)];
      PairNexts(s.next(i), s.setProxy(i) == None);
      NextsConcat(pair, rest);
      assert Attempt(c, s, i) == pair + rest;
    } else {
      assert Attempt(c, s, i) == rest;
    }
  }

  lemma NextsStep(c: Client, s: Script, n: nat)
    requires n > 0
    ensures Nexts(Attempts(c, s, n)) == Nexts(Attempts(c, s, n - 1)) + PerAttempt(c)
  {
    AttemptNexts(c, s, n - 1);
    NextsPlus(Attempts(c, s, n), Attempts(c, s, n - 1), Attempt(c, s, n - 1));
  }

  lemma NextsPlus(t: seq<Event>, a: seq<Event>, b: seq<Event>)
    requires t == a + b
    ensures Nexts(t) == Nexts(a) + Nexts(b)
  {
    NextsConcat(a, b);
  }

  /** One pool.Next per attempt. */
  lemma {:induction false} OneNextPerAttempt(c: Client, s: Script, n: nat)
    ensures Nexts(Attempts(c, s, n)) == (if c.hasPool then n else 0)
  {
    if n == 0 {
      assert Attempts(c, s, n) == [];
    } else {
      OneNextPerAttempt(c, s, n - 1);
      NextsStep(c, s, n);
    }
  }

  /** Every Handle event comes directly after a successful SetProxy of the URL just drawn. */
  ghost predicate HandledAfterSetProxy(trace: seq<Event>) {
    forall j :: 0 <= j < |trace| && trace[j].Handle? ==>
      j >= 2 && trace[j - 1].SetProxy? && trace[j - 1].ok && trace[j - 2] == Next(trace[j - 1].url)
  }

  lemma {:induction false} HandlerNeedsSetProxy(c: Client, s: Script, n: nat)
    requires c.hasPool
    ensures HandledAfterSetProxy(Attempts(c, s, n))
  {
    if n > 0 {
      HandlerNeedsSetProxy(c, s, n - 1);
      var a, b := Attempts(c, s, n - 1), Attempt(c, s, n - 1);
      assert forall j :: 0 <= j < |b| && b[j].Handle? ==> j == 2;
      forall j | 0 <= j < |a + b| && (a + b)[j].Handle?
        ensures j >= 2 && (a + b)[j - 1].SetProxy? && (a + b)[j - 1].ok && (a + b)[j - 2] == Next((a + b)[j - 1].url)
      {
        if j >= |a| {
          assert b[j - |a|].Handle?;
        }
      }
    }
  }

  /** The handler ran for attempt i exactly when i was made and got past SetProxy. */
  lemma {:induction false} HandledAttempts(c: Client, s: Script, n: nat, i: nat)
    ensures Handle(i) in Attempts(c, s, n) <==> i < n && Reaches(c, s, i)
  {
    if n > 0 {
      HandledAttempts(c, s, n - 1, i);
      HandledOnce(c, s, n - 1, i);
      OneMore(c, s, n, i, Reaches(c, s, i));
    }
  }

  lemma OneMore(c: Client, s: Script, n: nat, i: nat, reaches: bool)
    requires n > 0
    requires Handle(i) in Attempts(c, s, n - 1) <==> i < n - 1 && reaches
    requires Handle(i) in Attempt(c, s, n - 1) <==> i == n - 1 && reaches
    ensures Handle(i) in Attempts(c, s, n) <==> i < n && reaches
  {
  }

  lemma HandledOnce(c: Client, s: Script, k: nat, i: nat)
    ensures Handle(i) in Attempt(c, s, k) <==> i == k && Reaches(c, s, i)
  {
  }

  /** The handler's outcome is a proxy's 407. */
  predicate Rejected(r: Result<Response, HandlerError>) {
    match r
    case Ok(resp) => resp.status == 407
    case Err(e) => !e.guardBlocked && e.proxyAuth
  }

  /** After event j come so many reports, then so many pauses, and then the next attempt or nothing. */
  ghost predicate FollowedBy(t: seq<Event>, j: nat, reports: nat, pauses: nat) {
    var next := j + 1 + reports + pauses;
    && next <= |t|
    && (forall k :: j < k <= j + reports ==> t[k] == ReportAuthFailure)
    && (forall k :: j + reports < k < next ==> t[k] == Pause)
    && (next < |t| ==> t[next].Next? || t[next].Handle?)
  }

  function ReportsAfter(c: Client, r: Result<Response, HandlerError>): nat {
    if c.hasPool && c.poolReports && Rejected(r) then 1 else 0
  }

  function PausesAfter(c: Client, i: nat, r: Result<Response, HandlerError>): nat {
    if r.Ok? && r.value.status in {403, 429, 502, 503} && i + 1 < c.MaxAttempts() then 1 else 0
  }

  ghost predicate AllFollowed(c: Client, s: Script, t: seq<Event>) {
    forall j :: 0 <= j < |t| && t[j].Handle? ==>
      var r := s.handle(t[j].attempt);
      FollowedBy(t, j, ReportsAfter(c, r), PausesAfter(c, t[j].attempt, r))
  }

  lemma FollowedConcat(c: Client, s: Script, a: seq<Event>, b: seq<Event>)
    requires AllFollowed(c, s, a) && AllFollowed(c, s, b) && |b| > 0 && (b[0].Next? || b[0].Handle?)
    ensures AllFollowed(c, s, a + b)
  {
    var t := a + b;
    forall j | 0 <= j < |t| && t[j].Handle?
      ensures var r := s.handle(t[j].attempt);
              FollowedBy(t, j, ReportsAfter(c, r), PausesAfter(c, t[j].attempt, r))
    {
      var r := s.handle(t[j].attempt);
      var reports, pauses := ReportsAfter(c, r), PausesAfter(c, t[j].attempt, r);
      if j < |a| {
        assert FollowedBy(a, j, reports, pauses);
      } else {
        assert FollowedBy(b, j - |a|, reports, pauses);
        assert forall k :: 0 <= k < |b| ==> t[|a| + k] == b[k];
      }
    }
  }

  lemma AttemptFollowed(c: Client, s: Script, i: nat)
    ensures AllFollowed(c, s, Attempt(c, s, i))
    ensures var t := Attempt(c, s, i); |t| > 0 && (t[0].Next? || t[0].Handle?)
  {
  }

  /** Directly after handling an attempt a listening pool is told exactly of a 407, and the loop pauses
      exactly when it has got a block status with attempts left. */
  lemma {:induction false} AfterHandling(c: Client, s: Script, n: nat)
    ensures AllFollowed(c, s, Attempts(c, s, n))
  {
    if n > 0 {
      AfterHandling(c, s, n - 1);
      AttemptFollowed(c, s, n - 1);
      FollowedConcat(c, s, Attempts(c, s, n - 1), Attempt(c, s, n - 1));
    }
  }

  lemma EndUnique(c: Client, s: Script, j: nat, k: nat)
    requires EndsAt(c, s, j) && EndsAt(c, s, k)
    ensures j == k
  {
    assert j < k ==> Retries(c, s, j);
    assert k < j ==> Retries(c, s, k);
  }

  /** A guard rejection ends the run, whatever retries are left, and is the answer. */
  lemma GuardStops(c: Client, s: Script, k: nat, i: nat)
    requires EndsAt(c, s, k) && Handle(i) in Attempts(c, s, k + 1)
    requires s.handle(i).Err? && s.handle(i).error.guardBlocked
    ensures i == k && AnswerAt(c, s, k) == Failed(s.handle(i).error, 0)
  {
    HandledAttempts(c, s, k + 1, i);
    assert !Retries(c, s, i);
  }

  /** The pool is reported exhausted exactly when the last allowed attempt is reached and its
      SetProxy fails; earlier attempts may well have run the handler. */
  lemma ExhaustedExactly(c: Client, s: Script, k: nat)
    requires EndsAt(c, s, k)
    ensures AnswerAt(c, s, k).PoolExhausted? <==> k + 1 == c.MaxAttempts() && !Reaches(c, s, k)
    ensures AnswerAt(c, s, k).PoolExhausted? ==> AnswerAt(c, s, k) == PoolExhausted(k + 1, s.setProxy(k).value)
    ensures AnswerAt(c, s, k).PoolExhausted? ==>
              ((forall i :: Handle(i) !in Attempts(c, s, k + 1)) <==>
               forall i: nat :: i <= k ==> !Reaches(c, s, i))
  {
    forall i: nat
      ensures Handle(i) in Attempts(c, s, k + 1) <==> i < k + 1 && Reaches(c, s, i)
    {
      HandledAttempts(c, s, k + 1, i);
    }
    assert forall i: nat :: i <= k && Reaches(c, s, i) ==> Handle(i) in Attempts(c, s, k + 1);
  }

  /** "Exhausted" does not mean that nothing was sent: one block status, then one bad proxy. */
  lemma ExhaustedAfterSending() returns (c: Client, s: Script)
    ensures EndsAt(c, s, 1) && AnswerAt(c, s, 1).PoolExhausted?
    ensures Handle(0) in Attempts(c, s, 2)
  {
    c := Client(true, false, 1);
    s := Script(i => "p", i => if i == 0 then None else Some("bad"), i => Ok(Response(403, 0)));
    assert Retries(c, s, 0);
    HandledAttempts(c, s, 2, 0);
  }

  /** A reply is returned exactly when it is the first outcome no rotation could cure, or the
      outcome of the last allowed attempt. */
  lemma ReplyReturned(c: Client, s: Script, k: nat, r: Response)
    requires EndsAt(c, s, k)
    ensures AnswerAt(c, s, k) == Replied(r) <==>
            exists j: nat :: j < c.MaxAttempts() && Reaches(c, s, j) && s.handle(j) == Ok(r)
                             && (r.status !in {403, 429, 502, 503} || j + 1 == c.MaxAttempts())
                             && forall i: nat :: i < j ==> Retries(c, s, i)
  {
    forall j: nat | j < c.MaxAttempts() && Reaches(c, s, j) && s.handle(j) == Ok(r)
                    && (r.status !in {403, 429, 502, 503} || j + 1 == c.MaxAttempts())
                    && forall i: nat :: i < j ==> Retries(c, s, i)
      ensures AnswerAt(c, s, k) == Replied(r)
    {
      EndUnique(c, s, j, k);
    }
  }

  /** An error is returned exactly when it is the guard's, met by some attempt, or that of the last
      allowed attempt; its status is reported unless it is the guard's. */
  lemma FailedReturned(c: Client, s: Script, k: nat, e: HandlerError, status: int)
    requires EndsAt(c, s, k)
    ensures AnswerAt(c, s, k) == Failed(e, status) <==>
            && status == (if !e.guardBlocked && e.status.Some? then e.status.value else 0)
            && exists j: nat :: j < c.MaxAttempts() && Reaches(c, s, j) && s.handle(j) == Err(e)
                                && (e.guardBlocked || j + 1 == c.MaxAttempts())
                                && forall i: nat :: i < j ==> Retries(c, s, i)
  {
    forall j: nat | j < c.MaxAttempts() && Reaches(c, s, j) && s.handle(j) == Err(e)
                    && (e.guardBlocked || j + 1 == c.MaxAttempts())
                    && forall i: nat :: i < j ==> Retries(c, s, i)
      ensures j == k
    {
      EndUnique(c, s, j, k);
    }
  }

  /** WithRetryOnBlock(math.MaxInt) on a client with a pool: the error is nil, and nothing is sent. */
  lemma LargestRetriesSendNothing(reports: bool)
    ensures Client(true, reports, MAX_INT).MaxAttempts() == MIN_INT
    ensures Client(true, reports, MAX_INT).NeverTries()
  {
  }

  /** Any other client makes at least one attempt. */
  lemma AttemptsExactly(c: Client)
    ensures c.MaxAttempts() >= 1 <==> !c.NeverTries()
    ensures !c.NeverTries() ==> c.MaxAttempts() == if c.hasPool && c.blockRetries > 0 then 1 + c.blockRetries else 1
  {
  }
}

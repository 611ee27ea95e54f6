/** Latched trip counting of pool items (pool/identity.go), specified over the whole history
    of recorded outcomes since the last Reset. Rates are float64, counts below 2^53. */
module Health {
  import opened Float64

  datatype Outcome = Success | Failure

  datatype Thresholds = Thresholds(minRequests: int, failThreshold: real, maxConsecFailures: int)

  /** Failures recorded in h. */
  function Failures(h: seq<Outcome>): (n: nat)
    ensures n <= |h|
  {
    if |h| == 0 then 0
    else Failures(h[..|h| - 1]) + (if h[|h| - 1].Failure? then 1 else 0)
  }

  /** The success-delimited segment the next outcome falls into, numbered from 0. */
  function Segment(h: seq<Outcome>): nat {
    |h| - Failures(h)
  }

  /** Length of the unbroken run of failures at the end of h. */
  function Trailing(h: seq<Outcome>): (n: nat)
    ensures n <= Failures(h)
  {
    if |h| == 0 || h[|h| - 1].Success? then 0 else Trailing(h[..|h| - 1]) + 1
  }

  function Rate(failed: nat, total: nat): real
    requires total > 0
  {
    Nearest(failed as real / total as real)
  }

  /** These counts exceed a threshold. */
  predicate Exceeds(t: Thresholds, consecutive: nat, total: nat, failed: nat) {
    consecutive >= t.maxConsecFailures
    || (total > 0 && total >= t.minRequests && Rate(failed, total) >= t.failThreshold)
  }

  /** The last outcome of h is a failure that exceeds a threshold. */
  predicate Trips(t: Thresholds, h: seq<Outcome>) {
    |h| > 0 && h[|h| - 1].Failure? && Exceeds(t, Trailing(h), |h|, Failures(h))
  }

  /** The positions of the failures in h. */
  ghost function FailedAt(h: seq<Outcome>): set<nat> {
    set k | 0 <= k < |h| && h[k].Failure?
  }

  lemma {:induction false} FailuresAre(h: seq<Outcome>)
    ensures Failures(h) == |FailedAt(h)|
  {
    if |h| > 0 {
      var g := h[..|h| - 1];
      FailuresAre(g);
      assert FailedAt(h) == FailedAt(g) + if h[|h| - 1].Failure? then {|h| - 1} else {};
    }
  }

  lemma {:induction false} TrailingAre(h: seq<Outcome>, n: int)
    ensures Trailing(h) >= n <==> n <= |h| && forall k :: 0 <= k && |h| - n <= k < |h| ==> h[k].Failure?
  {
    if |h| > 0 && n > 0 {
      TrailingAre(h[..|h| - 1], n - 1);
    }
  }

  /** A recorded failure trips exactly when the last maxConsecFailures outcomes are all failures or, with
      at least minRequests outcomes, the part of failures among them reaches failThreshold. */
  lemma TripsExactly(t: Thresholds, h: seq<Outcome>)
    ensures Trips(t, h) <==>
            && |h| > 0 && h[|h| - 1].Failure?
            && ((t.maxConsecFailures <= |h|
                 && forall k :: 0 <= k && |h| - t.maxConsecFailures <= k < |h| ==> h[k].Failure?)
                || (|h| >= t.minRequests && Nearest(|FailedAt(h)| as real / |h| as real) >= t.failThreshold))
  {
    FailuresAre(h);
    TrailingAre(h, t.maxConsecFailures);
  }

  /** Numbers of the segments of h that contain a tripping failure. */
  ghost function TrippedSegments(t: Thresholds, h: seq<Outcome>): set<nat> {
    set i | 0 < i <= |h| && Trips(t, h[..i]) :: Segment(h[..i])
  }

  /** Adding an outcome adds the current segment when that outcome trips, and nothing else. */
  lemma TrippedSegmentsStep(t: Thresholds, h: seq<Outcome>, o: Outcome)
    ensures TrippedSegments(t, h + [o]) ==
            TrippedSegments(t, h) + if Trips(t, h + [o]) then {Segment(h)} else {}
  {
    var g := h + [o];
    assert g[..|g|] == g && g[..|h|] == h;
    forall i | 0 < i <= |h|
      ensures g[..i] == h[..i]
    {
    }
    if Trips(t, g) {
      assert Segment(g) == Segment(h);
    }
    forall x | x in TrippedSegments(t, h)
      ensures x in TrippedSegments(t, g)
    {
      var i :| 0 < i <= |h| && Trips(t, h[..i]) && Segment(h[..i]) == x;
      assert Trips(t, g[..i]);
    }
  }

  /** Segments only grow, and by nothing within a run of failures. */
  lemma {:induction false} SegmentMonotone(h: seq<Outcome>, i: nat)
    requires i <= |h|
    ensures Segment(h[..i]) <= Segment(h)
    ensures Segment(h[..i]) == Segment(h) ==> forall k :: i <= k < |h| ==> h[k].Failure?
  {
    if i == |h| {
      assert h[..i] == h;
    } else {
      var g := h[..|h| - 1];
      SegmentMonotone(g, i);
      assert g[..i] == h[..i];
    }
  }

  lemma FractionGrows(f: nat, n: nat)
    requires n > 0 && f <= n
    ensures 0.0 <= f as real / n as real <= (f + 1) as real / (n + 1) as real
  {
    var x, y := f as real / n as real, (f + 1) as real / (n + 1) as real;
    GrowsBy(x, y, f as real, n as real);
  }

  lemma GrowsBy(x: real, y: real, f: real, n: real)
    requires n > 0.0 && 0.0 <= f <= n && x * n == f && y * (n + 1.0) == f + 1.0
    ensures 0.0 <= x <= y
  {
    assert x < 0.0 ==> x * n < 0.0;
    assert x > 1.0 ==> (x - 1.0) * n > 0.0;
    assert (y - x) * (n + 1.0) == 1.0 - x;
    assert y < x ==> (y - x) * (n + 1.0) < 0.0;
  }

  /** One more failure never lowers the failure rate. */
  lemma RateGrows(f: nat, n: nat)
    requires n > 0 && f <= n
    ensures Rate(f, n) <= Rate(f + 1, n + 1)
  {
    FractionGrows(f, n);
    NearestMonotone(f as real / n as real, (f + 1) as real / (n + 1) as real);
  }

  lemma NextFailureTrips(t: Thresholds, h: seq<Outcome>)
    requires Trips(t, h)
    ensures Trips(t, h + [Failure])
  {
    var g := h + [Failure];
    assert g[..|g| - 1] == h;
    if Trailing(h) < t.maxConsecFailures {
      RateGrows(Failures(h), |h|);
    }
  }

  /** Once a failure trips, every later failure of the same segment trips too. */
  lemma {:induction false} TripsStay(t: Thresholds, h: seq<Outcome>, i: nat)
    requires 0 < i <= |h| && Trips(t, h[..i]) && Segment(h[..i]) == Segment(h)
    ensures Trips(t, h)
  {
    if i == |h| {
      assert h[..i] == h;
    } else {
      var g := h[..|h| - 1];
      SegmentMonotone(h, i);
      assert g[..i] == h[..i] && h == g + [Failure];
      TripsStay(t, g, i);
      NextFailureTrips(t, g);
    }
  }

  /** Some failure of the segment h ends in has tripped. */
  ghost predicate Tripped(t: Thresholds, h: seq<Outcome>) {
    Segment(h) in TrippedSegments(t, h)
  }

  /** After a failure, the latch is up exactly when that failure trips. */
  lemma TrippedAfterFailure(t: Thresholds, h: seq<Outcome>)
    requires |h| > 0 && h[|h| - 1].Failure?
    ensures Tripped(t, h) <==> Trips(t, h)
  {
    if Tripped(t, h) {
      var i :| 0 < i <= |h| && Trips(t, h[..i]) && Segment(h[..i]) == Segment(h);
      TripsStay(t, h, i);
    }
    assert h[..|h|] == h;
  }

  lemma NotTrippedAfterSuccess(t: Thresholds, h: seq<Outcome>)
    ensures !Tripped(t, h + [Success])
  {
    var g := h + [Success];
    assert g[..|g|] == g;
    forall i | 0 < i < |g|
      ensures Segment(g[..i]) != Segment(g)
    {
      SegmentMonotone(g, i);
      assert g[|h|].Success?;
    }
  }

  lemma LatchStaysUp(t: Thresholds, h: seq<Outcome>)
    requires Tripped(t, h)
    ensures Trips(t, h + [Failure])
  {
    var g := h + [Failure];
    var i :| 0 < i <= |h| && Trips(t, h[..i]) && Segment(h[..i]) == Segment(h);
    assert g[..i] == h[..i] && g[..|g| - 1] == h;
    TripsStay(t, g, i);
  }

  /** What one recorded failure does to the counts the specification is about. */
  lemma FailureStep(t: Thresholds, h: seq<Outcome>)
    ensures var g := h + [Failure];
            && Failures(g) == Failures(h) + 1 && Trailing(g) == Trailing(h) + 1
            && Tripped(t, g) == Trips(t, g) && (Tripped(t, h) ==> Trips(t, g))
            && |TrippedSegments(t, g)| ==
               |TrippedSegments(t, h)| + if Trips(t, g) && !Tripped(t, h) then 1 else 0
  {
    var g := h + [Failure];
    assert g[..|g| - 1] == h;
    TrippedSegmentsStep(t, h, Failure);
    TrippedAfterFailure(t, g);
    if Tripped(t, h) {
      LatchStaysUp(t, h);
      assert TrippedSegments(t, g) == TrippedSegments(t, h);
    }
  }

  class HealthTracker {
    var totalRequests: int
    var failedRequests: int
    var consecutiveFailures: int
    const thresholds: Thresholds
    var tripCount: int
    var tripped: bool
    /** Outcomes recorded since the last Reset. */
    ghost var history: seq<Outcome>

    ghost predicate Valid()
      reads this
    {
      && totalRequests == |history|
      && failedRequests == Failures(history)
      && consecutiveFailures == Trailing(history)
      && tripCount == |TrippedSegments(thresholds, history)|
      && tripped == Tripped(thresholds, history)
    }

    constructor (minRequests: int, failThreshold: real, maxConsecFailures: int)
      ensures Valid() && history == []
      ensures thresholds == Thresholds(minRequests, failThreshold, maxConsecFailures)
    {
      thresholds := Thresholds(minRequests, failThreshold, maxConsecFailures);
      totalRequests, failedRequests, consecutiveFailures := 0, 0, 0;
      tripCount, tripped := 0, false;
      history := [];
    }

    method RecordSuccess()
      requires Valid()
      modifies this
      ensures Valid() && history == old(history) + [Success]
    {
      TrippedSegmentsStep(thresholds, history, Success);
      NotTrippedAfterSuccess(thresholds, history);
      totalRequests := totalRequests + 1;
      consecutiveFailures := 0;
      tripped := false;
      history := history + [Success];
      assert history[..|history| - 1] == old(history);
    }

    method RecordFailure() returns (trip: bool)
      requires Valid()
      modifies this
      ensures Valid() && history == old(history) + [Failure]
      ensures trip == Trips(thresholds, history)
      ensures old(tripped) ==> trip && tripCount == old(tripCount)
    {
      FailureStep(thresholds, history);
      totalRequests := totalRequests + 1;
      failedRequests := failedRequests + 1;
      consecutiveFailures := consecutiveFailures + 1;
      trip := TooManyFailures();
      if trip && !tripped {
        tripCount := tripCount + 1;
        tripped := true;
      }
      history := history + [Failure];
    }

    /** The decision part of RecordFailure. */
    method TooManyFailures() returns (trip: bool)
      requires 0 <= consecutiveFailures && 0 <= failedRequests && 0 < totalRequests
      ensures trip == Exceeds(thresholds, consecutiveFailures, totalRequests, failedRequests)
    {
      trip := consecutiveFailures >= thresholds.maxConsecFailures;
      if !trip && totalRequests >= thresholds.minRequests {
        var rate := Rate(failedRequests, totalRequests);
        trip := rate >= thresholds.failThreshold;
      }
    }

    method TripCount() returns (n: int)
      requires Valid()
      ensures n == |TrippedSegments(thresholds, history)|
    {
      n := tripCount;
    }

    method Reset()
      modifies this
      ensures Valid() && history == []
    {
      consecutiveFailures, failedRequests, totalRequests := 0, 0, 0;
      tripCount, tripped := 0, false;
      history := [];
    }
  }
}

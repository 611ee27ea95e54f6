/** How far the tumbling window of the rate-limit store (ratelimit/store.go) is from the sliding one
    its documentation speaks of. */
module RateSliding {
  import opened Prelude
  import opened Clock
  import opened Sequences
  import opened RateStore

  // ---- Twice the cap ----

  /** A blocked mark opens the window at s, c requests arrive at its very end, c more just after. */
  function OpAt(s: Instant, window: Duration, c: nat, i: nat): Op
    requires window >= 0
  {
    if i == 0 then Block(s, ZERO)
    else
      var t := if i <= c then s + window else s + window + 1;
      Inc(t, t, c)
  }

  function Burst(s: Instant, window: Duration, c: nat): (ops: seq<Op>)
    requires window >= 0
    ensures |ops| == 2 * c + 1 && forall i :: 0 <= i < |ops| ==> ops[i] == OpAt(s, window, c, i)
  {
    seq(2 * c + 1, i requires 0 <= i => OpAt(s, window, c, i))
  }

  function EntryAfter(s: Instant, window: Duration, c: nat, i: nat): Entry {
    if i <= c then Entry(i, s, ZERO) else Entry(i - c, s + window + 1, ZERO)
  }

  lemma {:induction false} BurstEntry(s: Instant, window: Duration, c: nat, i: nat)
    requires c >= 1 && 1 <= window < MAX_DURATION && i <= 2 * c
    ensures After(Burst(s, window, c)[..i + 1], window) == Some(EntryAfter(s, window, c, i))
  {
    var ops := Burst(s, window, c);
    var g := ops[..i + 1];
    assert g[|g| - 1] == OpAt(s, window, c, i);
    if i == 0 {
      assert g[..0] == [];
    } else {
      assert g[..|g| - 1] == ops[..i];
      BurstEntry(s, window, c, i - 1);
    }
  }

  lemma BurstAdmitted(s: Instant, window: Duration, c: nat, i: nat)
    requires c >= 1 && 1 <= window < MAX_DURATION && i <= 2 * c
    ensures var ops := Burst(s, window, c);
            i in AdmittedIn(ops, window, s + window) <==> 1 <= i
  {
    BurstEntry(s, window, c, i);
  }

  /** Twice the cap is attained for every cap and every window that can expire. */
  lemma TwiceTheCap(s: Instant, window: Duration, c: nat)
    requires c >= 1 && 1 <= window < MAX_DURATION
    ensures var ops := Burst(s, window, c);
            Monotone(ops) && CapsAtMost(ops, c) && |AdmittedIn(ops, window, s + window)| == 2 * c
  {
    var ops := Burst(s, window, c);
    var range := Range(1, 2 * c + 1);
    forall i: nat
      ensures i in AdmittedIn(ops, window, s + window) <==> i in range
    {
      if i <= 2 * c {
        BurstAdmitted(s, window, c, i);
      }
    }
    assert AdmittedIn(ops, window, s + window) == range;
  }

  // ---- When the window does slide ----

  /** What a sliding window promises: no interval of one window length sees more than c. */
  ghost predicate Slides(ops: seq<Op>, window: Duration, c: nat) {
    forall a: int :: |AdmittedIn(ops, window, a)| <= c
  }

  ghost function AdmittedBetween(ops: seq<Op>, window: Duration, i: nat, j: nat): set<nat> {
    set k | 0 <= k < |ops| && i <= k <= j && Admitted(ops, window, k)
  }

  /** i and j are admitted and lie in one window and the next. */
  predicate Straddles(ops: seq<Op>, window: Duration, i: nat, j: nat) {
    && i < j < |ops| && Admitted(ops, window, i) && Admitted(ops, window, j)
    && Epoch(ops[..j + 1], window) == Epoch(ops[..i + 1], window) + 1
  }

  /** No more than c admissions straddle a reset within one window length. */
  ghost predicate StraddlesWide(ops: seq<Op>, window: Duration, c: nat) {
    forall i: nat, j: nat :: Straddles(ops, window, i, j) && |AdmittedBetween(ops, window, i, j)| > c ==>
      ops[j].now > ops[i].now + window
  }

  lemma EpochsInOrder(ops: seq<Op>, window: Duration, i: nat, j: nat)
    requires i <= j < |ops|
    ensures Epoch(ops[..i + 1], window) <= Epoch(ops[..j + 1], window)
  {
    assert ops[..j + 1][..i + 1] == ops[..i + 1];
    EpochsGrow(ops[..j + 1], window, i + 1);
  }

  lemma NowInOrder(ops: seq<Op>, i: nat, j: nat)
    requires Monotone(ops) && i <= j < |ops| && ops[i].Inc? && ops[j].Inc?
    ensures ops[i].now <= ops[j].now
  {
    if i < j {
      assert ops[i].At() <= ops[j].created <= ops[j].At();
    }
  }

  lemma BetweenWithin(ops: seq<Op>, window: Duration, i: nat, j: nat)
    requires Monotone(ops) && Straddles(ops, window, i, j) && ops[j].now <= ops[i].now + window
    ensures AdmittedBetween(ops, window, i, j) <= AdmittedIn(ops, window, ops[i].now)
  {
    forall k | k in AdmittedBetween(ops, window, i, j)
      ensures k in AdmittedIn(ops, window, ops[i].now)
    {
      NowInOrder(ops, i, k);
      NowInOrder(ops, k, j);
    }
  }

  lemma GreatestOf(s: set<nat>) returns (m: nat)
    requires s != {}
    ensures m in s && forall x :: x in s ==> x <= m
    decreases |s|
  {
    var x :| x in s;
    m := x;
    var rest := s - {x};
    if rest != {} {
      var k := GreatestOf(rest);
      m := if k > x then k else x;
    }
    assert forall y :: y in s ==> y == x || y in rest;
  }

  lemma IntervalInEpoch(ops: seq<Op>, window: Duration, a: int, i: nat, j: nat)
    requires i in AdmittedIn(ops, window, a) && j in AdmittedIn(ops, window, a)
    requires forall k :: k in AdmittedIn(ops, window, a) ==> i <= k <= j
    requires Epoch(ops[..j + 1], window) == Epoch(ops[..i + 1], window)
    ensures AdmittedIn(ops, window, a) <= AdmittedInEpoch(ops, window, Epoch(ops[..i + 1], window))
  {
    forall k | k in AdmittedIn(ops, window, a)
      ensures k in AdmittedInEpoch(ops, window, Epoch(ops[..i + 1], window))
    {
      EpochsInOrder(ops, window, i, k);
      EpochsInOrder(ops, window, k, j);
    }
  }

  lemma IntervalBetween(ops: seq<Op>, window: Duration, a: int, i: nat, j: nat)
    requires forall k :: k in AdmittedIn(ops, window, a) ==> i <= k <= j
    ensures |AdmittedIn(ops, window, a)| <= |AdmittedBetween(ops, window, i, j)|
  {
    SubsetSize(AdmittedIn(ops, window, a), AdmittedBetween(ops, window, i, j));
  }

  lemma SlidesAt(ops: seq<Op>, window: Duration, c: nat, a: int)
    requires Monotone(ops) && CapsAtMost(ops, c) && StraddlesWide(ops, window, c)
    ensures |AdmittedIn(ops, window, a)| <= c
  {
    var s := AdmittedIn(ops, window, a);
    if s != {} {
      var i := LeastOf(s);
      var j := GreatestOf(s);
      AdjacentEpochs(ops, window, i, j);
      if Epoch(ops[..j + 1], window) == Epoch(ops[..i + 1], window) {
        IntervalInEpoch(ops, window, a, i, j);
        EpochBound(ops, window, Epoch(ops[..i + 1], window), c);
        SubsetSize(s, AdmittedInEpoch(ops, window, Epoch(ops[..i + 1], window)));
      } else {
        assert Straddles(ops, window, i, j);
        IntervalBetween(ops, window, a, i, j);
      }
    }
  }

  /** The window is as good as a sliding one exactly when no more than c admissions straddle any
      one reset within a window length. */
  lemma SlidesExactly(ops: seq<Op>, window: Duration, c: nat)
    requires Monotone(ops) && CapsAtMost(ops, c)
    ensures Slides(ops, window, c) <==> StraddlesWide(ops, window, c)
  {
    if StraddlesWide(ops, window, c) {
      forall a: int
        ensures |AdmittedIn(ops, window, a)| <= c
      {
        SlidesAt(ops, window, c, a);
      }
    }
    if Slides(ops, window, c) {
      forall i: nat, j: nat | Straddles(ops, window, i, j) && ops[j].now <= ops[i].now + window
        ensures |AdmittedBetween(ops, window, i, j)| <= c
      {
        BetweenWithin(ops, window, i, j);
        SubsetSize(AdmittedBetween(ops, window, i, j), AdmittedIn(ops, window, ops[i].now));
      }
    }
  }

  // ---- Two checkable cases ----

  /** Every reset comes more than one window length after each admission of the window it replaces. */
  ghost predicate RestsLong(ops: seq<Op>, window: Duration) {
    forall i: nat, j: nat ::
      (i < j < |ops| && Admitted(ops, window, i) && Resets(ops[..j + 1], window)
       && Epoch(ops[..j + 1], window) == Epoch(ops[..i + 1], window) + 1)
      ==> ops[j].now > ops[i].now + window
  }

  lemma EpochNext(ops: seq<Op>, window: Duration, j: nat)
    requires j < |ops|
    ensures Epoch(ops[..j + 1], window) == Epoch(ops[..j], window) + if Resets(ops[..j + 1], window) then 1 else 0
  {
    assert ops[..j + 1][..j] == ops[..j];
  }

  /** The reset between a window and the next. */
  lemma {:induction false} FindReset(ops: seq<Op>, window: Duration, i: nat, j: nat) returns (r: nat)
    requires i < j < |ops| && Epoch(ops[..j + 1], window) == Epoch(ops[..i + 1], window) + 1
    ensures i < r <= j && Resets(ops[..r + 1], window)
    ensures Epoch(ops[..r + 1], window) == Epoch(ops[..i + 1], window) + 1
    decreases j
  {
    EpochNext(ops, window, j);
    r := j;
    if !Resets(ops[..j + 1], window) {
      r := FindReset(ops, window, i, j - 1);
    }
  }

  lemma StraddlesApart(ops: seq<Op>, window: Duration, i: nat, j: nat)
    requires Monotone(ops) && RestsLong(ops, window) && Straddles(ops, window, i, j)
    ensures ops[j].now > ops[i].now + window
  {
    var r := FindReset(ops, window, i, j);
    assert ops[..r + 1][r] == ops[r];
    NowInOrder(ops, r, j);
  }

  lemma SlidesWhenRestsLong(ops: seq<Op>, window: Duration, c: nat)
    requires Monotone(ops) && CapsAtMost(ops, c) && RestsLong(ops, window)
    ensures Slides(ops, window, c)
  {
    forall i: nat, j: nat | Straddles(ops, window, i, j)
      ensures ops[j].now > ops[i].now + window
    {
      StraddlesApart(ops, window, i, j);
    }
    SlidesExactly(ops, window, c);
  }

  /** i is the first admission of its window. */
  ghost predicate FirstOfWindow(ops: seq<Op>, window: Duration, i: nat)
    requires i < |ops|
  {
    forall k: nat ::
      (k < |ops| && Admitted(ops, window, k) && Epoch(ops[..k + 1], window) == Epoch(ops[..i + 1], window)) ==> i <= k
  }

  lemma WindowBetween(ops: seq<Op>, window: Duration, i: nat, j: nat, k: nat)
    requires Straddles(ops, window, i, j) && FirstOfWindow(ops, window, i)
    requires k < |ops| && Admitted(ops, window, k) && Epoch(ops[..k + 1], window) == Epoch(ops[..i + 1], window)
    ensures i <= k < j
  {
    if k >= j {
      EpochsInOrder(ops, window, j, k);
    }
  }

  lemma FullBetween(ops: seq<Op>, window: Duration, i: nat, j: nat)
    requires Straddles(ops, window, i, j) && FirstOfWindow(ops, window, i)
    ensures var full := AdmittedInEpoch(ops, window, Epoch(ops[..i + 1], window));
            j !in full && full + {j} <= AdmittedBetween(ops, window, i, j)
  {
    var full := AdmittedInEpoch(ops, window, Epoch(ops[..i + 1], window));
    forall k | k in full
      ensures k in AdmittedBetween(ops, window, i, j) && k != j
    {
      WindowBetween(ops, window, i, j, k);
    }
  }

  /** A full window breaks the promise as soon as the next one admits within a window length of its
      first admission. */
  lemma BreaksWhenFull(ops: seq<Op>, window: Duration, c: nat, i: nat, j: nat)
    requires Monotone(ops) && CapsAtMost(ops, c) && Straddles(ops, window, i, j)
    requires FirstOfWindow(ops, window, i) && |AdmittedInEpoch(ops, window, Epoch(ops[..i + 1], window))| == c
    requires ops[j].now <= ops[i].now + window
    ensures !Slides(ops, window, c)
  {
    var full := AdmittedInEpoch(ops, window, Epoch(ops[..i + 1], window));
    FullBetween(ops, window, i, j);
    SubsetSize(full + {j}, AdmittedBetween(ops, window, i, j));
    assert |AdmittedBetween(ops, window, i, j)| > c;
    SlidesExactly(ops, window, c);
  }

  /** Two full windows with a short rest between them need not break it: requests at s, s + w,
      s + w + 1 and s + 2w + 1 under a cap of 2 never put three into one window length. */
  function Spread(s: Instant, w: Duration): seq<Op>
    requires w >= 0
  {
    [Inc(s, s, 2), Inc(s + w, s + w, 2), Inc(s + w + 1, s + w + 1, 2), Inc(s + 2 * w + 1, s + 2 * w + 1, 2)]
  }

  lemma SpreadEntries(s: Instant, w: Duration)
    requires 1 <= w < MAX_DURATION
    ensures var ops := Spread(s, w);
            && After(ops[..1], w) == Some(Entry(1, s, ZERO)) && After(ops[..2], w) == Some(Entry(2, s, ZERO))
            && After(ops[..3], w) == Some(Entry(1, s + w + 1, ZERO))
            && After(ops[..4], w) == Some(Entry(2, s + w + 1, ZERO))
  {
    var ops := Spread(s, w);
    assert ops[..1][..0] == [] && ops[..2][..1] == ops[..1] && ops[..3][..2] == ops[..2] && ops[..4][..3] == ops[..3];
    assert After(ops[..0], w) == None;
  }

  lemma SpreadEpochs(s: Instant, w: Duration)
    requires 1 <= w < MAX_DURATION
    ensures var ops := Spread(s, w);
            && Epoch(ops[..1], w) == 0 && Epoch(ops[..2], w) == 0 && Epoch(ops[..3], w) == 1 && Epoch(ops[..4], w) == 1
  {
    var ops := Spread(s, w);
    SpreadEntries(s, w);
    assert Epoch(ops[..0], w) == 0;
    EpochNext(ops, w, 0);
    EpochNext(ops, w, 1);
    EpochNext(ops, w, 2);
    EpochNext(ops, w, 3);
    assert ops[..1][..0] == [] && ops[..2][..1] == ops[..1] && ops[..3][..2] == ops[..2] && ops[..4][..3] == ops[..3];
  }

  lemma SpreadWide(s: Instant, w: Duration, i: nat, j: nat)
    requires 1 <= w < MAX_DURATION && Straddles(Spread(s, w), w, i, j)
    ensures var ops := Spread(s, w);
            ops[j].now > ops[i].now + w || AdmittedBetween(ops, w, i, j) <= {1, 2}
  {
    SpreadEpochs(s, w);
  }

  lemma FullWindowsMaySlide(s: Instant, w: Duration)
    requires 1 <= w < MAX_DURATION
    ensures var ops := Spread(s, w);
            && Monotone(ops) && CapsAtMost(ops, 2) && Slides(ops, w, 2)
            && AdmittedInEpoch(ops, w, 0) == {0, 1} && AdmittedInEpoch(ops, w, 1) == {2, 3}
            && ops[2].now <= ops[1].now + w
  {
    var ops := Spread(s, w);
    SpreadEntries(s, w);
    SpreadEpochs(s, w);
    assert AdmittedInEpoch(ops, w, 0) == {0, 1} && AdmittedInEpoch(ops, w, 1) == {2, 3};
    forall i: nat, j: nat | Straddles(ops, w, i, j)
      ensures ops[j].now > ops[i].now + w || |AdmittedBetween(ops, w, i, j)| <= 2
    {
      SpreadWide(s, w, i, j);
      if AdmittedBetween(ops, w, i, j) <= {1, 2} {
        SubsetSize(AdmittedBetween(ops, w, i, j), {1, 2});
      }
    }
    SlidesExactly(ops, w, 2);
  }
}

/** The uniform shuffle of a ClientHello's movable extensions (extension_order.go).

    The random draws are an explicit input: draws[i] is the value the round for index i gets
    from rand.IntN(i + 1), so 0 <= draws[i] <= i (draws[0] is therefore 0 and never read).
    Every draw vector is equally likely; uniformity is the statement that draw vectors and
    rearrangements of the movable slots are in bijection. */
module ExtensionOrder {
  import opened Sequences

  datatype Extension =
    | Grease(value: nat)
    | Padding(length: nat)
    | PreSharedKey(identity: nat)
    | Other(codepoint: nat)
  {
    predicate Fixed() {
      Grease? || Padding? || PreSharedKey?
    }
  }

  predicate IsDraws(draws: seq<nat>, n: nat) {
    |draws| == n && forall i :: 0 <= i < n ==> draws[i] <= i
  }

  /** What is left in the first |s| - 1 slots once s[k] has been swapped into the last one. */
  function Remaining<T>(s: seq<T>, k: nat): (r: seq<T>)
    requires k < |s|
    ensures |r| == |s| - 1
    ensures forall i :: 0 <= i < |r| ==> r[i] == if i == k then s[|s| - 1] else s[i]
  {
    seq(|s| - 1, i requires 0 <= i < |s| - 1 => if i == k then s[|s| - 1] else s[i])
  }

  /** Fisher-Yates from the last position down. */
  function Shuffled<T>(s: seq<T>, draws: seq<nat>): (r: seq<T>)
    requires IsDraws(draws, |s|)
    ensures |r| == |s|
    decreases |s|
  {
    if |s| == 0 then []
    else
      var last := |s| - 1;
      Shuffled(Remaining(s, draws[last]), draws[..last]) + [s[draws[last]]]
  }

  lemma RemainingKeepsElements<T>(s: seq<T>, k: nat)
    requires k < |s|
    ensures multiset(Remaining(s, k)) + multiset{s[k]} == multiset(s)
  {
    var last := |s| - 1;
    var r := Remaining(s, k);
    if k == last {
      assert s == r + [s[k]];
    } else {
      assert r == s[..k] + [s[last]] + s[k + 1..last];
      assert s == s[..k] + [s[k]] + s[k + 1..last] + [s[last]];
    }
  }

  lemma {:induction false} ShuffledKeepsElements<T>(s: seq<T>, draws: seq<nat>)
    requires IsDraws(draws, |s|)
    ensures multiset(Shuffled(s, draws)) == multiset(s)
    decreases |s|
  {
    if |s| != 0 {
      var last := |s| - 1;
      ShuffledKeepsElements(Remaining(s, draws[last]), draws[..last]);
      RemainingKeepsElements(s, draws[last]);
    }
  }

  lemma RemainingDistinct<T>(s: seq<T>, k: nat)
    requires k < |s| && Distinct(s)
    ensures Distinct(Remaining(s, k))
  {
  }

  /** Two draw vectors that give the same order are the same vector. */
  lemma {:induction false} DrawsDetermined<T>(s: seq<T>, d: seq<nat>, e: seq<nat>)
    requires Distinct(s) && IsDraws(d, |s|) && IsDraws(e, |s|)
    requires Shuffled(s, d) == Shuffled(s, e)
    ensures d == e
    decreases |s|
  {
    if |s| != 0 {
      var last := |s| - 1;
      var x, y := Shuffled(Remaining(s, d[last]), d[..last]), Shuffled(Remaining(s, e[last]), e[..last]);
      assert x + [s[d[last]]] == y + [s[e[last]]];
      assert (x + [s[d[last]]])[last] == (y + [s[e[last]]])[last];
      assert x == (x + [s[d[last]]])[..last] == (y + [s[e[last]]])[..last] == y;
      RemainingDistinct(s, d[last]);
      DrawsDetermined(Remaining(s, d[last]), d[..last], e[..last]);
      assert d == d[..last] + [d[last]] && e == e[..last] + [e[last]];
    }
  }

  lemma OccursAt<T>(s: seq<T>, x: T) returns (k: nat)
    requires x in multiset(s)
    ensures k < |s| && s[k] == x
  {
    k :| 0 <= k < |s| && s[k] == x;
  }

  /** Every rearrangement is reached by some draw vector. */
  lemma {:induction false} DrawsExist<T>(s: seq<T>, target: seq<T>) returns (draws: seq<nat>)
    requires multiset(target) == multiset(s)
    ensures IsDraws(draws, |s|) && Shuffled(s, draws) == target
    decreases |s|
  {
    assert |multiset(target)| == |multiset(s)|;
    if |s| == 0 {
      return [];
    }
    var last := |s| - 1;
    var rest := target[..last];
    assert target == rest + [target[last]];
    assert target[last] in multiset(target);
    var k := OccursAt(s, target[last]);
    RemainingKeepsElements(s, k);
    assert multiset(rest) + multiset{s[k]} == multiset(Remaining(s, k)) + multiset{s[k]};
    assert multiset(rest) == multiset(Remaining(s, k)) by {
      assert multiset(rest) == multiset(rest) + multiset{s[k]} - multiset{s[k]};
    }
    var first := DrawsExist(Remaining(s, k), rest);
    draws := first + [k];
    assert draws[..last] == first;
  }

  /** Positions of the movable extensions, in order. */
  function MovablePositions(exts: seq<Extension>): (pos: seq<nat>)
    ensures forall k :: 0 <= k < |pos| ==> pos[k] < |exts| && !exts[pos[k]].Fixed()
    ensures forall j, k :: 0 <= j < k < |pos| ==> pos[j] < pos[k]
    ensures forall i :: 0 <= i < |exts| && !exts[i].Fixed() ==> i in pos
  {
    if exts == [] then []
    else
      var n := |exts| - 1;
      var pos := MovablePositions(exts[..n]);
      if exts[n].Fixed() then pos else pos + [n]
  }

  function Gather<T>(s: seq<T>, pos: seq<nat>): (r: seq<T>)
    requires forall k :: 0 <= k < |pos| ==> pos[k] < |s|
    ensures |r| == |pos|
    ensures forall k :: 0 <= k < |pos| ==> r[k] == s[pos[k]]
  {
    seq(|pos|, k requires 0 <= k < |pos| => s[pos[k]])
  }

  function Movable(exts: seq<Extension>): seq<Extension> {
    Gather(exts, MovablePositions(exts))
  }

  predicate FixedKept(before: seq<Extension>, after: seq<Extension>) {
    |after| == |before| && forall i :: 0 <= i < |before| && before[i].Fixed() ==> after[i] == before[i]
  }

  /** after has the extensions of before with the movable ones permuted among their own slots. */
  ghost predicate Rearrangement(before: seq<Extension>, after: seq<Extension>) {
    && |after| == |before|
    && FixedKept(before, after)
    && multiset(Gather(after, MovablePositions(before))) == multiset(Movable(before))
  }

  /** after is what the shuffle makes of before under draws. */
  ghost predicate ShuffleOf(before: seq<Extension>, draws: seq<nat>, after: seq<Extension>) {
    && IsDraws(draws, |Movable(before)|)
    && |after| == |before|
    && FixedKept(before, after)
    && Gather(after, MovablePositions(before)) == Shuffled(Movable(before), draws)
  }

  /** g agrees with the result from slot n on, and shuffling its first n slots gives the rest. */
  ghost predicate Settled<T>(s: seq<T>, draws: seq<nat>, n: nat, g: seq<T>) {
    && IsDraws(draws, |s|)
    && n <= |g| == |s|
    && Shuffled(s, draws) == Shuffled(g[..n], draws[..n]) + g[n..]
  }

  lemma RoundStep<T>(s: seq<T>, draws: seq<nat>, i: nat, g: seq<T>, h: seq<T>)
    requires IsDraws(draws, |s|) && i < |s| && Settled(s, draws, i + 1, g)
    requires |h| == |g| && h[i] == g[draws[i]] && h[draws[i]] == g[i]
    requires forall k :: 0 <= k < |g| && k != i && k != draws[i] ==> h[k] == g[k]
    ensures Settled(s, draws, i, h)
  {
    assert draws[..i + 1][..i] == draws[..i];
    assert Remaining(g[..i + 1], draws[i]) == h[..i];
    assert h[i..] == [h[i]] + g[i + 1..];
    assert Shuffled(g[..i + 1], draws[..i + 1]) == Shuffled(h[..i], draws[..i]) + [h[i]];
  }

  /** The list now, when slots pos[n..] already hold their final extensions. */
  ghost predicate InRound(before: seq<Extension>, draws: seq<nat>, n: nat, now: seq<Extension>) {
    && |now| == |before|
    && FixedKept(before, now)
    && Settled(Movable(before), draws, n, Gather(now, MovablePositions(before)))
  }

  /** One exchange of slots pos[i] and pos[draws[i]] of the extension list a. */
  lemma ExchangeStep(before: seq<Extension>, draws: seq<nat>, i: nat, a: seq<Extension>, b: seq<Extension>)
    requires IsDraws(draws, |Movable(before)|) && i < |Movable(before)| && |a| == |before|
    ensures var pos := MovablePositions(before);
            var p, q := pos[i], pos[draws[i]];
            InRound(before, draws, i + 1, a) && b == a[p := a[q]][q := a[p]] ==> InRound(before, draws, i, b)
  {
    var pos := MovablePositions(before);
    var p, q := pos[i], pos[draws[i]];
    if InRound(before, draws, i + 1, a) && b == a[p := a[q]][q := a[p]] {
      assert FixedKept(before, b);
      var g, h := Gather(a, pos), Gather(b, pos);
      RoundStep(Movable(before), draws, i, g, h);
    }
  }

  lemma RoundsStart(before: seq<Extension>, draws: seq<nat>)
    requires IsDraws(draws, |Movable(before)|)
    ensures InRound(before, draws, |Movable(before)|, before)
  {
    var g := Movable(before);
    assert g[..|g|] == g && draws[..|g|] == draws && Shuffled(g, draws) + [] == Shuffled(g, draws);
  }

  /** Shuffling at most one element changes nothing. */
  lemma ShortShuffle<T>(s: seq<T>, draws: seq<nat>)
    requires |s| <= 1 && IsDraws(draws, |s|)
    ensures Shuffled(s, draws) == s
  {
    if |s| == 1 {
      assert draws[0] == 0 && Remaining(s, 0) == [];
      assert Shuffled(s, draws) == [s[0]];
    }
  }

  lemma SettledEnd<T>(s: seq<T>, draws: seq<nat>, n: nat, g: seq<T>)
    requires IsDraws(draws, |s|) && n <= 1 && Settled(s, draws, n, g)
    ensures g == Shuffled(s, draws)
  {
    var a, b := g[..n], g[n..];
    assert g == a + b;
    ShortShuffle(a, draws[..n]);
  }

  /** With at most one slot left there is nothing to exchange. */
  lemma RoundsEnd(before: seq<Extension>, draws: seq<nat>, n: nat, now: seq<Extension>)
    requires IsDraws(draws, |Movable(before)|) && n <= 1 && InRound(before, draws, n, now)
    ensures ShuffleOf(before, draws, now)
  {
    SettledEnd(Movable(before), draws, n, Gather(now, MovablePositions(before)));
  }

  method Exchange(exts: array<Extension>, p: nat, q: nat)
    requires p < exts.Length && q < exts.Length
    modifies exts
    ensures exts[..] == old(exts[..])[p := old(exts[q])][q := old(exts[p])]
  {
    exts[p], exts[q] := exts[q], exts[p];
  }

  /** The in-place shuffle. */
  method ShuffleMovableExtensions(exts: array<Extension>, draws: seq<nat>)
    requires IsDraws(draws, |Movable(exts[..])|)
    modifies exts
    ensures ShuffleOf(old(exts[..]), draws, exts[..])
  {
    ghost var before := exts[..];
    var pos := CollectMovable(exts);
    RoundsStart(before, draws);
    var i := |pos| - 1;
    while i > 0
      invariant -1 <= i < |pos| && (i < 0 ==> |pos| == 0)
      invariant InRound(before, draws, i + 1, exts[..])
    {
      ghost var a := exts[..];
      Exchange(exts, pos[i], pos[draws[i]]);
      ExchangeStep(before, draws, i, a, exts[..]);
      i := i - 1;
    }
    RoundsEnd(before, draws, i + 1, exts[..]);
  }

  /** The first loop: collect the positions of the movable extensions. */
  method CollectMovable(exts: array<Extension>) returns (pos: seq<nat>)
    ensures pos == MovablePositions(exts[..])
    ensures forall i :: i in pos <==> 0 <= i < exts.Length && exts[i].Other?
  {
    pos := [];
    for i := 0 to exts.Length
      invariant pos == MovablePositions(exts[..i])
    {
      assert exts[..i + 1][..i] == exts[..i];
      if !exts[i].Fixed() {
        pos := pos + [i];
      }
    }
    assert exts[..exts.Length] == exts[..];
  }

  /** The results are exactly the rearrangements of the movable slots; when the movable extensions
      differ, each is produced by exactly one vector. */
  lemma UniformOverRearrangements(before: seq<Extension>, after: seq<Extension>)
    ensures Rearrangement(before, after) <==> exists draws :: ShuffleOf(before, draws, after)
    ensures Distinct(Movable(before)) ==>
              forall d, e :: ShuffleOf(before, d, after) && ShuffleOf(before, e, after) ==> d == e
  {
    if Rearrangement(before, after) {
      var draws := DrawsExist(Movable(before), Gather(after, MovablePositions(before)));
      assert ShuffleOf(before, draws, after);
    }
    forall draws | ShuffleOf(before, draws, after)
      ensures Rearrangement(before, after)
    {
      ShuffledKeepsElements(Movable(before), draws);
    }
    forall d, e | Distinct(Movable(before)) && ShuffleOf(before, d, after) && ShuffleOf(before, e, after)
      ensures d == e
    {
      DrawsDetermined(Movable(before), d, e);
    }
  }

  /** GREASE, padding and the pre-shared key stay where they are; all others are movable. */
  lemma OthersMove(before: seq<Extension>, draws: seq<nat>, after: seq<Extension>)
    requires ShuffleOf(before, draws, after)
    ensures forall i :: 0 <= i < |before| && !before[i].Other? ==> after[i] == before[i]
    ensures forall i :: i in MovablePositions(before) <==> 0 <= i < |before| && before[i].Other?
  {
  }

  /** Two vectors never give the same ClientHello, and each vector gives exactly one. */
  lemma ResultDetermined(before: seq<Extension>, draws: seq<nat>, a: seq<Extension>, b: seq<Extension>)
    requires ShuffleOf(before, draws, a) && ShuffleOf(before, draws, b)
    ensures a == b
  {
    var pos := MovablePositions(before);
    forall i | 0 <= i < |before|
      ensures a[i] == b[i]
    {
      if !before[i].Fixed() {
        var k :| 0 <= k < |pos| && pos[k] == i;
        assert a[pos[k]] == Gather(a, pos)[k] == Gather(b, pos)[k] == b[pos[k]];
      }
    }
  }

  // ---- Slots instead of values ----

  function Slots(n: nat): (s: seq<nat>)
    ensures |s| == n && forall i :: 0 <= i < n ==> s[i] == i
  {
    seq(n, i => i)
  }

  function Mapped<S, T>(f: S -> T, s: seq<S>): (r: seq<T>)
    ensures |r| == |s| && forall i :: 0 <= i < |r| ==> r[i] == f(s[i])
  {
    seq(|s|, i requires 0 <= i < |s| => f(s[i]))
  }

  /** The draws alone decide which slot goes where, whatever the slots hold. */
  lemma {:induction false} ShuffledMapped<S, T>(f: S -> T, s: seq<S>, draws: seq<nat>)
    requires IsDraws(draws, |s|)
    ensures Shuffled(Mapped(f, s), draws) == Mapped(f, Shuffled(s, draws))
    decreases |s|
  {
    if |s| != 0 {
      var last := |s| - 1;
      var rest := Remaining(s, draws[last]);
      ShuffledMapped(f, rest, draws[..last]);
      assert Remaining(Mapped(f, s), draws[last]) == Mapped(f, rest);
    }
  }

  lemma ShuffledIn<T>(s: seq<T>, draws: seq<nat>, k: nat) returns (i: nat)
    requires IsDraws(draws, |s|) && k < |s|
    ensures i < |s| && Shuffled(s, draws)[k] == s[i]
  {
    var r := Shuffled(s, draws);
    ShuffledKeepsElements(s, draws);
    assert r[k] in multiset(r);
    i := OccursAt(s, r[k]);
  }

  /** Which slot each slot's content comes from. */
  function Sources(n: nat, draws: seq<nat>): (r: seq<nat>)
    requires IsDraws(draws, n)
    ensures |r| == n
  {
    Shuffled<nat>(Slots(n), draws)
  }

  lemma SourcesInRange(n: nat, draws: seq<nat>, k: nat)
    requires IsDraws(draws, n) && k < n
    ensures Sources(n, draws)[k] < n
  {
    var i := ShuffledIn<nat>(Slots(n), draws, k);
    assert Slots(n)[i] == i;
  }

  lemma MovesBy<T>(f: nat -> T, s: seq<T>, draws: seq<nat>, k: nat)
    requires IsDraws(draws, |s|) && k < |s| && Mapped<nat, T>(f, Slots(|s|)) == s
    ensures Shuffled(s, draws)[k] == f(Sources(|s|, draws)[k])
  {
    ShuffledMapped<nat, T>(f, Slots(|s|), draws);
  }

  /** Position k ends up with what position Sources(n, draws)[k] held, whatever the elements. */
  lemma MovesSlots<T>(s: seq<T>, draws: seq<nat>, k: nat)
    requires IsDraws(draws, |s|) && k < |s|
    ensures var from := Sources(|s|, draws)[k]; from < |s| && Shuffled(s, draws)[k] == s[from]
  {
    var f: nat -> T := (i: nat) => if i < |s| then s[i] else s[0];
    assert Mapped<nat, T>(f, Slots(|s|)) == s;
    SourcesInRange(|s|, draws, k);
    MovesBy(f, s, draws, k);
  }

  /** Uniformity on slots, for any ClientHello: each permutation of the movable slots comes from
      exactly one draw vector, and nothing else does. */
  lemma UniformOverSlots(n: nat, sources: seq<nat>)
    ensures multiset(sources) == multiset(Slots(n)) <==>
            exists draws :: IsDraws(draws, n) && Sources(n, draws) == sources
    ensures forall d, e ::
              (IsDraws(d, n) && IsDraws(e, n) && Sources(n, d) == sources && Sources(n, e) == sources) ==> d == e
  {
    assert Distinct<nat>(Slots(n));
    if multiset(sources) == multiset(Slots(n)) {
      var draws := DrawsExist<nat>(Slots(n), sources);
      assert Sources(n, draws) == sources;
    }
    forall draws | IsDraws(draws, n) && Sources(n, draws) == sources
      ensures multiset(sources) == multiset(Slots(n))
    {
      ShuffledKeepsElements<nat>(Slots(n), draws);
    }
    forall d, e | IsDraws(d, n) && IsDraws(e, n) && Sources(n, d) == sources && Sources(n, e) == sources
      ensures d == e
    {
      DrawsDetermined<nat>(Slots(n), d, e);
    }
  }

  lemma SwapKeepsSlots(n: nat, i: nat, j: nat)
    requires i < j < n
    ensures multiset(Slots(n)[i := j][j := i]) == multiset(Slots(n))
  {
  }

  lemma SameContent<T>(s: seq<T>, sources: seq<nat>, draws: seq<nat>)
    requires IsDraws(draws, |s|) && Sources(|s|, draws) == sources
    requires forall k :: 0 <= k < |s| ==> sources[k] < |s| && s[sources[k]] == s[k]
    ensures Shuffled(s, draws) == s
  {
    forall k | 0 <= k < |s|
      ensures Shuffled(s, draws)[k] == s[k]
    {
      MovesSlots(s, draws, k);
    }
  }

  /** Two equal elements make two vectors that change nothing. */
  lemma TwoVectors<T>(s: seq<T>, i: nat, j: nat) returns (d: seq<nat>, e: seq<nat>)
    requires i < j < |s| && s[i] == s[j]
    ensures IsDraws(d, |s|) && IsDraws(e, |s|) && d != e && Shuffled(s, d) == s && Shuffled(s, e) == s
  {
    var slots: seq<nat> := Slots(|s|);
    var swapped: seq<nat> := slots[i := j][j := i];
    SwapKeepsSlots(|s|, i, j);
    d := DrawsExist<nat>(slots, slots);
    e := DrawsExist<nat>(slots, swapped);
    assert swapped[i] != slots[i];
    SameContent(s, slots, d);
    SameContent(s, swapped, e);
  }

  /** Different vectors always give different ClientHellos. */
  ghost predicate OneVectorEach(before: seq<Extension>) {
    forall after, d, e :: ShuffleOf(before, d, after) && ShuffleOf(before, e, after) ==> d == e
  }

  /** That is so exactly when no two movable extensions are equal. */
  lemma OneVectorExactly(before: seq<Extension>)
    ensures OneVectorEach(before) <==> Distinct(Movable(before))
  {
    var s := Movable(before);
    if Distinct(s) {
      forall after, d, e | ShuffleOf(before, d, after) && ShuffleOf(before, e, after)
        ensures d == e
      {
        UniformOverRearrangements(before, after);
      }
    } else {
      var i, j :| 0 <= i < j < |s| && s[i] == s[j];
      var d, e := TwoVectors(s, i, j);
      assert ShuffleOf(before, d, before) && ShuffleOf(before, e, before);
    }
  }
}

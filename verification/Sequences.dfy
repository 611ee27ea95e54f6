/** Small facts about lists and sets that several modules use. */
module Sequences {

  predicate Distinct<T(==)>(s: seq<T>) {
    forall i, j :: 0 <= i < j < |s| ==> s[i] != s[j]
  }

  /** Index of the first x in s. */
  function IndexOf<T(==)>(s: seq<T>, x: T): (k: nat)
    requires x in s
    ensures k < |s| && s[k] == x && forall i :: 0 <= i < k ==> s[i] != x
  {
    if s[0] == x then 0 else 1 + IndexOf(s[1..], x)
  }

  lemma SubsetSize<T>(a: set<T>, b: set<T>)
    requires a <= b
    ensures |a| <= |b|
  {
    assert b == a + (b - a);
  }

  lemma SameSizeSubset<T>(a: set<T>, b: set<T>)
    requires a <= b && |a| == |b|
    ensures a == b
  {
    assert b == a + (b - a);
  }

  /** The numbers from m up to n. */
  function Range(m: nat, n: nat): (s: set<nat>)
    requires m <= n
    ensures |s| == n - m && forall i :: i in s <==> m <= i < n
    decreases n
  {
    if m < n then Range(m, n - 1) + {n - 1} else {}
  }

  /** A list is as long as its set of elements exactly when nothing occurs twice. */
  lemma {:induction false} SetOfDistinct<T>(s: seq<T>)
    ensures |set x | x in s| <= |s|
    ensures |set x | x in s| == |s| <==> Distinct(s)
  {
    if |s| > 0 {
      var front, last := s[..|s| - 1], s[|s| - 1];
      SetOfDistinct(front);
      assert s == front + [last];
      var before, all := set x | x in front, set x | x in s;
      assert all == before + {last};
      if last in front {
        var i :| 0 <= i < |front| && front[i] == last;
        assert s[i] == s[|s| - 1];
        assert all == before;
      } else {
        assert Distinct(s) <==> Distinct(front);
      }
    }
  }
}

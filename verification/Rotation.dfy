/** Positions on a ring of n slots, and the remainders the source computes them with. */
module Rotation {

  /** The position k steps after idx in a ring of n. */
  function Ring(idx: nat, k: nat, n: nat): (p: nat)
    requires idx < n && k < n
    ensures p < n
  {
    if idx + k < n then idx + k else idx + k - n
  }

  /** Steps from idx to p around the ring. */
  function Distance(idx: nat, p: nat, n: nat): (d: nat)
    requires idx < n && p < n
    ensures d < n && Ring(idx, d, n) == p
  {
    if p >= idx then p - idx else p + n - idx
  }

  lemma ModOf(a: nat, q: nat, r: nat, n: nat)
    requires r < n && a == q * n + r
    ensures a % n == r
  {
    var d := a / n - q;
    assert a == (a / n) * n + a % n;
    assert d * n == r - a % n;
    if d > 0 {
      AtLeast(d, n);
    } else if d < 0 {
      AtLeast(-d, n);
    }
  }

  lemma AtLeast(d: int, n: nat)
    requires d >= 1
    ensures d * n >= n
  {
    assert (d - 1) * n >= 0;
  }

  lemma RingIsMod(idx: nat, k: nat, n: nat)
    requires idx < n && k < n
    ensures (idx + k) % n == Ring(idx, k, n)
  {
    ModOf(idx + k, if idx + k < n then 0 else 1, Ring(idx, k, n), n);
  }

  /** Counting on from c visits the slots after slot c % n in ring order. */
  lemma CountsRound(c: nat, k: nat, n: nat)
    requires k < n
    ensures c % n < n && (c + k) % n == Ring(c % n, k, n)
  {
    var q, r := c / n, c % n;
    assert c == q * n + r;
    if r + k < n {
      ModOf(c + k, q, r + k, n);
    } else {
      assert (q + 1) * n == q * n + n;
      ModOf(c + k, q + 1, r + k - n, n);
    }
  }
}

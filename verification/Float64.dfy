/** float64 rounding of nonnegative reals: 53 significant bits, to nearest, ties to even. Exponents
    are unbounded, which makes no difference between 2^-1022 and 2^1024, where rates lie. */
module Float64 {

  /** Spacing of the doubles between one half and one is 1 / GRID. */
  const GRID := 9007199254740992.0

  /** The whole number nearest to y, the even one of two. */
  function RoundEven(y: real): int {
    var n := y.Floor;
    var rest := y - n as real;
    if rest < 0.5 || (rest == 0.5 && n % 2 == 0) then n else n + 1
  }

  ghost function Steps(x: real): real {
    if x >= 1.0 then 2.0 * x else if x >= 0.5 || x == 0.0 then 0.0 else 1.0 / x
  }

  lemma InverseHalves(x: real)
    requires 0.0 < x < 0.5
    ensures 1.0 / x > 2.0
    ensures 1.0 / (2.0 * x) <= 1.0 / x - 1.0
  {
    var q, h := 1.0 / x, 1.0 / (2.0 * x);
    assert q * x == 1.0 && h * (2.0 * x) == 1.0;
    assert (q - 2.0 * h) * x == 0.0;
    assert q == 2.0 * h;
    assert h * (2.0 * x) == 1.0 && 2.0 * x < 1.0;
    assert h > 1.0;
  }

  /** The double nearest to x. */
  function Nearest(x: real): (r: real)
    requires x >= 0.0
    ensures r >= 0.0
    decreases Steps(x)
  {
    if x == 0.0 then 0.0
    else if x >= 1.0 then 2.0 * Nearest(x / 2.0)
    else if x < 0.5 then
      assert Steps(2.0 * x) <= Steps(x) - 1.0 by {
        InverseHalves(x);
      }
      Nearest(2.0 * x) / 2.0
    else RoundEven(x * GRID) as real / GRID
  }

  lemma RoundEvenMonotone(y: real, z: real)
    requires y <= z
    ensures RoundEven(y) <= RoundEven(z)
  {
    var m, n := y.Floor, z.Floor;
    assert m <= n;
  }

  lemma RoundEvenNear(y: real)
    ensures y - 0.5 <= RoundEven(y) as real <= y + 0.5
  {
  }

  /** Rounding does not cross one half or one. */
  lemma {:induction false} NearestSide(x: real)
    requires x >= 0.0
    ensures x >= 1.0 ==> Nearest(x) >= 1.0
    ensures x >= 0.5 ==> Nearest(x) >= 0.5
    ensures x < 1.0 ==> Nearest(x) <= 1.0
    ensures x < 0.5 ==> Nearest(x) <= 0.5
    decreases Steps(x)
  {
    if x >= 1.0 {
      NearestSide(x / 2.0);
    } else if 0.0 < x < 0.5 {
      InverseHalves(x);
      NearestSide(2.0 * x);
    } else if x > 0.0 {
      RoundEvenMonotone(0.5 * GRID, x * GRID);
      RoundEvenMonotone(x * GRID, GRID);
    }
  }

  /** Rounding keeps the order. */
  lemma {:induction false} NearestMonotone(x: real, y: real)
    requires 0.0 <= x <= y
    ensures Nearest(x) <= Nearest(y)
    decreases Steps(x)
  {
    NearestSide(x);
    NearestSide(y);
    if x >= 1.0 {
      NearestMonotone(x / 2.0, y / 2.0);
    } else if 0.0 < x <= y < 0.5 {
      InverseHalves(x);
      NearestMonotone(2.0 * x, 2.0 * y);
    } else if 0.5 <= x <= y < 1.0 {
      RoundEvenMonotone(x * GRID, y * GRID);
    }
  }

  /** Up to one, rounding is off by at most 2^-54. */
  lemma {:induction false} NearestNear(x: real)
    requires 0.0 <= x <= 1.0
    ensures x - 0.5 / GRID <= Nearest(x) <= x + 0.5 / GRID
    decreases Steps(x)
  {
    if x == 1.0 {
      assert Nearest(0.5) == 0.5;
    } else if 0.0 < x < 0.5 {
      InverseHalves(x);
      NearestNear(2.0 * x);
    } else if x > 0.0 {
      RoundEvenNear(x * GRID);
    }
  }
}

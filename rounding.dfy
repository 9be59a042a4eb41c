/** Python's `round(x, 1)`: the multiple of one tenth nearest to `x`, ties
    going to the even multiple (banker's rounding), taken here on exact reals. */
module Rounding {

  /** `x` has at most one decimal place. */
  predicate IsTenth(x: real) {
    (x * 10.0).Floor as real == x * 10.0
  }

  /** The integer nearest to `y`, ties to the even one. */
  function RoundHalfEven(y: real): (n: int)
    ensures -0.5 <= n as real - y <= 0.5
    ensures n as real - y == 0.5 || n as real - y == -0.5 ==> n % 2 == 0
  {
    var f := y.Floor;
    var frac := y - f as real;
    if frac < 0.5 then f
    else if frac > 0.5 then f + 1
    else if f % 2 == 0 then f
    else f + 1
  }

  function Round1(x: real): (r: real)
    ensures IsTenth(r)
    ensures -0.05 <= r - x <= 0.05
  {
    var n := RoundHalfEven(x * 10.0);
    assert (n as real).Floor == n;
    n as real * 0.1
  }

  /** Every integer rounds to itself. */
  lemma RoundHalfEvenOfInteger(k: int)
    ensures RoundHalfEven(k as real) == k
  {
    assert (k as real).Floor == k;
  }

  /** A value that already has one decimal place is left as it is, so the
      integer sentinel −50 comes out of `round(-50, 1)` unchanged. */
  lemma Round1OfTenth(x: real)
    requires IsTenth(x)
    ensures Round1(x) == x
  {
    var k := (x * 10.0).Floor;
    RoundHalfEvenOfInteger(k);
  }

  /** Rounding to the nearest integer never reverses an order. */
  lemma RoundHalfEvenMonotone(y: real, z: real)
    requires y <= z
    ensures RoundHalfEven(y) <= RoundHalfEven(z)
  {
    var fy, fz := y.Floor, z.Floor;
    if fy < fz {
      assert RoundHalfEven(y) <= fy + 1 <= fz <= RoundHalfEven(z);
    } else {
      assert fy == fz;
    }
  }

  /** Rounding to one decimal never reverses an order. */
  lemma Round1Monotone(x: real, y: real)
    requires x <= y
    ensures Round1(x) <= Round1(y)
  {
    RoundHalfEvenMonotone(x * 10.0, y * 10.0);
  }

  /** A value strictly within half a tenth of k/10 rounds to k/10. */
  lemma Round1Near(x: real, k: int)
    requires k as real - 0.5 < x * 10.0 < k as real + 0.5
    ensures Round1(x) == k as real * 0.1
  {
    var n := RoundHalfEven(x * 10.0);
    assert n == k;
  }
}

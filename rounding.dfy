/** Rounding to the nearest integer, as Python's built-in `round(x)` does for
    one argument: the nearest integer, and on an exact tie the even one.
    The model works on exact reals, so a value that a binary float cannot
    represent exactly (50 * 0.07, say) is rounded from its exact value here. */
module Rounding {

  /** |x - y| for reals. */
  function Dist(x: real, y: real): (d: real)
    ensures d >= 0.0
    ensures d == x - y || d == y - x
  {
    if x >= y then x - y else y - x
  }

  /** Round half to even. */
  function RoundHalfEven(x: real): (r: int)
    ensures Dist(r as real, x) <= 0.5
    ensures Dist(r as real, x) == 0.5 ==> r % 2 == 0
  {
    var f := x.Floor;
    var frac := x - f as real;
    if frac < 0.5 then f
    else if frac > 0.5 then f + 1
    else if f % 2 == 0 then f
    else f + 1
  }

  /** The two ensures clauses "within one half" and "ties go to the even
      integer" determine the result: any integer that meets them is
      RoundHalfEven(x). */
  lemma RoundHalfEvenUnique(x: real, n: int)
    requires Dist(n as real, x) <= 0.5
    requires Dist(n as real, x) == 0.5 ==> n % 2 == 0
    ensures n == RoundHalfEven(x)
  {
  }

  /** RoundHalfEven(x) is a nearest integer to x: no integer is closer. */
  lemma RoundHalfEvenNearest(x: real, n: int)
    ensures Dist(RoundHalfEven(x) as real, x) <= Dist(n as real, x)
  {
    var r := RoundHalfEven(x);
    if n > r {
      assert n as real >= r as real + 1.0;
      assert Dist(n as real, x) >= 0.5;
    } else if n < r {
      assert n as real <= r as real - 1.0;
      assert Dist(n as real, x) >= 0.5;
    }
  }

  /** Any rounding within one half keeps a value of [lo, hi] (integer bounds)
      inside [lo, hi]. */
  lemma WithinHalfKeepsIntegerBounds(x: real, r: int, lo: int, hi: int)
    requires lo as real <= x <= hi as real
    requires Dist(r as real, x) <= 0.5
    ensures lo <= r <= hi
  {
  }
}

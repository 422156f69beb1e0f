/** Rounding to the minor unit of the accounting precision.  Amounts that the
    program keeps rounded are integers counted in minor units; amounts that it
    has not rounded yet are reals counted in the same unit. */
module Rounding {

  /** Python 2 `round`: to the nearest integer, halves away from zero. */
  function Round(x: real): (r: int)
    ensures x - 0.5 <= r as real <= x + 0.5
  {
    if x >= 0.0 then (x + 0.5).Floor else -((-x + 0.5).Floor)
  }

  lemma RoundOfInt(n: int)
    ensures Round(n as real) == n
  {}

  /** Rounding keeps order. */
  lemma RoundMonotone(x: real, y: real)
    requires x <= y
    ensures Round(x) <= Round(y)
  {
    if x < 0.0 <= y {
      assert Round(x) <= 0 <= Round(y);
    }
  }

  /** A value between two whole amounts stays between them. */
  lemma RoundBetween(lo: int, x: real, hi: int)
    requires lo as real <= x <= hi as real
    ensures lo <= Round(x) <= hi
  {
    RoundMonotone(lo as real, x);
    RoundMonotone(x, hi as real);
    RoundOfInt(lo);
    RoundOfInt(hi);
  }

  /** Halves go away from zero, symmetrically. */
  lemma RoundNegates(x: real)
    ensures Round(-x) == -Round(x)
  {}
}

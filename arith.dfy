/** Small facts about integer division and multiplication used by the block and pixel addressing. */
module Arith {

  /** Multiplying by a non-negative factor preserves order. */
  lemma MulMonotone(a: int, b: int, d: int)
    requires a <= b && 0 <= d
    ensures a * d <= b * d
  {
    assert b * d - a * d == (b - a) * d;
  }

  /** A product of two non-negative numbers is non-negative; nothing is promised otherwise. */
  lemma ProductNonNegative(a: int, b: int)
    ensures 0 <= a && 0 <= b ==> 0 <= a * b
  {
    if 0 <= a && 0 <= b {
      MulMonotone(0, a, b);
    }
  }

  /** Division with remainder is unique: if x == q * d + r and 0 <= r < d, then q and r are x / d and x % d. */
  lemma DivModUnique(x: int, d: int, q: int, r: int)
    requires 0 < d && 0 <= r < d && x == q * d + r
    ensures x / d == q && x % d == r
  {
    var q', r' := x / d, x % d;
    assert x == q' * d + r' && 0 <= r' < d;
    if q' < q {
      MulMonotone(q' + 1, q, d);
      assert false;
    } else if q < q' {
      MulMonotone(q + 1, q', d);
      assert false;
    }
  }

  /** `x` is rebuilt from its quotient and remainder by `d`. */
  lemma DivModParts(x: int, d: int)
    requires 0 < d
    ensures (x / d) * d + x % d == x && 0 <= x % d < d
  {
  }
}

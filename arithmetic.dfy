/**
 * Facts about integer multiplication and remainder that the solver does not
 * find on its own; each isolates one non-linear step.
 */
module Arithmetic {

  lemma MulMonotone(a: int, b: int, y: int)
    requires a <= b && 0 <= y
    ensures a * y <= b * y
  {
    assert b * y - a * y == (b - a) * y;
  }

  lemma MulSuccLeft(q: int, y: int)
    ensures (q + 1) * y == q * y + y
  {
  }

  lemma DivModDecompose(x: int, y: int)
    requires 0 < y
    ensures x == (x / y) * y + x % y && 0 <= x % y < y
  {
  }

  /** The remainder is the only m in [0, y) with x == q * y + m. */
  lemma ModUnique(x: int, y: int, q: int, m: int)
    requires 0 < y && 0 <= m < y && x == q * y + m
    ensures x % y == m
  {
    var q2 := x / y;
    DivModDecompose(x, y);
    if q2 > q {
      MulMonotone(q + 1, q2, y);
      MulSuccLeft(q, y);
      assert false;
    } else if q2 < q {
      MulMonotone(q2 + 1, q, y);
      MulSuccLeft(q2, y);
      assert false;
    }
  }

  /** A number below the divisor is its own remainder. */
  lemma ModOfSmaller(x: nat, y: nat)
    requires x < y
    ensures x % y == x
  {
    ModUnique(x, y, 0, x);
  }

  /** Taking the divisor away once does not change the remainder. */
  lemma ModOfDifference(x: nat, y: nat)
    requires 0 < y <= x
    ensures (x - y) % y == x % y
  {
    var z := x - y;
    DivModDecompose(z, y);
    MulSuccLeft(z / y, y);
    ModUnique(x, y, z / y + 1, z % y);
  }
}

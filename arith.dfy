/** Facts about integer division and remainder (floor division, as Python's
    `//` and `%` compute it for a positive divisor), each proved once so that
    the calendar and clock proofs need no non-linear reasoning of their own. */
module Arith {

  lemma MulAtLeast(k: int, b: int)
    requires k >= 1 && b > 0
    ensures k * b >= b
  {
  }

  /** Quotient and remainder are the only pair that rebuilds `a`. */
  lemma DivModUnique(a: int, b: int, q: int, r: int)
    requires b > 0 && 0 <= r < b && a == q * b + r
    ensures a / b == q && a % b == r
  {
    var q', r' := a / b, a % b;
    var k := q - q';
    assert k * b == r' - r;
    if k >= 1 {
      MulAtLeast(k, b);
    } else if k <= -1 {
      MulAtLeast(-k, b);
    }
  }

  /** Adding one to `p` raises `p / b` by one exactly when `p + 1` is a
      multiple of `b`. */
  lemma DivStep(p: int, b: int)
    requires b > 0
    ensures (p + 1) / b == p / b + (if (p + 1) % b == 0 then 1 else 0)
  {
    var q, r := p / b, p % b;
    if r == b - 1 {
      DivModUnique(p + 1, b, q + 1, 0);
    } else {
      DivModUnique(p + 1, b, q, r + 1);
    }
  }

  /** A multiple of `b` divided by `b`. */
  lemma DivOfMultiple(x: int, b: int)
    requires b > 0
    ensures (x * b) / b == x && (x * b) % b == 0
  {
    DivModUnique(x * b, b, x, 0);
  }

  /** A multiple of `a * c` is a multiple of `a`. */
  lemma MultipleOfFactor(x: int, a: int, c: int)
    requires a > 0 && c > 0 && x % (a * c) == 0
    ensures x % a == 0
  {
    var k := x / (a * c);
    assert x == k * (a * c);
    assert x == (k * c) * a;
    DivModUnique(x, a, k * c, 0);
  }
}

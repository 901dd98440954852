/** Arithmetic facts the statistics need: distributivity steps the solver
    does not find on its own, uniqueness of Euclidean division, and bounds on
    real quotients. */
module Arith {

  lemma MulAtLeast(a: int, d: int)
    requires a >= 1 && d > 0
    ensures a * d >= d
  {
  }

  lemma MulSplit(a: int, b: int, d: int)
    ensures a * d == b * d + (a - b) * d
  {
  }

  lemma DivModUnique(x: nat, d: nat, q: nat, r: nat)
    requires d > 0 && r < d && x == q * d + r
    ensures x / d == q && x % d == r
  {
    var q', r' := x / d, x % d;
    assert x == q' * d + r';
    if q' > q {
      MulSplit(q', q, d);
      MulAtLeast(q' - q, d);
    } else if q' < q {
      MulSplit(q, q', d);
      MulAtLeast(q - q', d);
    }
  }

  lemma MulStep(a: int, n: int)
    ensures a * (n + 1) == a * n + a
  {
  }

  lemma Ratio(a: nat, b: nat, n: nat)
    requires b > 0 && n > 0
    ensures (a * n) as real / (b * n) as real == a as real / b as real
  {
    var x, y, z := a as real, b as real, n as real;
    assert (a * n) as real == x * z && (b * n) as real == y * z;
    assert (x * z) / (y * z) * (y * z) == x * z;
  }

  lemma DivAtLeast(x: real, y: real, c: real)
    requires 0.0 < y && c * y <= x
    ensures c <= x / y
  {
    assert x / y - c == (x - c * y) / y;
  }

  lemma DivAtMost(x: real, y: real, c: real)
    requires 0.0 < y && x <= c * y
    ensures x / y <= c
  {
    assert c - x / y == (c * y - x) / y;
  }

  lemma CastProduct(x: int, y: int)
    ensures (x * y) as real == x as real * y as real
  {
  }

  lemma QuotientMonotone(a: real, c: real, b: real)
    requires 0.0 < b && a < c
    ensures a / b < c / b
  {
    assert (c / b - a / b) * b == c - a;
  }
}

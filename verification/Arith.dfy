/** Division with remainder by a divisor that is not a literal, one small step at a time. */
module Arith {

  lemma MulMono(a: int, b: int, c: int)
    requires a <= b && 0 <= c
    ensures a * c <= b * c
  {
  }

  lemma SmallMultiple(k: int, d: int)
    requires -d < k * d < d
    ensures k == 0
  {
    if k >= 1 {
      MulMono(1, k, d);
    } else if k <= -1 {
      MulMono(k, -1, d);
    }
  }

  /** Quotient and remainder are determined by their defining equation. */
  lemma DivModUnique(x: int, d: int, q: int, r: int)
    requires d > 0 && x == q * d + r && 0 <= r < d
    ensures x / d == q && x % d == r
  {
    var q0, r0 := x / d, x % d;
    assert x == q0 * d + r0;
    assert (q0 - q) * d == r - r0;
    SmallMultiple(q0 - q, d);
  }

  /** The quotient is the number of the interval of length `d` that the dividend lies in. */
  lemma QuotientIs(x: int, d: int, q: int)
    requires d > 0 && x >= 0
    ensures x / d == q <==> q * d <= x < q * d + d
    ensures x / d >= 0
  {
    var q0 := x / d;
    assert x == q0 * d + x % d;
    if q * d <= x < q * d + d {
      DivModUnique(x, d, q, x - q * d);
    }
    if q0 < 0 {
      MulMono(q0, -1, d);
    }
  }

  lemma QuotientBelow(x: int, d: int, n: int)
    requires 0 < d && 0 <= x < n * d
    ensures 0 <= x / d < n && 0 <= x % d < d
  {
    var q := x / d;
    assert x == q * d + x % d;
    if q >= n {
      MulMono(n, q, d);
    }
    if q < 0 {
      MulMono(q, -1, d);
    }
  }

  /** Dividing by `a` and then by `b` is dividing by `a * b`. */
  lemma ModSplit(x: int, a: int, b: int)
    requires 0 <= x && 0 < a && 0 < b
    ensures a * b > 0
    ensures x % (a * b) == x % a + a * (x / a % b)
    ensures x / (a * b) == x / a / b
  {
    var q, r := x / a, x % a;
    var q2, r2 := q / b, q % b;
    SplitValue(x, a, b, q, r, q2, r2);
    MulMono(0, r2, a);
    MulMono(r2, b - 1, a);
    DivModUnique(x, a * b, q2, r2 * a + r);
  }

  lemma SplitValue(x: int, a: int, b: int, q: int, r: int, q2: int, r2: int)
    requires x == q * a + r && q == q2 * b + r2
    ensures x == q2 * (a * b) + (r2 * a + r)
  {
    assert q * a == (q2 * b) * a + r2 * a;
    assert (q2 * b) * a == q2 * (a * b);
  }
}

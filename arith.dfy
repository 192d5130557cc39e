/** Facts about multiplication, truncated division and remainder on naturals.
    The pipeline's index formulas are nested truncated divisions
    (`i / bpp / s % cw`, `r / (Wb * T)`); these lemmas are the only place the
    proofs do nonlinear reasoning. */
module Arith {

  lemma DivNonneg(a: int, d: int)
    requires a >= 0 && d > 0
    ensures a / d >= 0
  {
  }

  lemma MulPos(a: int, b: int)
    requires a > 0 && b > 0
    ensures a * b > 0
  {
    MulLeMono(1, a, b);
  }

  lemma MulLeMono(a: int, b: int, c: nat)
    requires a <= b
    ensures a * c <= b * c
  {
    assert b * c - a * c == (b - a) * c;
  }

  /** Division is determined by the quotient-remainder decomposition. */
  lemma DivModUnique(n: int, d: int, q: int, r: int)
    requires d > 0 && 0 <= r < d && n == q * d + r
    ensures n / d == q && n % d == r
  {
    var q', r' := n / d, n % d;
    assert n == q' * d + r';
    assert (q' + 1) * d == q' * d + d;
    assert (q + 1) * d == q * d + d;
    if q' < q {
      MulLeMono(q' + 1, q, d);
      assert false;
    } else if q < q' {
      MulLeMono(q + 1, q', d);
      assert false;
    }
  }

  lemma DivModSplit(n: nat, d: nat)
    requires d > 0
    ensures n == n / d * d + n % d && 0 <= n / d && 0 <= n % d < d
  {
  }

  lemma DivMulAdd(a: nat, b: nat, d: nat)
    requires d > 0
    ensures (a * d + b) / d == a + b / d
    ensures (a * d + b) % d == b % d
  {
    assert b == (b / d) * d + b % d;
    assert a * d + b == (a + b / d) * d + b % d;
    DivModUnique(a * d + b, d, a + b / d, b % d);
  }

  /** Nested truncated division is division by the product. */
  lemma DivDiv(x: nat, a: nat, b: nat)
    requires a > 0 && b > 0
    ensures x / a / b == x / (a * b)
    ensures x / a % b * a + x % a == x % (a * b)
  {
    var q1, r1 := x / a, x % a;
    var q2, r2 := q1 / b, q1 % b;
    assert x == q1 * a + r1;
    assert q1 == q2 * b + r2;
    assert x == q2 * (a * b) + (r2 * a + r1) by {
      assert q1 * a == (q2 * b + r2) * a;
      assert (q2 * b + r2) * a == q2 * (a * b) + r2 * a;
    }
    MulLeMono(r2, b - 1, a);
    assert (b - 1) * a == a * b - a;
    DivModUnique(x, a * b, q2, r2 * a + r1);
  }

  /** Where y falls relative to multiples of d, read off its quotient. */
  lemma DivBracket(y: nat, d: nat, b: nat)
    requires d > 0
    ensures y / d == b <==> b * d <= y < b * d + d
    ensures y / d < b <==> y < b * d
  {
    var q, r := y / d, y % d;
    assert y == q * d + r;
    if b * d <= y < b * d + d {
      DivModUnique(y, d, b, y - b * d);
    }
    if q < b {
      MulLeMono(q + 1, b, d);
      assert (q + 1) * d == q * d + d;
    } else {
      MulLeMono(b, q, d);
    }
    if q > b {
      MulLeMono(b + 1, q, d);
      assert (b + 1) * d == b * d + d;
    }
  }

  lemma DivLeBound(a: nat, m: nat, d: nat)
    requires d > 0 && a <= m * d
    ensures a / d <= m
  {
    DivBracket(a, d, m + 1);
    MulLeMono(m, m + 1, d);
    assert (m + 1) * d == m * d + d;
  }

  lemma DivLtBound(x: nat, d: nat, n: nat)
    requires d > 0 && x < n * d
    ensures x / d < n
  {
    DivBracket(x, d, n);
  }

  lemma MulDivExact(v: nat, d: nat)
    requires d > 0
    ensures (v * d) / d == v && (v * d) % d == 0
  {
    DivModUnique(v * d, d, v, 0);
  }

  lemma DivSwap(x: nat, a: nat, b: nat)
    requires a > 0 && b > 0
    ensures x / a / b == x / b / a
  {
    DivDiv(x, a, b);
    DivDiv(x, b, a);
    assert a * b == b * a;
  }

  lemma MulStep(v: nat, s: nat, n: nat)
    requires n > 0
    ensures v * (s * n) == v * (s * (n - 1)) + v * s
  {
    assert s * n == s * (n - 1) + s;
  }
}

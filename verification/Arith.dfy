/** Powers of two and the few facts about division and remainder the other modules need. */
module Arith {

  function Pow2(n: nat): (r: nat)
    ensures r >= 1
  {
    if n == 0 then 1 else 2 * Pow2(n - 1)
  }

  lemma {:induction false} Pow2Add(a: nat, b: nat)
    ensures Pow2(a + b) == Pow2(a) * Pow2(b)
  {
    if a == 0 {
    } else {
      Pow2Add(a - 1, b);
      assert Pow2(a + b) == 2 * (Pow2(a - 1) * Pow2(b));
      MulAssoc(2, Pow2(a - 1), Pow2(b));
    }
  }

  lemma {:induction false} Pow2Monotone(a: nat, b: nat)
    requires a <= b
    ensures Pow2(a) <= Pow2(b)
    decreases b
  {
    if a < b {
      Pow2Monotone(a, b - 1);
    }
  }

  /** `a` divided by `b`, rounded up. */
  function CeilDiv(a: nat, b: nat): nat
    requires b > 0
  {
    (a + b - 1) / b
  }

  lemma MulAssoc(a: int, b: int, c: int)
    ensures a * b * c == a * (b * c)
  {
  }

  lemma MulLe(a: int, b: int, c: int)
    requires a <= b && 0 <= c
    ensures a * c <= b * c
  {
  }

  lemma MulLt(a: int, b: int, c: int)
    requires a < b && 0 < c
    ensures a * c < b * c
  {
  }

  lemma FactorsPositive(a: nat, b: nat, p: nat)
    requires p < a * b
    ensures a > 0 && b > 0
  {
    assert 0 * b == 0 && a * 0 == 0;
  }

  /** Quotient and remainder are the only pair with `x == q * d + r` and `0 <= r < d`. */
  lemma DivModUnique(x: int, d: int, q: int, r: int)
    requires d > 0 && x == q * d + r && 0 <= r < d
    ensures x / d == q && x % d == r
  {
    var k := x / d - q;
    assert x == (x / d) * d + x % d;
    assert k * d == r - x % d;
    if k >= 1 {
      MulLe(1, k, d);
    } else if k <= -1 {
      MulLe(k, -1, d);
    }
  }

  lemma DivBounds(x: int, d: int)
    requires d > 0
    ensures x == (x / d) * d + x % d && 0 <= x % d < d
    ensures (x / d) * d <= x < (x / d + 1) * d
  {
  }

  /** A product is below the bound when its quotient is. */
  lemma DivLt(x: int, a: int, d: int)
    requires d > 0 && 0 <= x < a * d
    ensures 0 <= x / d < a
  {
    if x / d >= a {
      MulLe(a, x / d, d);
    }
  }

  /** Dividing in two steps: quotient, middle digit and low digit. */
  lemma DivDiv(x: int, a: int, b: int)
    requires a > 0 && b > 0 && 0 <= x
    ensures a * b > 0
    ensures x / (a * b) == (x / b) / a
    ensures (x % (a * b)) / b == (x / b) % a
    ensures (x % (a * b)) % b == x % b
  {
    MulLt(0, a, b);
    var q, r := x / b, x % b;
    var h, m := q / a, q % a;
    assert x == h * (a * b) + (m * b + r) by {
      assert q * b == (h * a + m) * b;
      assert (h * a + m) * b == h * a * b + m * b;
      MulAssoc(h, a, b);
    }
    assert 0 <= m * b + r < a * b by {
      MulLe(m + 1, a, b);
      assert (m + 1) * b == m * b + b;
      MulLe(0, m, b);
    }
    DivModUnique(x, a * b, h, m * b + r);
    DivModUnique(m * b + r, b, m, r);
  }
}

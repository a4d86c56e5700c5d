/** Square root of a half: `detail::sqrt` and `sqrt`, `src/libspu/core/half.h`. */
module HalfSqrt {
  import opened Arith
  import opened HalfRounding
  import opened HalfConvert

  /** A non-zero finite magnitude as an 11-bit significand, after the shifts a subnormal needs. */
  method Normalize(abs0: nat) returns (m: nat, e: int)
    requires 0 < abs0 < INFINITY
    ensures 1024 <= m < 2048 && -9 <= e <= 30 && Mag(abs0) == Scale(m as real, e - 25)
  {
    var abs: nat, exp: int := abs0, 0;
    TenShifts();
    while abs < 0x400
      invariant -10 <= exp <= 0 && abs == Shl(abs0, -exp) && (exp < 0 ==> abs < 0x800 && abs0 < 0x400)
      decreases 0x400 - abs
    {
      AtMostTen(abs0, -exp);
      abs, exp := 2 * abs, exp - 1;
    }
    NormalizedMag(abs0, -exp, abs);
    m, e := abs % 1024 + 1024, exp + abs / 1024;
  }

  lemma NormalizedMag(abs0: nat, n: nat, abs: nat)
    requires abs0 < INFINITY && abs == Shl(abs0, n) && abs >= 1024 && (n > 0 ==> abs < 2048 && abs0 < 1024)
    ensures Mag(abs0) == Scale((abs % 1024 + 1024) as real, abs / 1024 - n - 25)
  {
    if n == 0 {
      MagFormat(abs0);
    } else {
      ScaleShl(abs0, n);
      ScaleScale(abs0 as real, n, -24 - n);
    }
  }

  // ---------------------------------------------------- digit-by-digit square root

  /** `p` is the root found so far and `t` the weight of the next digit; no digit is left when `t` is 0. */
  ghost predicate Digits(R: nat, r: nat, m: nat, bit: nat, p: nat, t: nat) {
    && r == R - p * p
    && bit == t * t
    && (if t > 0 then m == 2 * (p * t) && R < (p + 2 * t) * (p + 2 * t) else m == p && R < (p + 1) * (p + 1))
  }

  lemma DigitStep(R: nat, r: nat, m: nat, bit: nat, p: nat, t: nat, t': nat)
    requires Digits(R, r, m, bit, p, t) && t > 0 && (t == 2 * t' || (t == 1 && t' == 0))
    ensures bit / 4 == t' * t' && m / 2 == p * t
    ensures r < m + bit ==> Digits(R, r, m / 2, bit / 4, p, t')
    ensures r >= m + bit ==> Digits(R, r - (m + bit), m / 2 + bit, bit / 4, p + t, t')
  {
    assert (p + t) * (p + t) == p * p + 2 * (p * t) + t * t;
    DigitWeights(p, t, t');
    assert (p + t + t) * (p + t + t) == (p + 2 * t) * (p + 2 * t);
  }

  lemma DigitWeights(p: nat, t: nat, t': nat)
    requires t == 2 * t' || (t == 1 && t' == 0)
    ensures t * t / 4 == t' * t'
    ensures t' > 0 ==> p * t == 2 * (p * t') && (p + t) * t == 2 * ((p + t) * t')
    ensures (p + t) * t == p * t + t * t
  {
    if t == 2 * t' {
      assert t * t == 4 * (t' * t');
    }
  }

  /** `detail::sqrt`: integer square root and remainder of the radicand, shifted to an even exponent. */
  method SqrtFixed(F: nat, radicand: nat, exp0: int) returns (m: nat, r: nat, exp: int)
    requires F % 2 == 0 && radicand < Shl(2, F)
    ensures var i := exp0 % 2; var R := Shl(radicand, i);
      exp == (exp0 - i) / 2 && m * m <= R < (m + 1) * (m + 1) && r == R - m * m
  {
    var i := exp0 % 2;
    r, exp, m := Shl(radicand, i), (exp0 - i) / 2, 0;
    ghost var R, p: nat, k: int := r, 0, F / 2;
    var bit := Shl(1, F);
    FirstDigit(F, radicand, i);
    ghost var t: nat := Pow2(F / 2);
    while bit != 0
      invariant -1 <= k && t == (if k >= 0 then Pow2(k) else 0) && Digits(R, r, m, bit, p, t)
      decreases k
    {
      SquareZero(t);
      ghost var t' := if k > 0 then Pow2(k - 1) else 0;
      DigitStep(R, r, m, bit, p, t, t');
      if r < m + bit {
        m := m / 2;
      } else {
        r, m := r - (m + bit), m / 2 + bit;
        p := p + t;
      }
      bit := bit / 4;
      t, k := t', k - 1;
    }
    SquareZero(t);
  }

  lemma FirstDigit(F: nat, radicand: nat, i: nat)
    requires F % 2 == 0 && radicand < Shl(2, F) && i <= 1
    ensures Digits(Shl(radicand, i), Shl(radicand, i), 0, Shl(1, F), 0, Pow2(F / 2))
  {
    Pow2Add(F / 2, F / 2);
    ShlIs(1, F);
    ShlTwice(F);
    assert Shl(radicand, 1) == 2 * Shl(radicand, 0);
    NoDigits(Shl(radicand, i), Shl(1, F), Pow2(F / 2));
  }

  lemma NoDigits(R: nat, bit: nat, t: nat)
    requires t > 0 && bit == t * t && R < 4 * bit
    ensures Digits(R, R, 0, bit, 0, t)
  {
    assert 0 * t == 0 && 0 * 0 == 0;
    assert (0 + 2 * t) * (0 + 2 * t) == 4 * (t * t);
  }

  lemma SquareZero(t: nat)
    ensures t * t == 0 <==> t == 0
  {
    if t > 0 { MulLt(0, t, t); }
  }

  // -------------------------------------------------------------------- sqrt

  ghost predicate IsRoot(y: real, x: real) {
    y > 0.0 && y * y == x
  }

  lemma SquareOrder(a: real, b: real)
    requires a >= 0.0 && b >= 0.0
    ensures a < b <==> a * a < b * b
    ensures a == b <==> a * a == b * b
  {
    SquareLess(a, b);
    SquareLess(b, a);
  }

  lemma SquareLess(a: real, b: real)
    requires 0.0 <= a
    ensures a < b ==> a * a < b * b
  {
    if a < b {
      var d := b - a;
      assert b * b == a * a + 2.0 * (a * d) + d * d;
      assert a * d >= 0.0 && d * d > 0.0;
    }
  }

  lemma {:induction false} NatProduct(m: nat, n: nat)
    ensures m as real * n as real == (m * n) as real
  {
    if m > 0 {
      NatProduct(m - 1, n);
      assert m * n == (m - 1) * n + n;
      assert (m as real) * (n as real) == (m as real - 1.0) * (n as real) + n as real;
    }
  }

  /** The root of an 11-bit significand with ten zeros and possibly one more has 11 bits. */
  lemma RootSize(s: nat, i: nat, m: nat)
    requires 1024 <= s < 2048 && i <= 1 && m * m <= Shl(1024 * s, i) < (m + 1) * (m + 1)
    ensures 1024 <= m < 2048
  {
    assert Shl(1024 * s, 1) == 2 * Shl(1024 * s, 0);
    if m < 1024 { MulLe(m + 1, 1024, m + 1); MulLe(m + 1, 1024, 1024); }
    if m >= 2048 { MulLe(2048, m, m); MulLe(2048, m, 2048); }
  }

  /** The root of `x` against `a`, and against the middle of `a` and `b`, told by squares. */
  predicate AtLeast(x: real, a: real) {
    a * a <= x
  }

  predicate AtMost(x: real, a: real) {
    x <= a * a
  }

  predicate AboveMiddle(x: real, a: real, b: real) {
    (a + b) * (a + b) < 4.0 * x
  }

  predicate BelowMiddle(x: real, a: real, b: real) {
    4.0 * x < (a + b) * (a + b)
  }

  /** The half `h` is the largest whose square does not exceed `x`. */
  ghost predicate RootDown(x: real, h: nat) {
    h < INFINITY && AtLeast(x, Mag(h)) && forall g: nat :: g < INFINITY && AtLeast(x, Mag(g)) ==> g <= h
  }

  /** The half `h` is the smallest whose square is at least `x`. */
  ghost predicate RootUp(x: real, h: nat) {
    && h <= INFINITY && (h < INFINITY ==> AtMost(x, Mag(h)))
    && forall g: nat :: g < INFINITY && AtMost(x, Mag(g)) ==> h <= g
  }

  /** The root of `x` lies on `h`'s side of the middle of `h` and `g`, or on the middle and `h` is even. */
  ghost predicate RootNoCloser(x: real, h: nat, g: nat) {
    && (h < g ==> BelowMiddle(x, Mag(h), Mag(g)) || (!AboveMiddle(x, Mag(h), Mag(g)) && h % 2 == 0))
    && (g < h ==> AboveMiddle(x, Mag(h), Mag(g)) || (!BelowMiddle(x, Mag(h), Mag(g)) && h % 2 == 0))
  }

  ghost predicate RootNearest(x: real, h: nat) {
    h <= INFINITY && forall g: nat :: g <= INFINITY ==> RootNoCloser(x, h, g)
  }

  /** `r` is the rounded square root of `x`, told by squares alone. */
  ghost predicate RootRounded(style: Style, x: real, r: nat) {
    match style
    case ToNearest => RootNearest(x, r)
    case TowardInfinity => RootUp(x, r)
    case _ => RootDown(x, r)
  }

  /** Where there is a root, comparing squares is rounding it. */
  lemma RootRoundedMeaning(style: Style, x: real, y: real, r: nat)
    requires IsRoot(y, x) && r <= INFINITY
    ensures RootRounded(style, x, r) <==> IsRounded(style, y, r)
  {
    match style
    case ToNearest => NearestBySquares(x, y, r);
    case TowardInfinity => UpBySquares(x, y, r);
    case _ => DownBySquares(x, y, r);
  }

  lemma SideBySquare(x: real, y: real, g: nat)
    requires IsRoot(y, x)
    ensures (Mag(g) <= y <==> AtLeast(x, Mag(g))) && (y <= Mag(g) <==> AtMost(x, Mag(g)))
  {
    MagAtLeastZero(g);
    SquareOrder(Mag(g), y);
    SquareOrder(y, Mag(g));
  }

  lemma DownBySquares(x: real, y: real, r: nat)
    requires IsRoot(y, x)
    ensures RootDown(x, r) <==> RoundsDown(y, r)
  {
    forall g: nat ensures Mag(g) <= y <==> AtLeast(x, Mag(g)) {
      SideBySquare(x, y, g);
    }
  }

  lemma UpBySquares(x: real, y: real, r: nat)
    requires IsRoot(y, x)
    ensures RootUp(x, r) <==> RoundsUp(y, r)
  {
    forall g: nat ensures y <= Mag(g) <==> AtMost(x, Mag(g)) {
      SideBySquare(x, y, g);
    }
  }

  lemma NearestBySquares(x: real, y: real, r: nat)
    requires IsRoot(y, x)
    ensures RootNearest(x, r) <==> RoundsNearest(y, r)
  {
    forall g: nat ensures RootNoCloser(x, r, g) <==> NoCloser(y, r, g) {
      NoCloserBySquares(x, y, r, g);
    }
  }

  lemma MagAtLeastZero(g: nat)
    ensures Mag(g) >= 0.0
  {
    ScaleZero(-24);
    if g > 0 { MagCompare(0, g); }
  }

  lemma NoCloserBySquares(x: real, y: real, h: nat, g: nat)
    requires IsRoot(y, x)
    ensures RootNoCloser(x, h, g) <==> NoCloser(y, h, g)
  {
    MagAtLeastZero(g);
    MagAtLeastZero(h);
    MagCompare(g, h);
    MagCompare(h, g);
    AgainstMiddle(x, y, Mag(h), Mag(g));
  }

  lemma AgainstMiddle(x: real, y: real, a: real, b: real)
    requires IsRoot(y, x) && a >= 0.0 && b >= 0.0
    ensures (BelowMiddle(x, a, b) <==> 2.0 * y < a + b) && (AboveMiddle(x, a, b) <==> a + b < 2.0 * y)
  {
    DoubledSquare(y);
    SquareOrder(2.0 * y, a + b);
    SquareOrder(a + b, 2.0 * y);
  }

  lemma DoubledSquare(y: real)
    ensures (2.0 * y) * (2.0 * y) == 4.0 * (y * y)
  {
  }

  /** What the integer root and its remainder say about `x` and the halves next to its root. */
  ghost predicate RootBetween(x: real, a: real, b: real, g: bool, s: bool) {
    && AtLeast(x, a) && !AtLeast(x, b)
    && (s <==> !AtMost(x, a)) && (g ==> s)
    && (if g then AboveMiddle(x, a, b) else BelowMiddle(x, a, b))
  }

  lemma RootBetweenRounds(style: Style, x: real, h: nat, g: bool, s: bool)
    requires h < INFINITY && RootBetween(x, Mag(h), Mag(h + 1), g, s)
    ensures RootRounded(style, x, Rounded(style, h, g, s))
  {
    forall k: nat
      ensures (k < h ==> !AtMost(x, Mag(k))) && (k > h ==> !AtLeast(x, Mag(k)) && AtMost(x, Mag(k)))
      ensures (s ==> !AtMost(x, Mag(h)))
    {
      Outside(x, h, g, s, k);
    }
    var p := h + Bit(g);
    forall k: nat ensures RootNoCloser(x, p, k) {
      NeitherCloser(x, h, g, s, k);
    }
  }

  lemma Outside(x: real, h: nat, g: bool, s: bool, k: nat)
    requires RootBetween(x, Mag(h), Mag(h + 1), g, s)
    ensures (k < h ==> !AtMost(x, Mag(k))) && (k > h ==> !AtLeast(x, Mag(k)) && AtMost(x, Mag(k)))
  {
    MagAtLeastZero(k);
    MagAtLeastZero(h);
    if k < h {
      MagCompare(k, h);
      BelowAtLeast(x, Mag(k), Mag(h));
    } else if k > h {
      MagAtLeastZero(h + 1);
      if k > h + 1 { MagCompare(h + 1, k); }
      NotAtLeastAbove(x, Mag(h + 1), Mag(k));
    }
  }

  lemma BelowAtLeast(x: real, a: real, b: real)
    requires 0.0 <= a < b && AtLeast(x, b)
    ensures !AtMost(x, a)
  {
    SquareLess(a, b);
  }

  lemma NotAtLeastAbove(x: real, a: real, b: real)
    requires 0.0 <= a <= b && !AtLeast(x, a)
    ensures !AtLeast(x, b) && AtMost(x, b)
  {
    SquareLess(a, b);
  }

  lemma NeitherCloser(x: real, h: nat, g: bool, s: bool, k: nat)
    requires RootBetween(x, Mag(h), Mag(h + 1), g, s)
    ensures RootNoCloser(x, h + Bit(g), k)
  {
    MagAtLeastZero(h);
    MagAtLeastZero(k);
    MagCompare(h, h + 1);
    MagCompare(k, h);
    MagCompare(h + 1, k);
    if g {
      UpperIsCloser(x, Mag(h), Mag(h + 1), Mag(k));
    } else {
      LowerIsCloser(x, Mag(h), Mag(h + 1), Mag(k));
    }
  }

  lemma UpperIsCloser(x: real, a: real, b: real, c: real)
    requires 0.0 <= a < b && 0.0 <= c && (c <= a || b <= c) && AboveMiddle(x, a, b) && !AtLeast(x, b)
    ensures c <= a ==> AboveMiddle(x, b, c)
    ensures b < c ==> BelowMiddle(x, b, c)
  {
    if c <= a {
      SquareOrder(b + c, a + b);
    } else if b < c {
      DoubledSquare(b);
      SquareOrder(2.0 * b, b + c);
    }
  }

  lemma LowerIsCloser(x: real, a: real, b: real, c: real)
    requires 0.0 <= a < b && 0.0 <= c && (c <= a || b <= c) && BelowMiddle(x, a, b) && AtLeast(x, a)
    ensures c < a ==> AboveMiddle(x, a, c)
    ensures b <= c ==> BelowMiddle(x, a, c)
  {
    if c < a {
      DoubledSquare(a);
      SquareOrder(a + c, 2.0 * a);
    } else if b <= c {
      SquareOrder(a + b, a + c);
    }
  }

  lemma SquareScaled(n: nat, k: int)
    ensures Scale(n as real, k) * Scale(n as real, k) == Scale((n * n) as real, 2 * k)
  {
    NatProduct(n, n);
    ScaleProduct(n as real, k, n as real, k, (n * n) as real);
  }

  lemma CompareSquare(x: real, R: nat, n: nat, k: int)
    requires x == Scale(R as real, 2 * k)
    ensures (AtLeast(x, Scale(n as real, k)) <==> n * n <= R) && (AtMost(x, Scale(n as real, k)) <==> R <= n * n)
  {
    SquareScaled(n, k);
    AgainstSquare(x, Scale(n as real, k), Scale((n * n) as real, 2 * k));
    ScaledOrder(R, n * n, 2 * k);
  }

  lemma AgainstSquare(x: real, a: real, v: real)
    requires a * a == v
    ensures (AtLeast(x, a) <==> v <= x) && (AtMost(x, a) <==> x <= v)
  {
  }

  lemma ScaledOrder(m: nat, n: nat, k: int)
    ensures Scale(m as real, k) <= Scale(n as real, k) <==> m <= n
    ensures Scale(n as real, k) <= Scale(m as real, k) <==> n <= m
  {
    ScaleOrder(m as real, n as real, k);
    ScaleOrder(n as real, m as real, k);
  }

  /** `r > m` and `r != 0` are the guard and sticky bit of the root. */
  lemma RootBits(x: real, R: nat, m: nat, r: nat, k: int)
    requires x == Scale(R as real, 2 * k) && m * m <= R < (m + 1) * (m + 1) && r == R - m * m
    ensures RootBetween(x, Scale(m as real, k), Scale((m + 1) as real, k), r > m, r != 0)
  {
    CompareSquare(x, R, m, k);
    CompareSquare(x, R, m + 1, k);
    MiddleSquare(x, R, m, r, k);
  }

  lemma MiddleSquare(x: real, R: nat, m: nat, r: nat, k: int)
    requires x == Scale(R as real, 2 * k) && m * m <= R && r == R - m * m
    ensures if r > m then AboveMiddle(x, Scale(m as real, k), Scale((m + 1) as real, k))
            else BelowMiddle(x, Scale(m as real, k), Scale((m + 1) as real, k))
  {
    ScaleSum(m as real, (m + 1) as real, k);
    assert m as real + (m + 1) as real == (2 * m + 1) as real;
    FourTimes(R, 2 * k);
    CompareSquare(4.0 * x, 4 * R, 2 * m + 1, k);
    OddSquare(m);
  }

  lemma OddSquare(m: nat)
    ensures (2 * m + 1) * (2 * m + 1) == 4 * (m * m) + 4 * m + 1
  {
  }

  lemma FourTimes(R: nat, k: int)
    ensures 4.0 * Scale(R as real, k) == Scale((4 * R) as real, k)
  {
    ScaleSum(R as real, R as real, k);
    ScaleSum((2 * R) as real, (2 * R) as real, k);
    assert R as real + R as real == (2 * R) as real && (2 * R) as real + (2 * R) as real == (4 * R) as real;
  }

  lemma RootRounds(style: Style, x: real, s: nat, e: int, exp: int, m: nat, r: nat)
    requires x == Scale(s as real, e - 25) && -9 <= e <= 30
    requires exp == (15 + e - (15 + e) % 2) / 2 && 1024 <= m < 2048
    requires var R := Shl(1024 * s, (15 + e) % 2); m * m <= R < (m + 1) * (m + 1) && r == R - m * m
    ensures exp >= 1 && RootRounded(style, x, Rounded(style, exp * 1024 + m % 0x400, r > m, r != 0))
    ensures Rounded(style, exp * 1024 + m % 0x400, r > m, r != 0) <= INFINITY
  {
    var i := (15 + e) % 2;
    var R := Shl(1024 * s, i);
    RadicandValue(s, i);
    ScaleScale(s as real, 10 + i, 2 * (exp - 25));
    RootBits(x, R, m, r, exp - 25);
    MagOf(exp, m);
    MagOf(exp, m + 1);
    RootBetweenRounds(style, x, (exp - 1) * 1024 + m, r > m, r != 0);
  }

  /** The radicand is the significand with ten zeros and possibly one more. */
  lemma RadicandValue(s: nat, i: nat)
    ensures Scale(s as real, 10 + i) == Shl(1024 * s, i) as real
  {
    ShlTen(s);
    ShlShl(s, 10, i);
    ScaleShl(s, 10 + i);
  }

  lemma ShlTen(s: nat)
    ensures Shl(s, 10) == 1024 * s
    ensures s < 2048 ==> 1024 * s < Shl(2, 20)
  {
    ShlIs(s, 10);
    ShlIs(2, 20);
    assert Pow2(10) == 1024;
    Pow2Add(10, 10);
  }

  /** `sqrt`. */
  method Sqrt(style: Style, arg: nat) returns (r: nat)
    requires arg < 0x10000
    ensures 0 < arg < INFINITY ==> RootRounded(style, Val(arg), r)
    ensures 0 < arg < INFINITY ==> forall y :: IsRoot(y, Val(arg)) ==> IsRounded(style, y, r)
    ensures arg == 0 || arg == SIGN || arg == INFINITY ==> r == arg
    ensures IsNaN(arg) ==> QuietNaN(arg >= SIGN, arg % 0x200, r)
    ensures SIGN < arg && !IsNaN(arg) ==> r == 0x7FFF
  {
    var abs := arg % SIGN;
    if abs == 0 || arg >= INFINITY {
      return if abs > INFINITY then Quiet(arg) else if arg > SIGN then 0x7FFF else arg;
    }
    var s, e := Normalize(abs);
    ShlTen(s);
    var m, rest, exp := SqrtFixed(20, 1024 * s, 15 + e);
    RootSize(s, (15 + e) % 2, m);
    RootRounds(style, Val(arg), s, e, exp, m, rest);
    r := Rounded(style, exp * 1024 + m % 0x400, rest > m, rest != 0);
    forall y | IsRoot(y, Val(arg)) ensures IsRounded(style, y, r) {
      RootRoundedMeaning(style, Val(arg), y, r);
    }
  }
}

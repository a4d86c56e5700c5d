/**
 * Correct rounding to binary16 (sections 3.4, 4.3 and 7.4 of IEEE 754-2008) and the rounding
 * helpers of `src/libspu/core/half.h`. A half is its 16 bits, as a number.
 */
module HalfRounding {
  import opened Arith

  datatype Style = ToNearest | TowardZero | TowardInfinity | TowardNegInfinity

  const SIGN: nat := 0x8000
  const INFINITY: nat := 0x7C00

  /** `x` times two to the power `k`. */
  function Scale(x: real, k: int): real
    decreases if k < 0 then -k else k
  {
    if k == 0 then x else if k > 0 then 2.0 * Scale(x, k - 1) else Scale(x, k + 1) / 2.0
  }

  lemma ScaleStep(x: real, k: int)
    ensures Scale(x, k + 1) == 2.0 * Scale(x, k)
  {
  }

  lemma {:induction false} ScaleDouble(x: real, k: int)
    ensures Scale(2.0 * x, k) == Scale(x, k + 1)
    decreases if k < 0 then -k else k
  {
    ScaleStep(x, k);
    if k > 0 { ScaleDouble(x, k - 1); } else if k < 0 { ScaleDouble(x, k + 1); }
  }

  lemma {:induction false} ScaleScale(x: real, j: int, k: int)
    ensures Scale(Scale(x, j), k) == Scale(x, j + k)
    decreases if k < 0 then -k else k
  {
    if k > 0 {
      ScaleScale(x, j, k - 1);
      ScaleStep(x, j + k - 1);
    } else if k < 0 {
      ScaleScale(x, j, k + 1);
      ScaleStep(x, j + k);
    }
  }

  lemma {:induction false} ScaleSum(x: real, y: real, k: int)
    ensures Scale(x + y, k) == Scale(x, k) + Scale(y, k)
    decreases if k < 0 then -k else k
  {
    if k > 0 { ScaleSum(x, y, k - 1); } else if k < 0 { ScaleSum(x, y, k + 1); }
  }

  lemma {:induction false} ScaleOrder(x: real, y: real, k: int)
    ensures x < y <==> Scale(x, k) < Scale(y, k)
    decreases if k < 0 then -k else k
  {
    if k > 0 { ScaleOrder(x, y, k - 1); } else if k < 0 { ScaleOrder(x, y, k + 1); }
  }

  lemma {:induction false} ScaleZero(k: int)
    ensures Scale(0.0, k) == 0.0
    decreases if k < 0 then -k else k
  {
    if k > 0 { ScaleZero(k - 1); } else if k < 0 { ScaleZero(k + 1); }
  }

  lemma {:induction false} ScaleNat(m: int, n: nat)
    ensures Scale(m as real, n) == (m * Pow2(n)) as real
  {
    if n > 0 {
      ScaleNat(m, n - 1);
      assert m * Pow2(n) == 2 * (m * Pow2(n - 1));
    }
  }

  ghost predicate Makes(a: real, b: real, c: real) {
    a * b == c
  }

  lemma MakesSwap(a: real, b: real, c: real)
    ensures Makes(a, b, c) <==> Makes(b, a, c)
  {
  }

  lemma MakesDouble(a: real, b: real, c: real)
    ensures Makes(a, b, c) <==> Makes(a, 2.0 * b, 2.0 * c)
  {
    assert a * (2.0 * b) == 2.0 * (a * b);
  }

  /** Scaling a factor scales the product. */
  lemma {:induction false} ScaleRight(a: real, y: real, j: int, c: real)
    requires Makes(a, y, c)
    ensures Makes(a, Scale(y, j), Scale(c, j))
    decreases if j < 0 then -j else j
  {
    assert Scale(y, 0) == y && Scale(c, 0) == c;
    if j > 0 {
      ScaleRight(a, y, j - 1, c);
      MakesDouble(a, Scale(y, j - 1), Scale(c, j - 1));
      ScaleStep(y, j - 1);
      ScaleStep(c, j - 1);
    } else if j < 0 {
      ScaleRight(a, y, j + 1, c);
      MakesDouble(a, Scale(y, j), Scale(c, j));
      ScaleStep(y, j);
      ScaleStep(c, j);
    }
  }

  lemma ScaleProduct(x: real, i: int, y: real, j: int, p: real)
    requires Makes(x, y, p)
    ensures Makes(Scale(x, i), Scale(y, j), Scale(p, i + j))
  {
    MakesSwap(x, y, p);
    ScaleRight(y, x, i, p);
    MakesSwap(y, Scale(x, i), Scale(p, i));
    ScaleRight(Scale(x, i), y, j, Scale(p, i));
    ScaleScale(p, i, j);
  }

  // ------------------------------------------------------------ what halves mean

  /**
   * Magnitude of a half without sign: subnormals and the first binade count in units of 2^-24, and
   * one more in the exponent doubles. Infinity stands for 65536, the number that would come next.
   */
  function Mag(h: nat): real {
    if h < 2048 then Scale(h as real, -24) else 2.0 * Mag(h - 1024)
  }

  predicate Finite(bits: nat) {
    bits < 0x10000 && bits % SIGN < INFINITY
  }

  predicate IsNaN(bits: nat) {
    bits < 0x10000 && bits % SIGN > INFINITY
  }

  function Val(bits: nat): real {
    if bits >= SIGN then -Mag(bits % SIGN) else Mag(bits % SIGN)
  }

  /** `h` is the largest finite magnitude not above `x`. */
  ghost predicate RoundsDown(x: real, h: nat) {
    h < INFINITY && Mag(h) <= x && forall g: nat :: g < INFINITY && Mag(g) <= x ==> g <= h
  }

  /** `h` is the smallest magnitude not below `x`, infinity if no finite one is. */
  ghost predicate RoundsUp(x: real, h: nat) {
    h <= INFINITY && (h < INFINITY ==> x <= Mag(h)) && forall g: nat :: g < INFINITY && x <= Mag(g) ==> h <= g
  }

  function Gap(x: real, y: real): real {
    if x < y then y - x else x - y
  }

  function Distance(x: real, h: nat): real {
    Gap(x, Mag(h))
  }

  ghost predicate NoCloser(x: real, h: nat, g: nat) {
    Distance(x, h) < Distance(x, g) || (Distance(x, h) == Distance(x, g) && (g == h || h % 2 == 0))
  }

  /** `h` is the magnitude nearest to `x`, the even one of two. */
  ghost predicate RoundsNearest(x: real, h: nat) {
    h <= INFINITY && forall g: nat :: g <= INFINITY ==> NoCloser(x, h, g)
  }

  ghost predicate MagnitudeRounded(style: Style, negative: bool, x: real, h: nat) {
    match style
    case ToNearest => RoundsNearest(x, h)
    case TowardZero => RoundsDown(x, h)
    case TowardInfinity => if negative then RoundsDown(x, h) else RoundsUp(x, h)
    case TowardNegInfinity => if negative then RoundsUp(x, h) else RoundsDown(x, h)
  }

  /** `r` is the correctly rounded half for the non-zero exact value `x`. */
  ghost predicate IsRounded(style: Style, x: real, r: nat) {
    && r < 0x10000 && (r >= SIGN <==> x < 0.0)
    && MagnitudeRounded(style, x < 0.0, if x < 0.0 then -x else x, r % SIGN)
  }

  /** A half is the correct rounding of its own value. */
  lemma ExactIsRounded(style: Style, r: nat)
    requires Finite(r) && Val(r) != 0.0
    ensures IsRounded(style, Val(r), r)
  {
    var h := r % SIGN;
    MagOrder(0, h);
    ScaleZero(-24);
    forall g: nat | g <= INFINITY ensures (Mag(g) <= Mag(h) ==> g <= h) && (Mag(h) <= Mag(g) ==> h <= g) {
      MagOrder(g, h);
      MagOrder(h, g);
    }
    assert forall g: nat :: g <= INFINITY ==> NoCloser(Mag(h), h, g);
  }

  // ------------------------------------------------------- the order of halves

  /** A magnitude as an integer times a power of two; `m` may also be the next power of two. */
  lemma {:induction false} MagOf(exp: nat, m: nat)
    requires exp >= 1 && m <= 2048 && (exp == 1 || m >= 1024)
    ensures Mag((exp - 1) * 1024 + m) == Scale(m as real, exp - 25)
    decreases exp
  {
    if exp > 1 {
      ScaleStep(m as real, exp - 26);
      MagOf(exp - 1, m);
    } else if m == 2048 {
      ScaleDouble(1024.0, -24);
      ScaleStep(1024.0, -24);
    }
  }

  /** The format: a normal number is its 11-bit significand times two to the biased exponent minus 25. */
  lemma MagFormat(h: nat)
    requires h >= 1024
    ensures Mag(h) == Scale((1024 + h % 1024) as real, h / 1024 - 25)
  {
    MagOf(h / 1024, 1024 + h % 1024);
  }

  /** Neighbouring magnitudes differ by one unit in the last place. */
  lemma MagNext(h: nat)
    ensures Mag(h) < Mag(h + 1)
  {
    if h < 2047 {
      ScaleOrder(h as real, (h + 1) as real, -24);
    } else if h == 2047 {
      ScaleOrder(2047.0, 2048.0, -24);
      MagOf(1, 2048);
    } else {
      MagNext(h - 1024);
    }
  }

  lemma {:induction false} MagOrder(g: nat, h: nat)
    ensures g < h ==> Mag(g) < Mag(h)
    decreases h
  {
    if g < h {
      MagNext(h - 1);
      MagOrder(g, h - 1);
    }
  }

  /** Magnitudes are ordered like their bits. */
  lemma MagCompare(g: nat, h: nat)
    ensures g < h <==> Mag(g) < Mag(h)
    ensures g == h <==> Mag(g) == Mag(h)
  {
    MagOrder(g, h);
    MagOrder(h, g);
  }

  // --------------------------------------------------------------- the helpers

  function SignBit(negative: bool): nat {
    if negative then SIGN else 0
  }

  /** `overflow`. */
  function Overflow(style: Style, sign: nat): nat
    requires sign == 0 || sign == SIGN
  {
    match style
    case TowardInfinity => sign + 0x7C00 - sign / SIGN
    case TowardNegInfinity => sign + 0x7BFF + sign / SIGN
    case TowardZero => sign + 0x7BFF
    case ToNearest => sign + 0x7C00
  }

  /** `underflow`. */
  function Underflow(style: Style, sign: nat): nat
    requires sign == 0 || sign == SIGN
  {
    match style
    case TowardInfinity => sign + 1 - sign / SIGN
    case TowardNegInfinity => sign + sign / SIGN
    case _ => sign
  }

  /** `r` is a NaN with the quiet bit set, the given sign and the given lower bits. */
  ghost predicate QuietNaN(negative: bool, payload: nat, r: nat) {
    IsNaN(r) && (r >= SIGN <==> negative) && r / 0x200 % 2 == 1 && r % 0x200 == payload
  }

  lemma QuietBit(bits: nat, q: nat, p: nat)
    requires bits == 0x400 * q + p && p < 0x400
    ensures if p >= 0x200 then bits / 0x200 % 2 == 1
            else (bits + 0x200) / 0x200 % 2 == 1 && (bits + 0x200) % 0x200 == bits % 0x200
  {
    if p >= 0x200 {
      assert bits / 0x200 == 2 * q + 1;
    } else {
      assert (bits + 0x200) / 0x200 == 2 * q + 1 && bits % 0x200 == p;
    }
  }

  /** `signal`: a NaN made quiet, with its sign and its other bits. */
  function Quiet(bits: nat): (r: nat)
    requires IsNaN(bits)
    ensures QuietNaN(bits >= SIGN, bits % 0x200, r)
  {
    QuietBit(bits, bits / 0x400, bits % 0x400);
    if bits % 0x400 >= 0x200 then bits else bits + 0x200
  }

  function Bit(b: bool): nat {
    if b then 1 else 0
  }

  /** `rounded`: `g` is the first discarded bit, `s` tells whether any later one is set. */
  function Rounded(style: Style, value: nat, g: bool, s: bool): nat {
    match style
    case ToNearest => value + Bit(g && (s || value % 2 == 1))
    case TowardInfinity => value + Bit(value < SIGN && (g || s))
    case TowardNegInfinity => value + Bit(value >= SIGN && (g || s))
    case TowardZero => value
  }

  /** `m` is `e` without its fraction; the guard says "at least one half", and `s` the rest of the fraction. */
  ghost predicate Located(e: real, m: nat, g: bool, s: bool) {
    && m as real <= e < m as real + 1.0
    && (g <==> e >= m as real + 0.5)
    && (!g && !s <==> e == m as real)
    && (g && !s <==> e == m as real + 0.5)
  }

  /** The same for a value between two neighbours `a` and `b`. */
  ghost predicate Between(x: real, a: real, b: real, g: bool, s: bool) {
    && a <= x < b
    && (g <==> 2.0 * x >= a + b)
    && (!g && !s <==> x == a)
    && (g && !s <==> 2.0 * x == a + b)
  }

  lemma LocatedScaled(e: real, m: nat, k: int, g: bool, s: bool)
    requires Located(e, m, g, s)
    ensures Between(Scale(e, k), Scale(m as real, k), Scale((m + 1) as real, k), g, s)
  {
    var f := m as real;
    ScaleOrder(f, e, k);
    ScaleOrder(e, f, k);
    ScaleOrder(e, f + 1.0, k);
    ScaleOrder(f + 0.5, e, k);
    ScaleOrder(e, f + 0.5, k);
    ScaleDouble(f + 0.5, k);
    ScaleStep(f + 0.5, k);
    ScaleSum(f, f + 1.0, k);
  }

  lemma LocatedBetween(e: real, exp: nat, m: nat, g: bool, s: bool)
    requires 1 <= exp <= 30 && m < 2048 && (exp == 1 || m >= 1024) && Located(e, m, g, s)
    ensures var h := (exp - 1) * 1024 + m; Between(Scale(e, exp - 25), Mag(h), Mag(h + 1), g, s)
  {
    MagOf(exp, m);
    MagOf(exp, m + 1);
    LocatedScaled(e, m, exp - 25, g, s);
  }

  lemma BetweenDown(x: real, h: nat)
    requires h < INFINITY && Mag(h) <= x < Mag(h + 1)
    ensures RoundsDown(x, h)
  {
    forall k: nat | k < INFINITY && Mag(k) <= x ensures k <= h {
      MagOrder(h + 1, k);
    }
  }

  lemma BetweenUp(x: real, h: nat)
    requires h < INFINITY && Mag(h) <= x < Mag(h + 1)
    ensures RoundsUp(x, if x == Mag(h) then h else h + 1)
  {
    forall k: nat | k < INFINITY && x <= Mag(k) ensures h + Bit(x != Mag(h)) <= k {
      MagOrder(k, h);
    }
  }

  /** The chosen neighbour is at least as close as anything outside; a draw is with itself or with the other one, half
      way. */
  lemma PickNearest(x: real, a: real, b: real, c: real, up: bool, g: bool, s: bool, odd: bool)
    requires Between(x, a, b, g, s) && (c <= a || b <= c) && up == (g && (s || odd))
    ensures var p := if up then b else a; Gap(x, p) < Gap(x, c) || (Gap(x, p) == Gap(x, c) && (c == p || (g && !s)))
  {
  }

  lemma BetweenNearest(x: real, h: nat, g: bool, s: bool)
    requires h < INFINITY && Between(x, Mag(h), Mag(h + 1), g, s)
    ensures RoundsNearest(x, h + Bit(g && (s || h % 2 == 1)))
  {
    var n := h + Bit(g && (s || h % 2 == 1));
    forall k: nat | k <= INFINITY ensures NoCloser(x, n, k) {
      NoneCloser(x, h, g, s, k);
    }
  }

  lemma NoneCloser(x: real, h: nat, g: bool, s: bool, k: nat)
    requires h < INFINITY && Between(x, Mag(h), Mag(h + 1), g, s) && k <= INFINITY
    ensures NoCloser(x, h + Bit(g && (s || h % 2 == 1)), k)
  {
    MagCompare(k, h);
    MagCompare(k, h + 1);
    PickNearest(x, Mag(h), Mag(h + 1), Mag(k), g && (s || h % 2 == 1), g, s, h % 2 == 1);
  }

  lemma SignedRounding(style: Style, negative: bool, x: real, k: nat)
    requires x > 0.0 && k <= INFINITY && MagnitudeRounded(style, negative, x, k)
    ensures IsRounded(style, if negative then -x else x, SignBit(negative) + k)
  {
  }

  lemma SignedBits(style: Style, negative: bool, h: nat, g: bool, s: bool)
    requires h < INFINITY
    ensures Rounded(style, SignBit(negative) + h, g, s) == SignBit(negative) + match style
      case ToNearest => h + Bit(g && (s || h % 2 == 1))
      case TowardZero => h
      case TowardInfinity => if negative then h else h + Bit(g || s)
      case TowardNegInfinity => if negative then h + Bit(g || s) else h
  {
  }

  /** `rounded` is correct rounding when guard and sticky bit describe the exact value. */
  lemma RoundedIsCorrect(style: Style, negative: bool, x: real, h: nat, g: bool, s: bool)
    requires h < INFINITY && Between(x, Mag(h), Mag(h + 1), g, s) && x > 0.0
    ensures IsRounded(style, if negative then -x else x, Rounded(style, SignBit(negative) + h, g, s))
  {
    BetweenDown(x, h);
    BetweenUp(x, h);
    BetweenNearest(x, h, g, s);
    var k := match style
      case ToNearest => h + Bit(g && (s || h % 2 == 1))
      case TowardZero => h
      case TowardInfinity => if negative then h else h + Bit(g || s)
      case TowardNegInfinity => if negative then h + Bit(g || s) else h;
    SignedRounding(style, negative, x, k);
    SignedBits(style, negative, h, g, s);
  }

  /** `overflow` is correct rounding of everything from 65536 on. */
  lemma OverflowIsCorrect(style: Style, negative: bool, x: real)
    requires x >= 65536.0
    ensures IsRounded(style, if negative then -x else x, Overflow(style, SignBit(negative)))
  {
    MagAtInfinity();
    forall k: nat | k <= INFINITY
      ensures Mag(k) <= 65536.0 && (k < INFINITY ==> Mag(k) < 65536.0) && NoCloser(x, INFINITY, k)
    {
      MagOrder(k, INFINITY);
    }
    var up := if negative then TowardNegInfinity else TowardInfinity;
    SignedRounding(style, negative, x, if style == ToNearest || style == up then INFINITY else INFINITY - 1);
  }

  lemma MagAtInfinity()
    ensures Mag(INFINITY) == 65536.0
  {
    MagOf(31, 1024);
    ScaleNat(1024, 6);
    assert Pow2(6) == 64;
  }

  /** `underflow` is correct rounding of everything below half of the smallest number. */
  lemma UnderflowIsCorrect(style: Style, negative: bool, x: real)
    requires 0.0 < x < Scale(1.0, -25)
    ensures IsRounded(style, if negative then -x else x, Underflow(style, SignBit(negative)))
  {
    var least := Scale(1.0, -24);
    ScaleStep(1.0, -25);
    ScaleZero(-24);
    assert Mag(0) == 0.0 && Mag(1) == least;
    forall k: nat | k <= INFINITY ensures (k > 0 ==> Mag(k) >= least) && NoCloser(x, 0, k) {
      MagOrder(1, k);
    }
    var up := if negative then TowardNegInfinity else TowardInfinity;
    SignedRounding(style, negative, x, if style == up then 1 else 0);
  }
}

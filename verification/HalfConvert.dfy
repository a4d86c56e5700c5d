/** Conversions to half: `fixed2half`, `int2half` and `float2half` of a double, `src/libspu/core/half.h`. */
module HalfConvert {
  import opened Arith
  import opened HalfRounding

  // ------------------------------------------------------------------- shifts

  /** `m >> k`. */
  function Shr(m: nat, k: nat): nat {
    if k == 0 then m else Shr(m / 2, k - 1)
  }

  /** `m << k`. */
  function Shl(m: nat, k: nat): nat {
    if k == 0 then m else 2 * Shl(m, k - 1)
  }

  /** The low `k` bits of `m`. */
  function Low(m: nat, k: nat): nat {
    if k == 0 then 0 else m % 2 + 2 * Low(m / 2, k - 1)
  }

  /** `(m >> k) & 1`. */
  predicate BitAt(m: nat, k: nat) {
    Shr(m, k) % 2 == 1
  }

  lemma {:induction false} ShrBounds(m: nat, lo: nat, hi: nat, k: nat)
    requires Shl(lo, k) <= m < Shl(hi, k)
    ensures lo <= Shr(m, k) < hi
    decreases k
  {
    if k > 0 {
      ShrBounds(m / 2, lo, hi, k - 1);
    }
  }

  lemma {:induction false} ScaleShl(m: nat, k: nat)
    ensures Shl(m, k) as real == Scale(m as real, k)
  {
    if k > 0 { ScaleShl(m, k - 1); }
  }

  // ------------------------------------------------------- what the bits mean

  /** `m` is `e` without its fraction, and `s` tells whether there is one. */
  ghost predicate Cut(e: real, m: int, s: bool) {
    m as real <= e < m as real + 1.0 && (s <==> e != m as real)
  }

  /** `e` and `m` agree down to bit `j`; `s` or a lower bit of `m` tells whether `e` has more below. */
  ghost predicate CutAt(e: real, m: nat, s: bool, j: nat) {
    Cut(Scale(e, -(j as int)), Shr(m, j), s || Low(m, j) != 0)
  }

  lemma HalveCut(e: real, m: nat, s: bool)
    requires Cut(e, m, s)
    ensures Cut(e / 2.0, m / 2, s || m % 2 == 1)
  {
  }

  /** The bits shifted out say where the exact value lies. */
  lemma {:induction false} Locate(e: real, m: nat, s: bool, k: nat)
    requires Cut(e, m, s) && k >= 1
    ensures Located(Scale(e, -(k as int)), Shr(m, k), BitAt(m, k - 1), s || Low(m, k - 1) != 0)
    decreases k
  {
    if k == 1 {
    } else {
      HalveCut(e, m, s);
      Locate(e / 2.0, m / 2, s || m % 2 == 1, k - 1);
      ScaleScale(e, -1, -(k as int - 1));
    }
  }

  lemma HalveCutAt(e: real, m: nat, s: bool, j: nat)
    requires CutAt(e, m, s, j) && j > 0
    ensures CutAt(e / 2.0, m / 2, s || m % 2 == 1, j - 1)
  {
    ScaleScale(e, -1, -(j as int - 1));
  }

  lemma {:induction false} LocateAt(e: real, m: nat, s: bool, j: nat, k: nat)
    requires CutAt(e, m, s, j) && j < k
    ensures Located(Scale(e, -(k as int)), Shr(m, k), BitAt(m, k - 1), s || Low(m, k - 1) != 0)
    decreases j
  {
    if j == 0 {
      Locate(e, m, s, k);
    } else {
      HalveCutAt(e, m, s, j);
      LocateAt(e / 2.0, m / 2, s || m % 2 == 1, j - 1, k - 1);
      ScaleScale(e, -1, -(k as int - 1));
    }
  }

  // ------------------------------------------------------------ fixed2half

  /** Rounding the bits above `k`, with the exponent field `exp - 1` added to them. */
  lemma ShiftedRounds(style: Style, negative: bool, e: real, m: nat, s: bool, j: nat, k: nat, exp: nat,
                      c: int, bits: nat)
    requires CutAt(e, m, s, j) && j < k && e > 0.0 && 1 <= exp <= 30
    requires Shr(m, k) < 2048 && (exp == 1 || Shr(m, k) >= 1024)
    requires c == exp - 25 - k && bits == SignBit(negative) + (exp - 1) * 1024 + Shr(m, k)
    ensures var x := Scale(e, c);
      IsRounded(style, if negative then -x else x, Rounded(style, bits, BitAt(m, k - 1), s || Low(m, k - 1) != 0))
  {
    LocateAt(e, m, s, j, k);
    LocatedRounds(style, negative, e, k, Shr(m, k), BitAt(m, k - 1), s || Low(m, k - 1) != 0, exp, c, bits);
  }

  lemma ScalePositive(e: real, k: int)
    requires e > 0.0
    ensures Scale(e, k) > 0.0
  {
    ScaleOrder(0.0, e, k);
    ScaleZero(k);
  }

  lemma LocatedRounds(style: Style, negative: bool, e: real, k: nat, q: nat, g: bool, t: bool, exp: nat,
                      c: int, bits: nat)
    requires Located(Scale(e, -(k as int)), q, g, t) && e > 0.0 && 1 <= exp <= 30
    requires q < 2048 && (exp == 1 || q >= 1024)
    requires c == exp - 25 - k && bits == SignBit(negative) + (exp - 1) * 1024 + q
    ensures var x := Scale(e, c); IsRounded(style, if negative then -x else x, Rounded(style, bits, g, t))
  {
    ScaleScale(e, -(k as int), exp - 25);
    ScalePositive(e, c);
    LocatedBits(style, negative, Scale(e, -(k as int)), Scale(e, c), q, g, t, exp, bits);
  }

  lemma LocatedBits(style: Style, negative: bool, y: real, x: real, q: nat, g: bool, t: bool, exp: nat, bits: nat)
    requires Located(y, q, g, t) && x == Scale(y, exp - 25) && x > 0.0 && 1 <= exp <= 30
    requires q < 2048 && (exp == 1 || q >= 1024) && bits == SignBit(negative) + (exp - 1) * 1024 + q
    ensures IsRounded(style, if negative then -x else x, Rounded(style, bits, g, t))
  {
    LocatedBetween(y, exp, q, g, t);
    RoundedBits(style, negative, x, (exp - 1) * 1024 + q, bits, g, t);
  }

  lemma RoundedBits(style: Style, negative: bool, x: real, h: nat, bits: nat, g: bool, s: bool)
    requires h < INFINITY && Between(x, Mag(h), Mag(h + 1), g, s) && x > 0.0 && bits == SignBit(negative) + h
    ensures IsRounded(style, if negative then -x else x, Rounded(style, bits, g, s))
  {
    RoundedIsCorrect(style, negative, x, h, g, s);
  }

  lemma {:induction false} ShlShl(m: nat, i: nat, k: nat)
    ensures Shl(Shl(m, i), k) == Shl(m, i + k)
  {
    if k > 0 { ShlShl(m, i, k - 1); }
  }

  lemma {:induction false} ShlMonotone(a: nat, b: nat, k: nat)
    requires a <= b
    ensures Shl(a, k) <= Shl(b, k)
  {
    if k > 0 { ShlMonotone(a, b, k - 1); }
  }

  /** A significand with leading bit `F`, without its low `F - 10` bits. */
  lemma Significand(m: nat, F: nat)
    requires F >= 10 && Shl(1, F) <= m < Shl(2, F)
    ensures 1024 <= Shr(m, F - 10) < 2048
  {
    ShlShl(1, 10, F - 10);
    ShlShl(2, 10, F - 10);
    assert Shl(1, 10) == 1024 && Shl(2, 10) == 2048 by { TenShifts(); }
    ShrBounds(m, 1024, 2048, F - 10);
  }

  lemma TenShifts()
    ensures Shl(1, 10) == 1024 && Shl(2, 10) == 2048
  {
    assert Shl(1, 5) == 32 && Shl(2, 5) == 64;
    ShlShl(1, 5, 5);
    ShlShl(2, 5, 5);
    assert Shl(32, 5) == 1024 && Shl(64, 5) == 2048;
  }

  lemma {:induction false} ShrSmaller(m: nat, hi: nat, j: nat, k: nat)
    requires Shr(m, j) < hi && j <= k
    ensures Shr(m, k) < hi
    decreases k
  {
    if j < k {
      ShrSmaller(m, hi, j, k - 1);
      ShrOnce(m, k - 1);
    }
  }

  lemma {:induction false} ShrOnce(m: nat, k: nat)
    ensures Shr(m, k + 1) == Shr(m, k) / 2
  {
    if k > 0 { ShrOnce(m / 2, k - 1); }
  }

  /** `fixed2half` of a normalised unsigned significand: `e` is the exact one, `m` agrees with it down to bit `j`. */
  method Fixed2Half(style: Style, F: nat, m: nat, exp: int, negative: bool, s: bool, ghost e: real, ghost j: nat)
    returns (r: nat)
    requires 11 <= F <= 31 && Shl(1, F) <= m < Shl(2, F) && F as int - 41 <= exp <= 29
    requires CutAt(e, m, s, j) && j <= F - 11 && e > 0.0
    ensures IsRounded(style, if negative then -Scale(e, exp - 14 - F) else Scale(e, exp - 14 - F), r)
  {
    if exp < 0 {
      SubnormalRounds(style, F, m, exp, negative, s, e, j);
      return Rounded(style, SignBit(negative) + Shr(m, F - 10 - exp), BitAt(m, F - 11 - exp),
                     s || Low(m, F - 11 - exp) != 0);
    }
    NormalizedRounds(style, F, m, exp, negative, s, e, j);
    r := Packed(style, F, m, exp, negative, s);
  }

  lemma SubnormalRounds(style: Style, F: nat, m: nat, exp: int, negative: bool, s: bool, e: real, j: nat)
    requires 11 <= F <= 31 && Shl(1, F) <= m < Shl(2, F) && exp < 0
    requires CutAt(e, m, s, j) && j <= F - 11 && e > 0.0
    ensures var x, k := Scale(e, exp - 14 - F), F - 10 - exp;
      IsRounded(style, if negative then -x else x,
        Rounded(style, SignBit(negative) + Shr(m, k), BitAt(m, k - 1), s || Low(m, k - 1) != 0))
  {
    Significand(m, F);
    ShrSmaller(m, 2048, F - 10, F - 10 - exp);
    ShiftedRounds(style, negative, e, m, s, j, F - 10 - exp, 1, exp - 14 - F,
                  SignBit(negative) + Shr(m, F - 10 - exp));
  }

  /** The result of `fixed2half` for a normalised significand that is not subnormal. */
  function Packed(style: Style, F: nat, m: nat, exp: nat, negative: bool, s: bool): nat
    requires F >= 11
  {
    Rounded(style, SignBit(negative) + exp * 1024 + Shr(m, F - 10), BitAt(m, F - 11), s || Low(m, F - 11) != 0)
  }

  /** `r` is the correct rounding of every number whose significand is `m` without the fraction told by `s`. */
  ghost predicate RoundsEvery(style: Style, negative: bool, m: nat, s: bool, k: int, r: nat) {
    forall e: real :: Cut(e, m, s) ==> IsRounded(style, if negative then -Scale(e, k) else Scale(e, k), r)
  }

  /** The normalisation leaves the place of the sticky bit below what the rounding looks at. */
  predicate DeepEnough(style: Style, F: nat, m: nat, exp: nat) {
    if style == ToNearest then exp <= F - 11 || m >= 2048 else exp <= F - 10 || m >= 1024
  }

  /**
   * The same with the extra normalisation step. With a sticky bit it rounds correctly exactly when the
   * significand is long enough or the exponent small enough.
   */
  method Fixed2HalfNormalizing(style: Style, F: nat, m0: nat, exp0: nat, negative: bool, s: bool) returns (r: nat)
    requires 11 <= F <= 31 && 0 < m0 < Shl(2, F) && exp0 <= 29
    ensures RoundsEvery(style, negative, m0, s, exp0 - 14 - F, r) <==> (s ==> DeepEnough(style, F, m0, exp0))
  {
    var m, exp := NormalizeFixed(F, m0, exp0);
    r := Packed(style, F, m, exp, negative, s);
    if s ==> DeepEnough(style, F, m0, exp0) {
      forall e: real | Cut(e, m0, s)
        ensures IsRounded(style, if negative then -Scale(e, exp0 - 14 - F) else Scale(e, exp0 - 14 - F), r)
      {
        DeepRounds(style, F, m0, exp0, m, exp, negative, s, e);
      }
    } else {
      ShallowFails(style, F, m0, exp0, m, exp, negative);
    }
  }

  ghost predicate Normalized(F: nat, m0: nat, exp0: nat, m: nat, exp: nat) {
    && 11 <= F <= 31 && m0 > 0 && exp <= exp0 <= 29
    && m == Shl(m0, exp0 - exp) && 0 < m < Shl(2, F) && (exp == 0 || m >= Shl(1, F))
  }

  /** The normalisation loop of `fixed2half`. */
  method NormalizeFixed(F: nat, m0: nat, exp0: nat) returns (m: nat, exp: nat)
    requires 11 <= F <= 31 && 0 < m0 < Shl(2, F) && exp0 <= 29
    ensures Normalized(F, m0, exp0, m, exp)
  {
    m, exp := m0, exp0;
    while m < Shl(1, F) && exp != 0
      invariant 0 < m < Shl(2, F) && exp <= exp0 && m == Shl(m0, exp0 - exp)
      decreases exp
    {
      ShlTwice(F);
      m, exp := 2 * m, exp - 1;
    }
  }

  lemma ShiftedBelow(m0: nat, n: nat, b: nat, c: nat)
    ensures m0 >= Pow2(b) && Shl(m0, n) < Shl(1, c) ==> b + n < c
    ensures m0 < Pow2(b) && Shl(m0, n) >= Shl(1, c) ==> b + n > c
  {
    ShlIs(1, c);
    if m0 >= Pow2(b) && b + n >= c {
      ShlMonotone(Pow2(b), m0, n);
      ShiftedOne(b, n);
      Pow2Monotone(c, b + n);
    }
    if m0 < Pow2(b) && b + n <= c {
      ShlIs(m0, n);
      ShlIs(Pow2(b), n);
      ShlStrict(m0, Pow2(b), n);
      ShiftedOne(b, n);
      Pow2Monotone(b + n, c);
    }
  }

  lemma ShiftedOne(b: nat, n: nat)
    ensures Shl(Pow2(b), n) == Pow2(b + n)
  {
    ShlIs(1, b);
    ShlShl(1, b, n);
    ShlIs(1, b + n);
  }

  lemma {:induction false} ShlStrict(a: nat, b: nat, k: nat)
    requires a < b
    ensures Shl(a, k) < Shl(b, k)
  {
    if k > 0 { ShlStrict(a, b, k - 1); }
  }

  /** How far the normalisation shifts, on either side of the condition. */
  lemma ShiftsDone(style: Style, F: nat, m0: nat, exp0: nat, m: nat, exp: nat)
    requires Normalized(F, m0, exp0, m, exp)
    ensures DeepEnough(style, F, m0, exp0) ==> exp0 - exp <= if style == ToNearest then F - 11 else F - 10
    ensures !DeepEnough(style, F, m0, exp0) ==> exp0 - exp >= F - 10
  {
    var n := exp0 - exp;
    assert Pow2(10) == 1024 && Pow2(11) == 2048;
    ShlShl(1, 1, F);
    ShlIs(1, F);
    ShlTwice(F);
    assert Shl(2, F) == Shl(1, F + 1);
    ShiftedBelow(m0, n, 11, F + 1);
    ShiftedBelow(m0, n, 10, F + 1);
    ShiftedBelow(m0, n, 11, F);
  }

  lemma DeepRounds(style: Style, F: nat, m0: nat, exp0: nat, m: nat, exp: nat, negative: bool, s: bool, e: real)
    requires Normalized(F, m0, exp0, m, exp) && (s ==> DeepEnough(style, F, m0, exp0)) && Cut(e, m0, s)
    ensures var x := Scale(e, exp0 - 14 - F);
      IsRounded(style, if negative then -x else x, Packed(style, F, m, exp, negative, s))
  {
    var n := exp0 - exp;
    ShiftedCut(e, m0, s, n);
    ScalePositive(e, n);
    ScaleScale(e, n, exp - 14 - F);
    ShiftsDone(style, F, m0, exp0, m, exp);
    if s && n > F - 11 {
      DirectedRounds(style, F, m, exp, negative, Scale(e, n));
    } else {
      NormalizedRounds(style, F, m, exp, negative, s, Scale(e, n), if s then n else 0);
    }
  }

  /** Directed rounding does not need the guard bit: the sticky bit may stand right below the last place. */
  lemma DirectedRounds(style: Style, F: nat, m: nat, exp: nat, negative: bool, e: real)
    requires style != ToNearest && 11 <= F <= 31 && exp <= 29 && e > 0.0
    requires m < Shl(2, F) && (exp == 0 || m >= Shl(1, F)) && CutAt(e, m, true, F - 10)
    ensures var x := Scale(e, exp - 14 - F);
      IsRounded(style, if negative then -x else x, Packed(style, F, m, exp, negative, true))
  {
    UpperBits(F, m, exp);
    DirectedCut(style, negative, e, F - 10, Shr(m, F - 10), BitAt(m, F - 11), exp, exp - 14 - F,
                SignBit(negative) + exp * 1024 + Shr(m, F - 10));
  }

  lemma DirectedCut(style: Style, negative: bool, e: real, k: nat, q: nat, g: bool, exp: nat,
                    c: int, bits: nat)
    requires style != ToNearest && Cut(Scale(e, -(k as int)), q, true) && e > 0.0 && exp <= 29
    requires q < 2048 && (exp == 0 || q >= 1024)
    requires c == exp - 24 - k && bits == SignBit(negative) + exp * 1024 + q
    ensures var x := Scale(e, c); IsRounded(style, if negative then -x else x, Rounded(style, bits, g, true))
  {
    ScaleScale(e, -(k as int), exp - 24);
    BetweenNeighbours(Scale(e, -(k as int)), q, exp);
    ScalePositive(e, c);
    DirectedBetween(style, negative, Scale(e, c), exp * 1024 + q, bits, g);
  }

  lemma BetweenNeighbours(y: real, q: nat, exp: nat)
    requires q as real < y < (q + 1) as real && q < 2048 && (exp == 0 || q >= 1024)
    ensures Mag(exp * 1024 + q) < Scale(y, exp - 24) < Mag(exp * 1024 + q + 1)
  {
    MagOf(exp + 1, q);
    MagOf(exp + 1, q + 1);
    ScaleOrder(q as real, y, exp - 24);
    ScaleOrder(y, (q + 1) as real, exp - 24);
  }

  lemma DirectedBetween(style: Style, negative: bool, x: real, h: nat, bits: nat, g: bool)
    requires style != ToNearest && h < INFINITY && Mag(h) < x < Mag(h + 1) && x > 0.0 && bits == SignBit(negative) + h
    ensures IsRounded(style, if negative then -x else x, Rounded(style, bits, g, true))
  {
    BetweenDown(x, h);
    BetweenUp(x, h);
    SignedBits(style, negative, h, g, true);
    var up := if negative then TowardNegInfinity else TowardInfinity;
    SignedRounding(style, negative, x, if style == up then h + 1 else h);
  }

  /** The bits above the rounding place. */
  lemma UpperBits(F: nat, m: nat, exp: nat)
    requires 11 <= F <= 31 && m < Shl(2, F) && (exp == 0 || m >= Shl(1, F))
    ensures Shr(m, F - 10) < 2048 && (exp == 0 || Shr(m, F - 10) >= 1024)
  {
    ShlShl(2, 10, F - 10);
    TenShifts();
    ShlZero(F - 10);
    ShrBounds(m, 0, 2048, F - 10);
    if m >= Shl(1, F) { Significand(m, F); }
  }

  /** Otherwise three quarters of the last place are rounded wrongly: the shift has put zeros above the sticky bit. */
  lemma ShallowFails(style: Style, F: nat, m0: nat, exp0: nat, m: nat, exp: nat, negative: bool)
    requires Normalized(F, m0, exp0, m, exp) && !DeepEnough(style, F, m0, exp0)
    ensures var e := m0 as real + 0.75; var x := Scale(e, exp0 - 14 - F);
      Cut(e, m0, true) && !IsRounded(style, if negative then -x else x, Packed(style, F, m, exp, negative, true))
  {
    var h := exp * 1024 + Shr(m, F - 10);
    ShiftsDone(style, F, m0, exp0, m, exp);
    ExactAbove(F, m0, exp0, m, exp);
    ExactFails(style, negative, m0, exp0 - 14 - F, h, SignBit(negative) + h);
  }

  /** Three quarters above a short integer are not rounded to that integer, nor to the half after it. */
  lemma ExactFails(style: Style, negative: bool, m0: nat, k: int, h: nat, bits: nat)
    requires 0 < m0 && h < INFINITY && Mag(h) == Scale(m0 as real, k) && k <= 4 && bits == SignBit(negative) + h
    requires if style == ToNearest then m0 < 2048 && k >= -24 else m0 < 1024 && k >= -23
    ensures var x := Scale(m0 as real + 0.75, k);
      !IsRounded(style, if negative then -x else x, Rounded(style, bits, false, true))
  {
    var x := Scale(m0 as real + 0.75, k);
    var up := if negative then TowardNegInfinity else TowardInfinity;
    ScalePositive(m0 as real + 0.75, k);
    SignedBits(style, negative, h, false, true);
    if style == ToNearest {
      NextIsCloser(m0, k + 25, h);
    } else {
      HalfwayIsBetween(m0, k + 24, h);
    }
    NotRounded(style, negative, x, if style == up then h + 1 else h);
  }

  lemma NotRounded(style: Style, negative: bool, x: real, k: nat)
    requires x > 0.0 && k <= INFINITY && !MagnitudeRounded(style, negative, x, k)
    ensures !IsRounded(style, if negative then -x else x, SignBit(negative) + k)
  {
  }

  /** What is left above the rounding place is the significand itself. */
  lemma ExactAbove(F: nat, m0: nat, exp0: nat, m: nat, exp: nat)
    requires Normalized(F, m0, exp0, m, exp) && exp0 - exp >= F - 10
    ensures !BitAt(m, F - 11) && Low(m, F - 11) == 0
    ensures var h := exp * 1024 + Shr(m, F - 10); h < INFINITY && Mag(h) == Scale(m0 as real, exp0 - 14 - F)
  {
    var n, q := exp0 - exp, Shl(m0, exp0 - exp - (F - 10));
    ShlShl(m0, n - (F - 10), F - 10);
    ZerosBelow(q, F - 11);
    UpperBits(F, m, exp);
    ExactMag(m0, n - (F - 10), exp, q);
  }

  lemma ZerosBelow(q: nat, k: nat)
    ensures Shr(Shl(q, k + 1), k + 1) == q && !BitAt(Shl(q, k + 1), k) && Low(Shl(q, k + 1), k) == 0
  {
    ShlShl(q, 1, k);
    ShrAbove(0, q, k + 1);
    ShrAbove(0, 2 * q, k);
    NothingLow(k + 1);
    NothingLow(k);
  }

  lemma ExactMag(m0: nat, n: nat, exp: nat, q: nat)
    requires q == Shl(m0, n) < 2048 && (exp == 0 || q >= 1024)
    ensures Mag(exp * 1024 + q) == Scale(m0 as real, exp + n - 24)
  {
    MagOf(exp + 1, q);
    ScaleShl(m0, n);
    ScaleScale(m0 as real, n, exp - 24);
  }

  lemma NextIsCloser(m0: nat, exp: nat, h: nat)
    requires 0 < m0 < 2048 && 1 <= exp <= 29 && h < INFINITY && Mag(h) == Scale(m0 as real, exp - 25)
    ensures !RoundsNearest(Scale(m0 as real + 0.75, exp - 25), h)
  {
    var k := exp - 25;
    var g := Representable(m0 + 1, exp);
    QuarterSteps(m0 as real, k);
    assert !NoCloser(Scale(m0 as real + 0.75, k), h, g);
  }

  lemma QuarterSteps(x: real, k: int)
    ensures Scale(0.25, k) > 0.0 && Scale(x + 0.5, k) == Scale(x, k) + 2.0 * Scale(0.25, k)
    ensures Scale(x + 0.75, k) == Scale(x, k) + 3.0 * Scale(0.25, k)
    ensures Scale(x + 1.0, k) == Scale(x, k) + 4.0 * Scale(0.25, k)
  {
    ScalePositive(0.25, k);
    ScaleSum(x, 0.25, k);
    ScaleSum(x + 0.25, 0.25, k);
    ScaleSum(x + 0.5, 0.25, k);
    ScaleSum(x + 0.75, 0.25, k);
  }

  /** A short integer times a power of two is a half. */
  lemma {:induction false} Representable(m: nat, exp: nat) returns (g: nat)
    requires m <= 2048 && 1 <= exp <= 29
    ensures g < INFINITY && Mag(g) == Scale(m as real, exp - 25)
    decreases exp
  {
    if exp == 1 || m >= 1024 {
      MagOf(exp, m);
      g := (exp - 1) * 1024 + m;
    } else {
      g := Representable(2 * m, exp - 1);
      ScaleDouble(m as real, exp - 26);
    }
  }

  lemma HalfwayIsBetween(m0: nat, exp: nat, h: nat)
    requires 0 < m0 < 1024 && 1 <= exp <= 29 && h < INFINITY && Mag(h) == Scale(m0 as real, exp - 24)
    ensures var x := Scale(m0 as real + 0.75, exp - 24); !RoundsDown(x, h) && !RoundsUp(x, h + 1)
  {
    var x := Scale(m0 as real + 0.75, exp - 24);
    var g := Representable(2 * m0 + 1, exp);
    ScaleDouble(m0 as real + 0.5, exp - 25);
    QuarterSteps(m0 as real, exp - 24);
    assert Mag(h) < Mag(g) < x;
    MagCompare(h, g);
    MagCompare(g, h + 1);
  }

  lemma ShiftedCut(e0: real, m0: nat, s: bool, n: nat)
    requires Cut(e0, m0, s)
    ensures CutAt(Scale(e0, n), Shl(m0, n), s, if s then n else 0)
  {
    if s {
      ScaleScale(e0, n, -(n as int));
      ShrAbove(0, m0, n);
      NothingLow(n);
    } else {
      ScaleShl(m0, n);
    }
  }

  lemma {:induction false} NothingLow(n: nat)
    ensures Shr(0, n) == 0 && Low(0, n) == 0
  {
    if n > 0 { NothingLow(n - 1); }
  }

  lemma NormalizedRounds(style: Style, F: nat, m: nat, exp: nat, negative: bool, s: bool, e: real, j: nat)
    requires 11 <= F <= 31 && m < Shl(2, F) && exp <= 29 && (exp == 0 || m >= Shl(1, F))
    requires CutAt(e, m, s, j) && j <= F - 11 && e > 0.0
    ensures var x := Scale(e, exp - 14 - F);
      IsRounded(style, if negative then -x else x, Packed(style, F, m, exp, negative, s))
  {
    UpperBits(F, m, exp);
    ShiftedRounds(style, negative, e, m, s, j, F - 10, exp + 1, exp - 14 - F,
                  SignBit(negative) + exp * 1024 + Shr(m, F - 10));
  }

  /** The value of a two's complement word of 32 bits, and its magnitude. */
  function Signed32(word: nat): int {
    if word >= 0x8000_0000 then word - 0x1_0000_0000 else word
  }

  function Magnitude32(word: nat): nat {
    if Signed32(word) < 0 then -Signed32(word) else Signed32(word)
  }

  /** Two's complement: the number of 32 bits with sign that is congruent to the word. */
  lemma SignedWord(word: nat, v: int)
    requires word < 0x1_0000_0000
    ensures v == Signed32(word) <==> -0x8000_0000 <= v < 0x8000_0000 && (word - v) % 0x1_0000_0000 == 0
  {
  }

  /** The variant that takes the significand as a signed word. */
  method Fixed2HalfSigned(style: Style, F: nat, word: nat, exp: nat, s: bool) returns (r: nat)
    requires 11 <= F <= 31 && word < 0x1_0000_0000 && exp <= 29 && 0 < Magnitude32(word) < Shl(2, F)
    ensures RoundsEvery(style, Signed32(word) < 0, Magnitude32(word), s, exp - 14 - F, r)
      <==> (s ==> DeepEnough(style, F, Magnitude32(word), exp))
  {
    var m := SignAndMagnitude(word);
    r := Fixed2HalfNormalizing(style, F, m, exp, word >= 0x8000_0000, s);
  }

  /** `(m ^ mask) - mask`, where the mask repeats the sign bit. */
  method SignAndMagnitude(word: nat) returns (m: nat)
    requires word < 0x1_0000_0000
    ensures m == Magnitude32(word)
  {
    if word >= 0x8000_0000 {
      var flipped := 0xFFFF_FFFF - word;
      m := (flipped + 1) % 0x1_0000_0000;
    } else {
      m := word;
    }
  }

  lemma {:induction false} ShlTwice(k: nat)
    ensures Shl(2, k) == 2 * Shl(1, k)
  {
    if k > 0 { ShlTwice(k - 1); }
  }

  lemma {:induction false} ShlZero(k: nat)
    ensures Shl(0, k) == 0
  {
    if k > 0 { ShlZero(k - 1); }
  }

  // --------------------------------------------------------------- int2half

  /** `int2half`, of any integer. */
  method Int2Half(style: Style, value: int) returns (r: nat)
    ensures value == 0 ==> r == 0
    ensures value != 0 ==> IsRounded(style, value as real, r)
  {
    if value == 0 {
      return 0;
    }
    var negative := value < 0;
    var v: nat := if negative then -value else value;
    if v > 0xFFFF {
      OverflowIsCorrect(style, negative, v as real);
      return Overflow(style, SignBit(negative));
    }
    var m, exp := NormalizeInteger(v);
    var bits := SignBit(negative) + exp * 1024 + m;
    if exp > 24 {
      LongIntegerRounds(style, negative, v, exp);
      r := Rounded(style, bits, BitAt(v, exp - 25), Low(v, exp - 25) != 0);
    } else {
      ShortIntegerRounds(style, negative, v, exp, m);
      r := bits;
    }
  }

  /** The two loops of `int2half`: eleven significant bits and the exponent that goes with them. */
  method NormalizeInteger(v: nat) returns (m: nat, exp: nat)
    requires 0 < v < 0x10000
    ensures 14 <= exp <= 29 && 0x400 <= m <= 0x7FF
    ensures if exp <= 24 then m == Shl(v, 24 - exp) else m == Shr(v, exp - 24)
  {
    m, exp := v, 24;
    TenShifts();
    while m < 0x400
      invariant 14 <= exp <= 24 && m == Shl(v, 24 - exp) && (exp < 24 ==> m < 0x800)
      decreases 0x400 - m
    {
      AtMostTen(v, 24 - exp);
      m, exp := 2 * m, exp - 1;
    }
    while m > 0x7FF
      invariant 14 <= exp <= 29 && m >= 0x400 && (if exp <= 24 then m == Shl(v, 24 - exp) else m == Shr(v, exp - 24))
      invariant exp < 24 ==> m < 0x800
      decreases m
    {
      AtMostFive(v, exp - 24);
      ShrOnce(v, exp - 24);
      m, exp := m / 2, exp + 1;
    }
  }

  lemma AtMostTen(v: nat, n: nat)
    requires v > 0 && n <= 10 && Shl(v, n) < 0x400
    ensures n < 10
  {
    TenShifts();
    ShlMonotone(1, v, n);
  }

  lemma AtMostFive(v: nat, n: nat)
    requires v < 0x10000 && n <= 5 && Shr(v, n) > 0x7FF
    ensures n < 5
  {
    assert Shl(2048, 5) == 0x10000 && Shl(0, 5) == 0;
    ShrBounds(v, 0, 2048, 5);
  }

  lemma LongIntegerRounds(style: Style, negative: bool, v: nat, exp: nat)
    requires v > 0 && 24 < exp <= 29 && 0x400 <= Shr(v, exp - 24) <= 0x7FF
    ensures IsRounded(style, if negative then -(v as real) else v as real,
      Rounded(style, SignBit(negative) + exp * 1024 + Shr(v, exp - 24), BitAt(v, exp - 25), Low(v, exp - 25) != 0))
  {
    ShiftedRounds(style, negative, v as real, v, false, 0, exp - 24, exp + 1, 0,
                  SignBit(negative) + exp * 1024 + Shr(v, exp - 24));
  }

  lemma ShortIntegerRounds(style: Style, negative: bool, v: nat, exp: nat, m: nat)
    requires v > 0 && 14 <= exp <= 24 && m == Shl(v, 24 - exp) && 0x400 <= m <= 0x7FF
    ensures IsRounded(style, if negative then -(v as real) else v as real, SignBit(negative) + exp * 1024 + m)
  {
    var n, r := 24 - exp, SignBit(negative) + exp * 1024 + m;
    MagOf(exp + 1, m);
    ScaleShl(v, n);
    ScaleScale(v as real, n, -(n as int));
    assert r % SIGN == exp * 1024 + m;
    ExactIsRounded(style, r);
  }

  // ----------------------------------------------------------- double to half

  /** Significand of a double given by its two words, in units of 2^-20, without the sign. */
  function Significand53(hi: nat, lo: nat): real {
    (hi % 0x100000 + if hi >= 0x100000 then 0x100000 else 0) as real + lo as real / 4294967296.0
  }

  /** Magnitude of a finite double: `hi` is its high word without the sign bit. */
  function DoubleMag(hi: nat, lo: nat): real {
    Scale(Significand53(hi, lo), (if hi >= 0x100000 then hi / 0x100000 else 1) - 1043)
  }

  /** `float2half` of a double with the given high and low words. */
  method Double2Half(style: Style, high: nat, lo: nat) returns (r: nat)
    requires high < 0x1_0000_0000 && lo < 0x1_0000_0000
    ensures var hi := high % 0x80000000; var negative := high >= 0x80000000;
      if hi >= 0x7FF00000 then
        if hi == 0x7FF00000 && lo == 0 then r == SignBit(negative) + INFINITY
        else QuietNaN(negative, hi / 0x400 % 0x200, r)
      else if hi == 0 && lo == 0 then r == SignBit(negative)
      else IsRounded(style, if negative then -DoubleMag(hi, lo) else DoubleMag(hi, lo), r)
  {
    var negative := high >= 0x80000000;
    var hi := high % 0x80000000;
    if hi >= 0x7FF00000 {
      r := SpecialDouble2Half(negative, hi, lo);
      return;
    }
    r := FiniteDouble2Half(style, negative, hi, lo);
  }

  method SpecialDouble2Half(negative: bool, hi: nat, lo: nat) returns (r: nat)
    requires 0x7FF00000 <= hi < 0x80000000
    ensures if hi == 0x7FF00000 && lo == 0 then r == SignBit(negative) + INFINITY
            else QuietNaN(negative, hi / 0x400 % 0x200, r)
  {
    var sign, payload := SignBit(negative), hi / 0x400 % 0x400;
    LowNine(hi / 0x400);
    DoubleNaN(negative, payload % 0x200);
    return sign + 0x7C00 + if hi % 0x100000 != 0 || lo != 0 then payload % 0x200 + 0x200 else 0;
  }

  lemma LowNine(p: nat)
    ensures p % 0x400 % 0x200 == p % 0x200
  {
  }

  lemma DoubleNaN(negative: bool, p: nat)
    requires p < 0x200
    ensures QuietNaN(negative, p, SignBit(negative) + 0x7C00 + (p + 0x200))
  {
  }

  method FiniteDouble2Half(style: Style, negative: bool, hi: nat, lo: nat) returns (r: nat)
    requires hi < 0x7FF00000 && lo < 0x1_0000_0000
    ensures if hi == 0 && lo == 0 then r == SignBit(negative)
      else IsRounded(style, if negative then -DoubleMag(hi, lo) else DoubleMag(hi, lo), r)
  {
    var sign := SignBit(negative);
    if hi >= 0x40F00000 {
      LargeDouble(hi, lo);
      OverflowIsCorrect(style, negative, DoubleMag(hi, lo));
      return Overflow(style, sign);
    }
    if hi >= 0x3F100000 {
      NormalDouble(style, negative, hi, lo);
      return Rounded(style, sign + (hi / 0x100000 - 1008) * 1024 + Shr(hi, 10) % 0x400, BitAt(hi, 9),
                     Low(hi, 9) != 0 || lo != 0);
    }
    if hi >= 0x3E600000 {
      var i := 1018 - hi / 0x100000;
      var m := hi % 0x100000 + 0x100000;
      SubnormalDouble(style, negative, hi, lo);
      return Rounded(style, sign + Shr(m, i + 1), BitAt(m, i), Low(m, i) != 0 || lo != 0);
    }
    if hi != 0 || lo != 0 {
      TinyDouble(hi, lo);
      UnderflowIsCorrect(style, negative, DoubleMag(hi, lo));
      return Underflow(style, sign);
    }
    r := sign;
  }

  lemma LargeDouble(hi: nat, lo: nat)
    requires 0x40F00000 <= hi < 0x7FF00000
    ensures DoubleMag(hi, lo) >= 65536.0
  {
    var e := hi / 0x100000 - 1043;
    ScaleGrows(0x100000 as real, -4, e);
    ScaleOrder(Significand53(hi, lo), 0x100000 as real, e);
    assert Scale(1048576.0, -4) == 65536.0;
  }

  lemma {:induction false} ScaleGrows(x: real, j: int, k: int)
    requires j <= k && x > 0.0
    ensures Scale(x, j) <= Scale(x, k)
    decreases k - j
  {
    if j < k {
      ScaleGrows(x, j, k - 1);
      ScaleStep(x, k - 1);
      ScalePositive(x, k - 1);
    }
  }

  lemma TinyDouble(hi: nat, lo: nat)
    requires hi < 0x3E600000 && lo < 0x1_0000_0000 && (hi != 0 || lo != 0)
    ensures 0.0 < DoubleMag(hi, lo) < Scale(1.0, -25)
  {
    var e := (if hi >= 0x100000 then hi / 0x100000 else 1) - 1043;
    var x := Significand53(hi, lo);
    ScalePositive(x, e);
    ScaleOrder(x, 2097152.0, e);
    ScaleGrows(2097152.0, e, -46);
    TwoTo21();
  }

  lemma TwoTo21()
    ensures Scale(2097152.0, -46) == Scale(1.0, -25)
  {
    SevenMore(1.0, -32);
    SevenMore(128.0, -39);
    SevenMore(16384.0, -46);
  }

  lemma SevenMore(x: real, k: int)
    ensures Scale(128.0 * x, k) == Scale(x, k + 7)
  {
    assert Scale(x, 1) == 2.0 * x && Scale(x, 3) == 2.0 * Scale(x, 2) && Scale(x, 2) == 2.0 * Scale(x, 1);
    assert Scale(x, 5) == 2.0 * Scale(x, 4) && Scale(x, 4) == 2.0 * Scale(x, 3);
    assert Scale(x, 7) == 2.0 * Scale(x, 6) && Scale(x, 6) == 2.0 * Scale(x, 5);
    ScaleScale(x, 7, k);
  }

  lemma NormalDouble(style: Style, negative: bool, hi: nat, lo: nat)
    requires 0x3F100000 <= hi < 0x40F00000 && lo < 0x1_0000_0000
    ensures IsRounded(style, if negative then -DoubleMag(hi, lo) else DoubleMag(hi, lo),
      Rounded(style, SignBit(negative) + (hi / 0x100000 - 1008) * 1024 + Shr(hi, 10) % 0x400, BitAt(hi, 9),
              Low(hi, 9) != 0 || lo != 0))
  {
    var m, exp := hi % 0x100000 + 0x100000, hi / 0x100000 - 1008;
    var e := Significand53(hi, lo);
    SameBits(hi, m);
    assert Cut(e, m, lo != 0);
    WordRounds(style, negative, e, m, lo != 0, 10, exp, Shr(hi, 10) % 0x400, BitAt(hi, 9), Low(hi, 9) != 0);
  }

  lemma WordRounds(style: Style, negative: bool, e: real, m: nat, s: bool, k: nat, exp: nat,
                   top: nat, g: bool, low: bool)
    requires Cut(e, m, s) && e > 0.0 && k > 0 && 1 <= exp <= 30 && Shr(m, k) == 1024 + top < 2048
    requires g == BitAt(m, k - 1) && (low <==> Low(m, k - 1) != 0)
    ensures var x := Scale(e, exp - 25 - k);
      IsRounded(style, if negative then -x else x, Rounded(style, SignBit(negative) + exp * 1024 + top, g, low || s))
  {
    ShiftedRounds(style, negative, e, m, s, 0, k, exp, exp - 25 - k, SignBit(negative) + exp * 1024 + top);
  }

  lemma SubnormalDouble(style: Style, negative: bool, hi: nat, lo: nat)
    requires 0x3E600000 <= hi < 0x3F100000 && lo < 0x1_0000_0000
    ensures var m, i := hi % 0x100000 + 0x100000, 1018 - hi / 0x100000;
      IsRounded(style, if negative then -DoubleMag(hi, lo) else DoubleMag(hi, lo),
        Rounded(style, SignBit(negative) + Shr(m, i + 1), BitAt(m, i), Low(m, i) != 0 || lo != 0))
  {
    var m, i := hi % 0x100000 + 0x100000, 1018 - hi / 0x100000;
    var e := Significand53(hi, lo);
    assert Cut(e, m, lo != 0);
    SameBits(hi, m);
    ShrSmaller(m, 2048, 10, i + 1);
    ShiftedRounds(style, negative, e, m, lo != 0, 0, i + 1, 1, hi / 0x100000 - 1043, SignBit(negative) + Shr(m, i + 1));
  }

  /** The bits the source reads from the high word are those of the significand. */
  lemma SameBits(hi: nat, m: nat)
    requires hi >= 0x100000 && m == hi % 0x100000 + 0x100000
    ensures Shr(m, 10) == 1024 + Shr(hi, 10) % 0x400 < 2048
    ensures BitAt(m, 9) == BitAt(hi, 9) && (Low(m, 9) == 0 <==> Low(hi, 9) == 0)
  {
    SameFields(hi % 0x100000, hi / 0x100000, hi, m);
  }

  lemma SameFields(f: nat, e: nat, hi: nat, m: nat)
    requires f < 0x100000 && hi == 0x100000 * e + f && m == 0x100000 + f
    ensures Shr(m, 10) == 1024 + Shr(hi, 10) % 0x400 < 2048
    ensures BitAt(m, 9) == BitAt(hi, 9) && (Low(m, 9) == 0 <==> Low(hi, 9) == 0)
  {
    FieldBits(f, e);
    FieldBits(f, 1);
    FieldMod(e, Shr(f, 10), Shr(f, 9));
    FieldMod(1, Shr(f, 10), Shr(f, 9));
  }

  lemma FieldMod(e: nat, x: nat, y: nat)
    requires x < 1024
    ensures (1024 * e + x) % 0x400 == x && (2048 * e + y) % 2 == y % 2
  {
  }

  /** Bits 9 and up, and below 9, of a word with the field `e` above bit 20. */
  lemma FieldBits(f: nat, e: nat)
    requires f < 0x100000
    ensures Shr(f, 10) < 1024 && Shr(0x100000 * e + f, 10) == 1024 * e + Shr(f, 10)
    ensures Shr(0x100000 * e + f, 9) == 2048 * e + Shr(f, 9) && Low(0x100000 * e + f, 9) == Low(f, 9)
  {
    ShlIs(1024 * e, 10);
    ShlIs(2048 * e, 9);
    assert Pow2(10) == 1024 && Pow2(9) == 512;
    ShrAbove(f, 1024 * e, 10);
    ShrAbove(f, 2048 * e, 9);
    ShlIs(1024, 10);
    ShlIs(0, 10);
    ShrBounds(f, 0, 1024, 10);
  }

  lemma {:induction false} ShlIs(y: nat, k: nat)
    ensures Shl(y, k) == y * Pow2(k)
  {
    if k > 0 {
      ShlIs(y, k - 1);
      assert y * Pow2(k) == 2 * (y * Pow2(k - 1));
    }
  }

  lemma {:induction false} ShrAbove(x: nat, y: nat, k: nat)
    ensures Shr(x + Shl(y, k), k) == Shr(x, k) + y && Low(x + Shl(y, k), k) == Low(x, k)
  {
    if k > 0 {
      ShrAbove(x / 2, y, k - 1);
      assert (x + Shl(y, k)) / 2 == x / 2 + Shl(y, k - 1);
    }
  }
}

/** Addition of halves, `operator+`, `src/libspu/core/half.h`. */
module HalfSum {
  import opened Arith
  import opened HalfRounding
  import opened HalfConvert

  // ------------------------------------------------------- significands with a sticky bit

  /** `m` is `f`, or the odd number next to it. */
  ghost predicate Jam(m: nat, f: real) {
    f == m as real || (m % 2 == 1 && m as real - 1.0 < f < m as real + 1.0)
  }

  /** The same after one doubling. */
  ghost predicate JamTwice(m: nat, f: real) {
    f == m as real || (m % 4 == 2 && m as real - 2.0 < f < m as real + 2.0)
  }

  /** `(m >> d) | ((m & ((1 << d) - 1)) != 0)`. */
  function ShrJam(m: nat, d: nat): nat {
    if Low(m, d) != 0 && Shr(m, d) % 2 == 0 then Shr(m, d) + 1 else Shr(m, d)
  }

  lemma {:induction false} ShiftCut(f: real, m: nat, s: bool, d: nat)
    requires Cut(f, m, s)
    ensures Cut(Scale(f, -(d as int)), Shr(m, d), s || Low(m, d) != 0)
    decreases d
  {
    if d > 0 {
      HalveCut(f, m, s);
      ShiftCut(f / 2.0, m / 2, s || m % 2 == 1, d - 1);
      ScaleScale(f, -1, -(d as int - 1));
    }
  }

  /** Shifting right with the lost bits or-ed into the last one. */
  lemma ShrJamIsJam(m: nat, d: nat)
    ensures Jam(ShrJam(m, d), Scale(m as real, -(d as int)))
  {
    ShiftCut(m as real, m, false, d);
    OddNext(Scale(m as real, -(d as int)), Shr(m, d), Low(m, d) != 0);
  }

  lemma OddNext(f: real, q: nat, s: bool)
    requires Cut(f, q, s)
    ensures Jam(if s && q % 2 == 0 then q + 1 else q, f)
  {
  }

  lemma JamCut(m: nat, f: real)
    requires Jam(m, f) || JamTwice(m, f)
    ensures CutAt(f, m, false, 2)
  {
    assert Shr(m, 2) == Shr(m / 2, 1) == Shr(m / 2 / 2, 0);
    assert Low(m, 2) == m % 2 + 2 * Low(m / 2, 1) && Low(m / 2, 1) == m / 2 % 2 + 2 * Low(m / 2 / 2, 0);
    assert Scale(f, -2) == f / 2.0 / 2.0;
  }

  lemma JamHalf(m: nat, f: real)
    requires Jam(m, f)
    ensures Jam(if m % 2 == 1 && m / 2 % 2 == 0 then m / 2 + 1 else m / 2, f / 2.0)
  {
  }

  /** What the normalising loop keeps: exact, or inexact and at most one shift from having the leading bit `top`. */
  ghost predicate Near(m: nat, f: real, top: nat) {
    f == m as real || (2 * m > top && Jam(m, f)) || (m >= top && JamTwice(m, f))
  }

  lemma NearDouble(m: nat, f: real, top: nat)
    requires Near(m, f, top) && m < top
    ensures Near(2 * m, 2.0 * f, top)
  {
  }

  lemma NearCut(m: nat, f: real, top: nat)
    requires Near(m, f, top)
    ensures CutAt(f, m, false, 2)
  {
    JamCut(m, f);
  }

  // ---------------------------------------------------------------- operator+

  /** Exponent field, counting subnormals with the first binade. */
  function Field(abs: nat): nat {
    abs / 1024 + Bit(abs <= 0x3FF)
  }

  /** Significand, with the hidden bit of a normal number. */
  function Sig(abs: nat): nat {
    abs % 1024 + if abs > 0x3FF then 1024 else 0
  }

  lemma Decode(abs: nat)
    requires abs < INFINITY
    ensures 1 <= Field(abs) <= 30 && Sig(abs) < 2048 && (Field(abs) == 1 || Sig(abs) >= 1024)
    ensures Mag(abs) == Scale((8 * Sig(abs)) as real, Field(abs) - 28)
  {
    var m, e := Sig(abs), Field(abs);
    MagOf(e, m);
    assert (e - 1) * 1024 + m == abs;
    ScaleShl(m, 3);
    assert Shl(m, 3) == 2 * Shl(m, 2) == 4 * Shl(m, 1);
    ScaleScale(m as real, 3, e as int - 28);
  }

  function Signed(negative: bool, x: real): real {
    if negative then -x else x
  }

  /** Result of an exact sum of zero. */
  function ZeroResult(style: Style, x: nat, y: nat): nat {
    if x >= SIGN && y >= SIGN then SIGN
    else if x < SIGN && y < SIGN then 0
    else if style == TowardNegInfinity then SIGN else 0
  }

  /**
   * The sign of an exact zero from operands with the signs `s` and `t`: their common sign in every style, and from
   * opposite signs negative toward negative infinity only.
   */
  ghost predicate ZeroSigned(style: Style, s: bool, t: bool, r: nat) {
    && (s && t ==> r == 0x8000)
    && (!s && !t ==> r == 0x0000)
    && (s != t && style == TowardNegInfinity ==> r == 0x8000)
    && (s != t && style != TowardNegInfinity ==> r == 0x0000)
  }

  /** The smaller significand, aligned with the larger one; from `w` places on only a sticky bit is left. */
  function Aligned(my: nat, d: nat, w: nat): nat {
    if d < w then ShrJam(my, d) else 1
  }

  lemma AlignedIsJam(my: nat, d: nat, w: nat)
    requires 0 < my < Shl(2, w)
    ensures Jam(Aligned(my, d, w), Scale(my as real, -(d as int)))
  {
    if d < w {
      ShrJamIsJam(my, d);
    } else {
      var f := my as real;
      ScalePositive(f, -(d as int));
      ScaleGrows(f, -(d as int), -(w as int));
      ScaleOrder(f, Shl(2, w) as real, -(w as int));
      ScaleShl(2, w);
      ScaleScale(2.0, w, -(w as int));
    }
  }

  lemma ShlThirteen()
    ensures Shl(2, 13) == 0x4000
  {
    ShlIs(2, 13);
    Pow2Add(6, 7);
    assert Pow2(6) == 64 && Pow2(7) == 128;
  }

  /** Two magnitudes over the exponent of the larger one. */
  lemma Align(absx: nat, absy: nat, d: nat)
    requires 0 < absy <= absx < INFINITY && d == Field(absx) - Field(absy)
    ensures var f := Scale((8 * Sig(absy)) as real, -(d as int));
      Mag(absy) == Scale(f, Field(absx) - 28) && f > 0.0
  {
    Decode(absx);
    Decode(absy);
    var g := (8 * Sig(absy)) as real;
    ScalePositive(g, -(d as int));
    ScaleScale(g, -(d as int), Field(absx) - 28);
  }

  lemma FieldOrder(absx: nat, absy: nat)
    requires 0 < absy <= absx < INFINITY
    ensures Field(absx) >= Field(absy) && (Field(absx) == Field(absy) ==> Sig(absx) - Sig(absy) == absx - absy)
    ensures 0 < Sig(absy) && 0 < Sig(absx)
  {
  }

  lemma ScaleDifference(x: real, y: real, k: int)
    ensures Scale(x - y, k) == Scale(x, k) - Scale(y, k)
  {
    ScaleSum(x - y, y, k);
  }

  /** What is shifted out of a multiple of 8 needs a shift by more than 3. */
  lemma ExactOrFar(v: nat, d: nat)
    requires v % 8 == 0 && d <= 3
    ensures Low(v, d) == 0
  {
    if d > 0 {
      var h := v / 2;
      assert Low(v, d) == v % 2 + 2 * Low(h, d - 1);
      if d > 1 {
        assert Low(h, d - 1) == h % 2 + 2 * Low(h / 2, d - 2);
        if d > 2 { assert Low(h / 2, 1) == h / 2 % 2 + 2 * Low(h / 2 / 2, 0); }
      }
    }
  }

  /** A difference with an inexact operand keeps all but one of its leading bits. */
  lemma DifferenceNear(mx: nat, my: nat, d: nat)
    requires mx % 8 == 0 && my % 8 == 0 && 0 < my < 0x4000 && mx < 0x4000 && (d > 0 ==> mx >= 0x2000)
    requires (d == 0 ==> my <= mx)
    ensures Aligned(my, d, 13) <= mx
    ensures var m, f := mx - Aligned(my, d, 13), mx as real - Scale(my as real, -(d as int));
      Near(m, f, 0x2000) && (m == 0 <==> f == 0.0) && f >= 0.0
  {
    var a, f := Aligned(my, d, 13), Scale(my as real, -(d as int));
    ShlThirteen();
    AlignedIsJam(my, d, 13);
    if d <= 3 {
      ExactOrFar(my, d);
      ShiftCut(my as real, my, false, d);
      CloseDifference(my, d);
    } else {
      ScaleGrows(my as real, -(d as int), -4);
      assert Scale(my as real, -4) == my as real / 16.0;
      FarDifference(mx, a, f);
    }
  }

  lemma CloseDifference(my: nat, d: nat)
    requires 0 < my < 0x4000
    ensures Scale(my as real, -(d as int)) <= my as real && (d > 0 ==> Scale(my as real, -(d as int)) < 8192.0)
  {
    ScaleGrows(my as real, -(d as int), 0);
    if d > 0 { ScaleGrows(my as real, -(d as int), -1); }
  }

  lemma FarDifference(mx: nat, a: nat, f: real)
    requires mx % 8 == 0 && 0x2000 <= mx < 0x4000 && Jam(a, f) && f < 1024.0
    ensures a <= mx && Near(mx - a, mx as real - f, 0x2000) && mx - a > 0 && mx as real - f > 0.0
  {
  }

  /** The sum of two aligned significands. */
  lemma SumNear(mx: nat, my: nat, d: nat, a: nat)
    requires mx % 8 == 0 && mx < 0x4000 && 0 < my < 0x4000 && Jam(a, Scale(my as real, -(d as int)))
    ensures var f := mx as real + Scale(my as real, -(d as int));
      Jam(mx + a, f) && f > 0.0 && mx + a < 0x8000
  {
    ScalePositive(my as real, -(d as int));
    ShrunkAtMost(my, d);
    JamSum(mx, a, Scale(my as real, -(d as int)), my);
  }

  lemma ShrunkAtMost(my: nat, d: nat)
    requires my > 0
    ensures Scale(my as real, -(d as int)) <= my as real
  {
    ScaleGrows(my as real, -(d as int), 0);
  }

  lemma JamSum(mx: nat, a: nat, f: real, my: nat)
    requires mx % 2 == 0 && Jam(a, f) && f <= my as real
    ensures Jam(mx + a, mx as real + f) && a <= my + 1
  {
  }

  /** The exact sum and difference over the larger exponent. */
  lemma ExactSum(absx: nat, absy: nat, d: nat)
    requires 0 < absy <= absx < INFINITY && d == Field(absx) - Field(absy)
    ensures var x, y, k := (8 * Sig(absx)) as real, Scale((8 * Sig(absy)) as real, -(d as int)), Field(absx) - 28;
      Mag(absx) + Mag(absy) == Scale(x + y, k) && Mag(absx) - Mag(absy) == Scale(x - y, k) &&
      x - y >= 0.0 && (x - y == 0.0 <==> absx == absy)
  {
    var x, y, k := (8 * Sig(absx)) as real, Scale((8 * Sig(absy)) as real, -(d as int)), Field(absx) - 28;
    Decode(absx);
    Align(absx, absy, d);
    ScaleSum(x, y, k);
    ScaleDifference(x, y, k);
    MagOrder(absy, absx);
    ScaleOrder(y, x, k);
    ScaleOrder(x, y, k);
  }

  /** `operator+` of two non-zero finite halves, the magnitudes in order of size. */
  method AddOrdered(style: Style, absx: nat, absy: nat, negative: bool, sub: bool) returns (r: nat)
    requires 0 < absy <= absx < INFINITY
    ensures sub && absx == absy ==> r == SignBit(style == TowardNegInfinity)
    ensures !(sub && absx == absy) ==>
      IsRounded(style, Signed(negative, if sub then Mag(absx) - Mag(absy) else Mag(absx) + Mag(absy)), r)
  {
    if sub {
      r := SubtractOrdered(style, absx, absy, negative);
    } else {
      r := SumOrdered(style, absx, absy, negative);
    }
  }

  method SubtractOrdered(style: Style, absx: nat, absy: nat, negative: bool) returns (r: nat)
    requires 0 < absy <= absx < INFINITY
    ensures absx == absy ==> r == SignBit(style == TowardNegInfinity)
    ensures absx != absy ==> IsRounded(style, Signed(negative, Mag(absx) - Mag(absy)), r)
  {
    var exp, mx := Field(absx), 8 * Sig(absx);
    FieldOrder(absx, absy);
    var d, my := exp - Field(absy), 8 * Sig(absy);
    Decode(absx);
    Decode(absy);
    ExactSum(absx, absy, d);
    DifferenceNear(mx, my, d);
    var m := mx - Aligned(my, d, 13);
    if m == 0 {
      return SignBit(style == TowardNegInfinity);
    }
    r := RoundDifference(style, negative, m, exp, mx as real - Scale(my as real, -(d as int)));
  }

  method SumOrdered(style: Style, absx: nat, absy: nat, negative: bool) returns (r: nat)
    requires 0 < absy <= absx < INFINITY
    ensures IsRounded(style, Signed(negative, Mag(absx) + Mag(absy)), r)
  {
    var exp, mx := Field(absx), 8 * Sig(absx);
    FieldOrder(absx, absy);
    var d, my := exp - Field(absy), 8 * Sig(absy);
    Decode(absx);
    Decode(absy);
    ExactSum(absx, absy, d);
    var a := Aligned(my, d, 13);
    ShlThirteen();
    AlignedIsJam(my, d, 13);
    SumNear(mx, my, d, a);
    r := RoundSum(style, negative, mx + a, exp, mx as real + Scale(my as real, -(d as int)));
  }

  /** Normalises a difference and rounds it. */
  method RoundDifference(style: Style, negative: bool, m0: nat, exp0: nat, ghost e0: real) returns (r: nat)
    requires 0 < m0 < 0x4000 && 1 <= exp0 <= 30 && Near(m0, e0, 0x2000) && e0 > 0.0
    ensures IsRounded(style, Signed(negative, Scale(e0, exp0 - 28)), r)
  {
    var mx: nat, exp: nat := m0, exp0;
    ghost var e := e0;
    while mx < 0x2000 && exp > 1
      invariant 0 < mx < 0x4000 && 1 <= exp <= 30 && Near(mx, e, 0x2000) && e > 0.0
      invariant Scale(e, exp - 28) == Scale(e0, exp0 - 28)
      decreases exp
    {
      NearDouble(mx, e, 0x2000);
      ScaleDouble(e, exp - 29);
      mx, exp, e := 2 * mx, exp - 1, 2.0 * e;
    }
    NearCut(mx, e, 0x2000);
    RoundThree(style, negative, mx, exp, e);
    r := Rounded(style, SignBit(negative) + (exp - 1) * 1024 + Shr(mx, 3), BitAt(mx, 2), Low(mx, 2) != 0);
  }

  /** Shortens a sum and rounds it. */
  method RoundSum(style: Style, negative: bool, m0: nat, exp0: nat, ghost e0: real) returns (r: nat)
    requires 0 < m0 < 0x8000 && 1 <= exp0 <= 30 && Jam(m0, e0) && e0 > 0.0 && (exp0 == 1 || m0 >= 0x2000)
    ensures IsRounded(style, Signed(negative, Scale(e0, exp0 - 28)), r)
  {
    var i := if m0 >= 0x4000 then 1 else 0;
    var exp := exp0 + i;
    if exp > 30 {
      ScaleOrder(e0, 16384.0, 2);
      assert Scale(16384.0, 2) == 65536.0;
      OverflowIsCorrect(style, negative, Scale(e0, 2));
      return Overflow(style, SignBit(negative));
    }
    var mx, e := m0, e0;
    if i == 1 {
      JamHalf(m0, e0);
      ScaleScale(e0, -1, exp - 28);
      mx, e := if m0 % 2 == 1 && m0 / 2 % 2 == 0 then m0 / 2 + 1 else m0 / 2, e0 / 2.0;
    }
    JamCut(mx, e);
    RoundThree(style, negative, mx, exp, e);
    r := Rounded(style, SignBit(negative) + (exp - 1) * 1024 + Shr(mx, 3), BitAt(mx, 2), Low(mx, 2) != 0);
  }

  lemma RoundThree(style: Style, negative: bool, m: nat, exp: nat, e: real)
    requires CutAt(e, m, false, 2) && e > 0.0 && m < 0x4000 && 1 <= exp <= 30 && (exp == 1 || m >= 0x2000)
    ensures IsRounded(style, Signed(negative, Scale(e, exp - 28)),
      Rounded(style, SignBit(negative) + (exp - 1) * 1024 + Shr(m, 3), BitAt(m, 2), Low(m, 2) != 0))
  {
    assert Shr(m, 3) == Shr(m / 2, 2) == Shr(m / 2 / 2, 1) == Shr(m / 2 / 2 / 2, 0);
    ShiftedRounds(style, negative, e, m, false, 2, 3, exp, exp - 28,
                  SignBit(negative) + (exp - 1) * 1024 + Shr(m, 3));
  }

  /** `operator+`. */
  method Add(style: Style, x: nat, y: nat) returns (r: nat)
    requires x < 0x10000 && y < 0x10000
    ensures Finite(x) && Finite(y) ==>
      if Val(x) + Val(y) == 0.0 then r == ZeroResult(style, x, y) else IsRounded(style, Val(x) + Val(y), r)
    ensures Finite(x) && Finite(y) && Val(x) + Val(y) == 0.0 ==> ZeroSigned(style, x >= SIGN, y >= SIGN, r)
    ensures IsNaN(x) ==> QuietNaN(x >= SIGN, x % 0x200, r)
    ensures !IsNaN(x) && IsNaN(y) ==> QuietNaN(y >= SIGN, y % 0x200, r)
    ensures x % SIGN == y % SIGN == INFINITY && x != y ==> r == 0x7FFF
    ensures x % SIGN == INFINITY && (Finite(y) || y == x) ==> r == x
    ensures y % SIGN == INFINITY && Finite(x) ==> r == y
  {
    var absx, absy := x % SIGN, y % SIGN;
    var sub := (x >= SIGN) != (y >= SIGN);
    if absx >= INFINITY || absy >= INFINITY {
      return if absx > INFINITY || absy > INFINITY then Quiet(if absx > INFINITY then x else y)
        else if absy != INFINITY then x
        else if sub && absx == INFINITY then 0x7FFF
        else y;
    }
    r := AddFinite(style, x, y);
  }

  method AddFinite(style: Style, x: nat, y: nat) returns (r: nat)
    requires Finite(x) && Finite(y)
    ensures if Val(x) + Val(y) == 0.0 then r == ZeroResult(style, x, y) else IsRounded(style, Val(x) + Val(y), r)
  {
    var absx, absy := x % SIGN, y % SIGN;
    if absx == 0 || absy == 0 {
      r := AddZero(style, x, y);
      return;
    }
    var sub := (x >= SIGN) != (y >= SIGN);
    var negative := (if sub && absy > absx then y else x) >= SIGN;
    SignedSum(x, y);
    if absy > absx {
      r := AddOrdered(style, absy, absx, negative, sub);
    } else {
      r := AddOrdered(style, absx, absy, negative, sub);
    }
  }

  method AddZero(style: Style, x: nat, y: nat) returns (r: nat)
    requires Finite(x) && Finite(y) && (x % SIGN == 0 || y % SIGN == 0)
    ensures if Val(x) + Val(y) == 0.0 then r == ZeroResult(style, x, y) else IsRounded(style, Val(x) + Val(y), r)
  {
    ZeroValue(x);
    ZeroValue(y);
    if x % SIGN == 0 && y % SIGN == 0 {
      return if style == TowardNegInfinity then (if x == SIGN || y == SIGN then SIGN else 0)
          else if x == SIGN && y == SIGN then SIGN else 0;
    }
    r := if x % SIGN == 0 then y else x;
    ExactIsRounded(style, r);
  }

  /** The sum of two non-zero halves by their magnitudes, the larger one first. */
  lemma SignedSum(x: nat, y: nat)
    requires Finite(x) && Finite(y) && x % SIGN > 0 && y % SIGN > 0
    ensures var a, b, sub := Mag(x % SIGN), Mag(y % SIGN), (x >= SIGN) != (y >= SIGN);
      var negative := (if sub && y % SIGN > x % SIGN then y else x) >= SIGN;
      Val(x) + Val(y) == Signed(negative, if !sub then a + b else if y % SIGN > x % SIGN then b - a else a - b)
      && (Val(x) + Val(y) == 0.0 <==> sub && x % SIGN == y % SIGN)
  {
    ZeroValue(x);
    ZeroValue(y);
    MagOrder(x % SIGN, y % SIGN);
    MagOrder(y % SIGN, x % SIGN);
  }

  lemma ZeroValue(x: nat)
    requires Finite(x)
    ensures Val(x) == 0.0 <==> x % SIGN == 0
    ensures x % SIGN > 0 ==> Mag(x % SIGN) > 0.0
  {
    ScaleZero(-24);
    MagOrder(0, x % SIGN);
  }
}

/** Fused multiply-add of halves, `fma`, `src/libspu/core/half.h`. */
module HalfFma {
  import opened Arith
  import opened HalfRounding
  import opened HalfConvert
  import opened HalfSqrt
  import opened HalfSum

  const TOP: nat := 0x800000

  /** A significand with 24 bits whose two last ones are 0. */
  predicate Full(m: nat) {
    TOP <= m < 2 * TOP && m % 4 == 0
  }

  lemma ShlFma()
    ensures Shl(1, 23) == TOP && Shl(2, 23) == 2 * TOP
  {
    ShlIs(1, 23);
    ShlIs(2, 23);
    Pow2Add(11, 12);
    assert Pow2(11) == 2048 && Pow2(12) == 4096;
  }

  // --------------------------------------------------------------- the product

  lemma ProductBounds(sx: nat, sy: nat)
    requires 1024 <= sx < 2048 && 1024 <= sy < 2048
    ensures 0x100000 <= sx * sy < 0x400000
  {
    MulLe(1024, sx, 1024);
    MulLe(1024, sy, sx);
    MulLe(sx, 2047, 2047);
    MulLe(sy, 2047, sx);
  }

  /** The product of two values is that of their significands. */
  lemma ProductValue(sx: nat, i: int, sy: nat, j: int, p: nat)
    requires p == sx * sy
    ensures Makes(Scale(sx as real, i), Scale(sy as real, j), Scale(p as real, i + j))
  {
    NatProduct(sx, sy);
    ScaleProduct(sx as real, i, sy as real, j, p as real);
  }

  lemma ShiftedValue(p: nat, n: nat, k: int)
    ensures Scale(Shl(p, n) as real, k - n) == Scale(p as real, k)
  {
    ScaleShl(p, n);
    ScaleScale(p as real, n, k - n);
  }

  // ------------------------------------------------------- sum of significands

  lemma DifferenceNear(mx: nat, my: nat, d: nat)
    requires Full(mx) && Full(my) && (d == 0 ==> my <= mx)
    ensures Aligned(my, d, 23) <= mx
    ensures var m, f := mx - Aligned(my, d, 23), mx as real - Scale(my as real, -(d as int));
      Near(m, f, TOP) && (m == 0 <==> f == 0.0) && f >= 0.0
  {
    var a, f := Aligned(my, d, 23), Scale(my as real, -(d as int));
    ShlFma();
    AlignedIsJam(my, d, 23);
    if d <= 2 {
      ExactShift(my, d);
      ShiftCut(my as real, my, false, d);
      CloseDifference(my, d);
    } else {
      ScaleGrows(my as real, -(d as int), -3);
      assert Scale(my as real, -3) == my as real / 8.0;
      FarDifference(mx, a, f);
    }
  }

  lemma ExactShift(v: nat, d: nat)
    requires v % 4 == 0 && d <= 2
    ensures Low(v, d) == 0
  {
    if d > 0 {
      assert Low(v, d) == v % 2 + 2 * Low(v / 2, d - 1);
      if d > 1 { assert Low(v / 2, 1) == v / 2 % 2 + 2 * Low(v / 2 / 2, 0); }
    }
  }

  lemma CloseDifference(my: nat, d: nat)
    requires 0 < my < 2 * TOP
    ensures Scale(my as real, -(d as int)) <= my as real && (d > 0 ==> Scale(my as real, -(d as int)) < TOP as real)
  {
    ScaleGrows(my as real, -(d as int), 0);
    if d > 0 { ScaleGrows(my as real, -(d as int), -1); }
  }

  lemma FarDifference(mx: nat, a: nat, f: real)
    requires Full(mx) && Jam(a, f) && f < 2097152.0
    ensures a <= mx && Near(mx - a, mx as real - f, TOP) && mx - a > 0 && mx as real - f > 0.0
  {
    JamBelow(a, f, 2097152);
    JamDifference(mx, a, f);
  }

  lemma JamBelow(a: nat, f: real, n: nat)
    requires Jam(a, f) && f < n as real
    ensures a <= n
  {
    assert a as real - 1.0 < n as real;
  }

  lemma JamDifference(mx: nat, a: nat, f: real)
    requires Jam(a, f) && a <= mx && mx % 2 == 0
    ensures Jam(mx - a, mx as real - f)
  {
    assert (mx - a) as real == mx as real - a as real;
  }

  // --------------------------------------------------------------- the rounding

  lemma CutBounds(m: nat, e: real)
    requires CutAt(e, m, false, 2) && TOP <= m < 2 * TOP
    ensures TOP as real <= e < 2.0 * TOP as real
  {
    assert Shr(m, 2) == Shr(m / 2, 1) == Shr(m / 2 / 2, 0);
    assert Scale(e, -2) == e / 2.0 / 2.0;
  }

  /** The range checks and the final rounding. */
  method Finish(style: Style, negative: bool, m: nat, exp: int, ghost e: real) returns (r: nat)
    requires TOP <= m < 2 * TOP && CutAt(e, m, false, 2)
    ensures IsRounded(style, Signed(negative, Scale(e, exp - 38)), r)
  {
    CutBounds(m, e);
    if exp > 30 {
      TooLarge(e, exp);
      OverflowIsCorrect(style, negative, Scale(e, exp - 38));
      return Overflow(style, SignBit(negative));
    }
    if exp < -10 {
      TooSmall(e, exp);
      UnderflowIsCorrect(style, negative, Scale(e, exp - 38));
      return Underflow(style, SignBit(negative));
    }
    ShlFma();
    r := Fixed2Half(style, 23, m, exp - 1, negative, false, e, 2);
  }

  lemma TooLarge(e: real, exp: int)
    requires e >= TOP as real && exp > 30
    ensures Scale(e, exp - 38) >= 65536.0
  {
    ScaleOrder(e, TOP as real, exp - 38);
    ScaleGrows(TOP as real, -7, exp - 38);
    ScaleNat(1, 23);
    Pow2Add(11, 12);
    assert Pow2(11) == 2048 && Pow2(12) == 4096;
    ScaleScale(1.0, 23, -7);
    ScaleNat(1, 16);
    Pow2Add(8, 8);
    assert Pow2(8) == 256;
  }

  lemma TooSmall(e: real, exp: int)
    requires 0.0 < e < 2.0 * TOP as real && exp < -10
    ensures 0.0 < Scale(e, exp - 38) < Scale(1.0, -25)
  {
    ScalePositive(e, exp - 38);
    ScaleGrows(e, exp - 38, -49);
    ScaleOrder(e, 16777216.0, -49);
    TwoTo24();
  }

  lemma TwoTo24()
    ensures Scale(16777216.0, -49) == Scale(1.0, -25)
  {
    TwoTo21();
    ScaleScale(16777216.0, -3, -46);
    assert Scale(16777216.0, -1) == 8388608.0 && Scale(16777216.0, -2) == 4194304.0;
    assert Scale(16777216.0, -3) == 2097152.0;
  }

  // --------------------------------------------------------- aligned sums

  /** Which of two aligned significands is the larger one. */
  predicate Larger(m: nat, exp: int, m': nat, exp': int) {
    exp > exp' || (exp == exp' && m >= m')
  }

  lemma AlignedValue(m: nat, exp: int, exp': int)
    requires exp' <= exp
    ensures Scale(m as real, exp' - 38) == Scale(Scale(m as real, -(exp - exp')), exp - 38)
  {
    ScaleScale(m as real, -(exp - exp'), exp - 38);
  }

  /** Sum or difference of a larger and a smaller significand, rounded. */
  method Combine(style: Style, negative: bool, sub: bool, m: nat, exp: int, mz: nat, expz: int) returns (r: nat)
    requires Full(m) && Full(mz) && Larger(m, exp, mz, expz)
    ensures var a, b := Scale(m as real, exp - 38), Scale(mz as real, expz - 38);
      if sub && a == b then r == SignBit(style == TowardNegInfinity)
      else IsRounded(style, Signed(negative, if sub then a - b else a + b), r)
  {
    AlignedValue(mz, exp, expz);
    if sub {
      r := Subtract(style, negative, m, exp, mz, exp - expz);
    } else {
      r := Sum(style, negative, m, exp, mz, exp - expz);
    }
  }

  method Subtract(style: Style, negative: bool, m: nat, exp: int, mz: nat, d: nat) returns (r: nat)
    requires Full(m) && Full(mz) && (d == 0 ==> m >= mz)
    ensures var a, b := Scale(m as real, exp - 38), Scale(Scale(mz as real, -(d as int)), exp - 38);
      if a == b then r == SignBit(style == TowardNegInfinity) else IsRounded(style, Signed(negative, a - b), r)
  {
    var mz' := Aligned(mz, d, 23);
    ghost var x, y := m as real, Scale(mz as real, -(d as int));
    DifferenceNear(m, mz, d);
    ScaleDifference(x, y, exp - 38);
    ScaleOrder(x, y, exp - 38);
    ScaleOrder(y, x, exp - 38);
    if m == mz' {
      return SignBit(style == TowardNegInfinity);
    }
    r := FinishDifference(style, negative, m - mz', exp, x - y);
  }

  method Sum(style: Style, negative: bool, m: nat, exp: int, mz: nat, d: nat) returns (r: nat)
    requires Full(m) && Full(mz)
    ensures var a, b := Scale(m as real, exp - 38), Scale(Scale(mz as real, -(d as int)), exp - 38);
      IsRounded(style, Signed(negative, a + b), r)
  {
    var mz' := Aligned(mz, d, 23);
    ShlFma();
    AlignedIsJam(mz, d, 23);
    ScaleSum(m as real, Scale(mz as real, -(d as int)), exp - 38);
    SumJam(m, mz, mz', d);
    r := FinishSum(style, negative, m + mz', exp, m as real + Scale(mz as real, -(d as int)));
  }

  lemma SumJam(m: nat, mz: nat, a: nat, d: nat)
    requires Full(m) && Full(mz) && Jam(a, Scale(mz as real, -(d as int)))
    ensures Jam(m + a, m as real + Scale(mz as real, -(d as int))) && TOP <= m + a < 4 * TOP
  {
    ShrunkAtMost(mz, d);
    JamSum(m, a, Scale(mz as real, -(d as int)), mz);
  }

  method FinishDifference(style: Style, negative: bool, m0: nat, exp0: int, ghost e0: real) returns (r: nat)
    requires 0 < m0 < 2 * TOP && Near(m0, e0, TOP)
    ensures IsRounded(style, Signed(negative, Scale(e0, exp0 - 38)), r)
  {
    var m: nat, exp := m0, exp0;
    ghost var e := e0;
    while m < TOP
      invariant 0 < m < 2 * TOP && Near(m, e, TOP) && Scale(e, exp - 38) == Scale(e0, exp0 - 38)
      decreases TOP - m
    {
      NearDouble(m, e, TOP);
      ScaleDouble(e, exp - 39);
      m, exp, e := 2 * m, exp - 1, 2.0 * e;
    }
    NearCut(m, e, TOP);
    r := Finish(style, negative, m, exp, e);
  }

  method FinishSum(style: Style, negative: bool, m0: nat, exp0: int, ghost e0: real) returns (r: nat)
    requires TOP <= m0 < 4 * TOP && Jam(m0, e0)
    ensures IsRounded(style, Signed(negative, Scale(e0, exp0 - 38)), r)
  {
    if m0 >= 2 * TOP {
      JamHalf(m0, e0);
      var m := if m0 % 2 == 1 && m0 / 2 % 2 == 0 then m0 / 2 + 1 else m0 / 2;
      JamCut(m, e0 / 2.0);
      ScaleScale(e0, -1, exp0 - 37);
      r := Finish(style, negative, m, exp0 + 1, e0 / 2.0);
    } else {
      JamCut(m0, e0);
      r := Finish(style, negative, m0, exp0, e0);
    }
  }

  // ----------------------------------------------------------------------- fma

  /** `m` and `exp` stand for the product of two magnitudes. */
  ghost predicate IsProduct(m: nat, exp: int, a: real, b: real) {
    Makes(a, b, Scale(m as real, exp - 38))
  }

  lemma ProductIs(a: real, b: real, sx: nat, ex: int, sy: nat, ey: int, i: nat, m: nat)
    requires a == Scale(sx as real, ex - 25) && b == Scale(sy as real, ey - 25) && i <= 1 && m == Shl(sx * sy, 3 - i)
    ensures IsProduct(m, -15 + ex + ey + i, a, b)
  {
    var p, k := sx * sy, ex + ey - 50;
    ProductValue(sx, ex - 25, sy, ey - 25, p);
    ShiftedValue(p, 3 - i, k);
    assert -15 + ex + ey + i - 38 == k - (3 - i);
  }

  /** The product of two non-zero finite magnitudes, exactly. */
  method Product(absx: nat, absy: nat) returns (m: nat, exp: int)
    requires 0 < absx < INFINITY && 0 < absy < INFINITY
    ensures Full(m) && IsProduct(m, exp, Mag(absx), Mag(absy))
  {
    var sx, ex := Normalize(absx);
    var sy, ey := Normalize(absy);
    var p := sx * sy;
    ProductBounds(sx, sy);
    var i: nat := if p >= 0x200000 then 1 else 0;
    ThreeOrTwo(p, i);
    m, exp := Shl(p, 3 - i), -15 + ex + ey + i;
    ProductIs(Mag(absx), Mag(absy), sx, ex, sy, ey, i, m);
  }

  lemma ThreeOrTwo(p: nat, i: nat)
    requires if i == 1 then 0x200000 <= p < 0x400000 else i == 0 && 0x100000 <= p < 0x200000
    ensures Full(Shl(p, 3 - i))
  {
    FourTimes(p);
    assert i == 0 ==> Shl(p, 3) == 2 * Shl(p, 2);
  }

  lemma FourTimes(p: nat)
    ensures Shl(p, 2) == 4 * p
  {
    assert Shl(p, 1) == 2 * Shl(p, 0);
  }

  /** `fma`. */
  method Fma(style: Style, x: nat, y: nat, z: nat) returns (r: nat)
    requires x < 0x10000 && y < 0x10000 && z < 0x10000
    ensures Finite(x) && Finite(y) && Finite(z) ==> var exact := Val(x) * Val(y) + Val(z);
      if exact == 0.0 then r == ZeroResult(style, SignBit((x >= SIGN) != (y >= SIGN)), z)
          else IsRounded(style, exact, r)
    ensures Finite(x) && Finite(y) && Finite(z) && Val(x) * Val(y) + Val(z) == 0.0 ==>
              ZeroSigned(style, (x >= SIGN) != (y >= SIGN), z >= SIGN, r)
    ensures IsNaN(x) ==> QuietNaN(x >= SIGN, x % 0x200, r)
    ensures !IsNaN(x) && IsNaN(y) ==> QuietNaN(y >= SIGN, y % 0x200, r)
    ensures !IsNaN(x) && !IsNaN(y) && IsNaN(z) ==> QuietNaN(z >= SIGN, z % 0x200, r)
    ensures Finite(x) && Finite(y) && z % SIGN == INFINITY ==> r == z
    ensures InfiniteProduct(x, y) && !IsNaN(z) ==>
      if x % SIGN == 0 || y % SIGN == 0
          || (z % SIGN == INFINITY && (z >= SIGN) == ((x >= SIGN) == (y >= SIGN))) then r == 0x7FFF
      else r == SignBit((x >= SIGN) != (y >= SIGN)) + INFINITY
  {
    var absx, absy, absz := x % SIGN, y % SIGN, z % SIGN;
    var negative := (x >= SIGN) != (y >= SIGN);
    var sub := negative != (z >= SIGN);
    if absx >= INFINITY || absy >= INFINITY || absz >= INFINITY {
      return if absx > INFINITY || absy > INFINITY || absz > INFINITY then
          Quiet(if absx > INFINITY then x else if absy > INFINITY then y else z)
        else if absx == INFINITY then
          (if absy == 0 || (sub && absz == INFINITY) then 0x7FFF else SignBit(negative) + 0x7C00)
        else if absy == INFINITY then
          (if absx == 0 || (sub && absz == INFINITY) then 0x7FFF else SignBit(negative) + 0x7C00)
        else z;
    }
    r := FmaFinite(style, x, y, z);
  }

  predicate InfiniteProduct(x: nat, y: nat) {
    !IsNaN(x) && !IsNaN(y) && (x % SIGN == INFINITY || y % SIGN == INFINITY)
  }

  method FmaFinite(style: Style, x: nat, y: nat, z: nat) returns (r: nat)
    requires Finite(x) && Finite(y) && Finite(z)
    ensures var exact := Val(x) * Val(y) + Val(z);
      if exact == 0.0 then r == ZeroResult(style, SignBit((x >= SIGN) != (y >= SIGN)), z)
          else IsRounded(style, exact, r)
  {
    var absx, absy, absz := x % SIGN, y % SIGN, z % SIGN;
    var negative := (x >= SIGN) != (y >= SIGN);
    if absx == 0 || absy == 0 {
      ZeroProduct(x, y);
      ZeroValue(z);
      if absz != 0 {
        ExactIsRounded(style, z);
        return z;
      }
      return if style == TowardNegInfinity then (if z == SIGN || negative then SIGN else 0)
          else if z == SIGN && negative then SIGN else 0;
    }
    var m, exp := Product(absx, absy);
    ProductSign(x, y, m, exp);
    r := AddToProduct(style, negative, m, exp, z);
  }

  lemma ZeroProduct(x: nat, y: nat)
    requires Finite(x) && Finite(y) && (x % SIGN == 0 || y % SIGN == 0)
    ensures Val(x) * Val(y) == 0.0
  {
    ZeroValue(x);
    ZeroValue(y);
    ZeroTimes(Val(x), Val(y));
  }

  lemma ZeroTimes(a: real, b: real)
    requires a == 0.0 || b == 0.0
    ensures a * b == 0.0
  {
  }

  lemma ProductSign(x: nat, y: nat, m: nat, exp: int)
    requires IsProduct(m, exp, Mag(x % SIGN), Mag(y % SIGN))
    ensures Makes(Val(x), Val(y), Signed((x >= SIGN) != (y >= SIGN), Scale(m as real, exp - 38)))
  {
    var a, b, p := Mag(x % SIGN), Mag(y % SIGN), Scale(m as real, exp - 38);
    var v, w := Val(x), Val(y);
    SignedProduct(x >= SIGN, y >= SIGN, a, b, v, w, p);
  }

  lemma SignedProduct(s: bool, t: bool, a: real, b: real, v: real, w: real, p: real)
    requires v == Signed(s, a) && w == Signed(t, b) && Makes(a, b, p)
    ensures Makes(v, w, Signed(s != t, p))
  {
    NegatedRight(a, b, p);
    NegatedLeft(a, w, Signed(t, p));
  }

  lemma NegatedLeft(a: real, b: real, p: real)
    requires Makes(a, b, p)
    ensures Makes(-a, b, -p)
  {
  }

  lemma NegatedRight(a: real, b: real, p: real)
    requires Makes(a, b, p)
    ensures Makes(a, -b, -p)
  {
  }

  lemma AddendValue(sz: nat, e: int)
    ensures Scale(sz as real, e - 25) == Scale((8192 * sz) as real, e - 38)
  {
    ShlIs(sz, 13);
    Pow2Add(6, 7);
    assert Pow2(6) == 64 && Pow2(7) == 128;
    ShiftedValue(sz, 13, e - 25);
  }

  /** The third operand, as a full significand. */
  method Addend(absz: nat) returns (mz: nat, expz: int)
    requires 0 < absz < INFINITY
    ensures Full(mz) && Mag(absz) == Scale(mz as real, expz - 38)
  {
    var sz, e := Normalize(absz);
    AddendValue(sz, e);
    mz, expz := 8192 * sz, e;
  }

  method AddToProduct(style: Style, negative: bool, m: nat, exp: int, z: nat) returns (r: nat)
    requires Full(m) && Finite(z)
    ensures var exact := Signed(negative, Scale(m as real, exp - 38)) + Val(z);
      if exact == 0.0 then r == ZeroResult(style, SignBit(negative), z) else IsRounded(style, exact, r)
  {
    ZeroValue(z);
    ScalePositive(m as real, exp - 38);
    if z % SIGN == 0 {
      NearCut(m, m as real, TOP);
      r := Finish(style, negative, m, exp, m as real);
      return;
    }
    var mz, expz := Addend(z % SIGN);
    r := AddInOrder(style, negative, m, exp, z >= SIGN, mz, expz);
  }

  /** The two significands in order of size; the larger one gives the sign. */
  /** `r` is the rounded sum of two signed magnitudes; an exact zero has the sign that the style gives it. */
  ghost predicate SumRounded(style: Style, s: bool, a: real, t: bool, b: real, r: nat) {
    var exact := Signed(s, a) + Signed(t, b);
    if exact == 0.0 then s != t && r == SignBit(style == TowardNegInfinity) else IsRounded(style, exact, r)
  }

  method AddInOrder(style: Style, negative: bool, m: nat, exp: int, zNegative: bool, mz: nat, expz: int)
    returns (r: nat)
    requires Full(m) && Full(mz)
    ensures SumRounded(style, negative, Scale(m as real, exp - 38), zNegative, Scale(mz as real, expz - 38), r)
  {
    ghost var a, b := Scale(m as real, exp - 38), Scale(mz as real, expz - 38);
    ScalePositive(m as real, exp - 38);
    ScalePositive(mz as real, expz - 38);
    SumBySign(negative, zNegative, a, b);
    var sub := negative != zNegative;
    if expz > exp || (expz == exp && mz > m) {
      r := Combine(style, zNegative, sub, mz, expz, m, exp);
    } else {
      r := Combine(style, negative, sub, m, exp, mz, expz);
    }
  }

  lemma SumBySign(s: bool, t: bool, a: real, b: real)
    requires a > 0.0 && b > 0.0
    ensures Signed(s, a) + Signed(t, b) == Signed(s, if s != t then a - b else a + b)
    ensures Signed(s, a) + Signed(t, b) == Signed(t, if s != t then b - a else b + a)
    ensures Signed(s, a) + Signed(t, b) == 0.0 <==> s != t && a == b
  {
  }
}

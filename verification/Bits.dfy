/** Bit interleaving networks: `src/libspu/core/bit_utils.h`, `src/libspu/core/bit_utils.cc`. A word is its bits, lowest
    first. */
module Bits {
  import opened Arith

  type Word = seq<bool>

  // ---------------------------------------------------------------- word operations

  function And(x: Word, y: Word): (r: Word)
    requires |x| == |y|
    ensures |r| == |x|
  {
    seq(|x|, i requires 0 <= i < |x| => x[i] && y[i])
  }

  function Xor(x: Word, y: Word): (r: Word)
    requires |x| == |y|
    ensures |r| == |x|
  {
    seq(|x|, i requires 0 <= i < |x| => x[i] != y[i])
  }

  function Shr(x: Word, n: nat): (r: Word)
    ensures |r| == |x|
  {
    seq(|x|, i requires 0 <= i < |x| => i + n < |x| && x[i + n])
  }

  function Shl(x: Word, n: nat): (r: Word)
    ensures |r| == |x|
  {
    seq(|x|, i requires 0 <= i < |x| => i >= n && x[i - n])
  }

  function Not(x: Word): (r: Word)
    ensures |r| == |x|
  {
    seq(|x|, i requires 0 <= i < |x| => !x[i])
  }

  /** Bits needed for `n`. */
  function BitWidth(n: nat): nat {
    if n == 0 then 0 else 1 + BitWidth(n / 2)
  }

  function Log2Ceil(n: nat): nat {
    if n <= 1 then 0 else BitWidth(n - 1)
  }

  lemma {:induction false} BitWidthBounds(n: nat, w: nat)
    ensures n < Pow2(w) ==> BitWidth(n) <= w
    ensures n < Pow2(BitWidth(n))
    ensures n > 0 ==> Pow2(BitWidth(n) - 1) <= n
    decreases n
  {
    if n > 0 { BitWidthBounds(n / 2, if w > 0 then w - 1 else 0); }
  }

  /** The least power of two that is not below `n`. */
  lemma Log2CeilIsLeast(n: nat, w: nat)
    ensures n <= Pow2(Log2Ceil(n)) && (n <= Pow2(w) ==> Log2Ceil(n) <= w)
  {
    if n > 1 { BitWidthBounds(n - 1, w); }
  }

  // -------------------------------------------------------------------- one level

  /** A position with its bits `level` and `level + 1` exchanged. */
  function Exchange(i: nat, level: nat): nat {
    if level == 0 then
      if i % 4 == 1 then i + 1 else if i % 4 == 2 then i - 1 else i
    else 2 * Exchange(i / 2, level - 1) + i % 2
  }

  /** Bits `level` and `level + 1` of the position are 1 and 0. */
  predicate LowOne(i: nat, level: nat) {
    if level == 0 then i % 4 == 1 else LowOne(i / 2, level - 1)
  }

  /** Bits `level` and `level + 1` of the position are equal. */
  predicate Equal(i: nat, level: nat) {
    if level == 0 then i % 4 == 0 || i % 4 == 3 else Equal(i / 2, level - 1)
  }

  /** The entries of the mask tables, for words of `n` bits. */
  function SwapMask(level: nat, n: nat): (m: Word)
    ensures |m| == n
  {
    seq(n, i requires 0 <= i < n => LowOne(i, level))
  }

  function KeepMask(level: nat, n: nat): (m: Word)
    ensures |m| == n
  {
    seq(n, i requires 0 <= i < n => Equal(i, level))
  }

  lemma HalfDifference(i: nat, p: nat)
    requires i / 2 >= p
    ensures i >= 2 * p && (i - 2 * p) / 2 == i / 2 - p && i == 2 * (i / 2) + i % 2
  {
  }

  lemma {:induction false} ExchangeKeeps(i: nat, level: nat)
    requires Equal(i, level)
    ensures Exchange(i, level) == i && !LowOne(i, level)
    decreases level
  {
    if level > 0 { ExchangeKeeps(i / 2, level - 1); }
  }

  lemma {:induction false} ExchangeUp(i: nat, level: nat)
    requires LowOne(i, level)
    ensures Exchange(i, level) == i + Pow2(level) && !Equal(i, level)
    ensures !LowOne(i + Pow2(level), level) && !Equal(i + Pow2(level), level)
    decreases level
  {
    if level > 0 {
      ExchangeUp(i / 2, level - 1);
      HalfDifference(i + Pow2(level), Pow2(level - 1));
    }
  }

  lemma {:induction false} ExchangeDown(i: nat, level: nat)
    requires !Equal(i, level) && !LowOne(i, level)
    ensures i >= Pow2(level) && LowOne(i - Pow2(level), level) && Exchange(i, level) == i - Pow2(level)
    decreases level
  {
    if level > 0 {
      ExchangeDown(i / 2, level - 1);
      HalfDifference(i, Pow2(level - 1));
    }
  }

  lemma {:induction false} ExchangeTwice(i: nat, level: nat)
    ensures Exchange(Exchange(i, level), level) == i
  {
    if level > 0 {
      ExchangeTwice(i / 2, level - 1);
      EvenParts(Exchange(i / 2, level - 1), i % 2);
    }
  }

  lemma EvenParts(a: nat, b: nat)
    requires b < 2
    ensures (2 * a + b) / 2 == a && (2 * a + b) % 2 == b
  {
  }

  lemma {:induction false} ExchangeInRange(i: nat, level: nat, w: nat)
    requires i < Pow2(w) && level + 2 <= w
    ensures Exchange(i, level) < Pow2(w)
    decreases level
  {
    if level == 0 {
      LowestInRange(i, Pow2(w - 2));
    } else {
      ExchangeInRange(i / 2, level - 1, w - 1);
      DoubleLess(Exchange(i / 2, level - 1), i, Pow2(w - 1));
    }
  }

  lemma LowestInRange(i: nat, p: nat)
    requires i < 4 * p
    ensures (if i % 4 == 1 then i + 1 else if i % 4 == 2 then i - 1 else i) < 4 * p
  {
  }

  lemma DoubleLess(e: nat, i: nat, p: nat)
    requires e < p
    ensures 2 * e + i % 2 < 2 * p
  {
  }

  predicate IsWord(x: Word, w: nat) {
    |x| == Pow2(w)
  }

  /** One level of the network, as the source writes it. */
  function Level(r: Word, level: nat): (r': Word)
    ensures |r'| == |r|
  {
    var k, m, s := KeepMask(level, |r|), SwapMask(level, |r|), Pow2(level);
    Xor(Xor(And(r, k), And(Shr(r, s), m)), Shl(And(r, m), s))
  }

  lemma LevelAt(r: Word, level: nat, i: nat)
    requires i < |r|
    ensures var s := Pow2(level);
      var kept := r[i] && Equal(i, level);
      var fromAbove := i + s < |r| && r[i + s] && LowOne(i, level);
      var fromBelow := i >= s && r[i - s] && LowOne(i - s, level);
      Level(r, level)[i] == ((kept != fromAbove) != fromBelow)
  {
  }

  /** A level moves every bit by exchanging two adjacent bits of its position. */
  lemma LevelExchanges(r: Word, level: nat, w: nat, i: nat)
    requires IsWord(r, w) && level + 2 <= w && i < |r|
    ensures Exchange(i, level) < |r| && Level(r, level)[i] == r[Exchange(i, level)]
  {
    ExchangeInRange(i, level, w);
    LevelAt(r, level, i);
    ExchangeClass(i, level);
  }

  /** Exactly one of the three parts of a level supplies the bit. */
  lemma ExchangeClass(i: nat, level: nat)
    ensures var s, e := Pow2(level), Exchange(i, level);
      var below := i >= s && LowOne(i - s, level);
      if Equal(i, level) then e == i && !LowOne(i, level) && !below
      else if LowOne(i, level) then e == i + s && !below
      else below && e == i - s
  {
    var s := Pow2(level);
    if i >= s && LowOne(i - s, level) { ExchangeUp(i - s, level); }
    if Equal(i, level) {
      ExchangeKeeps(i, level);
    } else if LowOne(i, level) {
      ExchangeUp(i, level);
    } else {
      ExchangeDown(i, level);
    }
  }

  // ------------------------------------------------------------------- whole network

  /** Where the bit at position `i` comes from after the levels `s` to `k - 1`, in this order. */
  function Chain(i: nat, s: nat, k: nat): nat
    decreases k - s
  {
    if s >= k then i else Exchange(Chain(i, s + 1, k), s)
  }

  /** The same for the opposite order. */
  function Back(i: nat, s: nat, k: nat): nat
    decreases k - s
  {
    if s >= k then i else Back(Exchange(i, s), s + 1, k)
  }

  lemma {:induction false} ChainSnoc(i: nat, s: nat, k: nat)
    requires s <= k
    ensures Chain(i, s, k + 1) == Chain(Exchange(i, k), s, k)
    decreases k - s
  {
    if s < k { ChainSnoc(i, s + 1, k); }
  }

  lemma {:induction false} ChainInRange(i: nat, s: nat, k: nat, w: nat)
    requires i < Pow2(w) && k + 1 <= w
    ensures Chain(i, s, k) < Pow2(w) && Back(i, s, k) < Pow2(w)
    decreases k - s
  {
    if s < k {
      ChainInRange(i, s + 1, k, w);
      ExchangeInRange(Chain(i, s + 1, k), s, w);
      ExchangeInRange(i, s, w);
      ChainInRange(Exchange(i, s), s + 1, k, w);
    }
  }

  lemma {:induction false} ChainBack(i: nat, s: nat, k: nat)
    ensures Back(Chain(i, s, k), s, k) == i && Chain(Back(i, s, k), s, k) == i
    decreases k - s
  {
    if s < k {
      ExchangeTwice(Chain(i, s + 1, k), s);
      ChainBack(i, s + 1, k);
      ChainBack(Exchange(i, s), s + 1, k);
      ExchangeTwice(i, s);
    }
  }

  ghost predicate Moved(r: Word, x: Word, s: nat, k: nat) {
    |r| == |x| && forall i :: 0 <= i < |r| ==> MovedAt(r, x, s, k, i)
  }

  ghost predicate MovedAt(r: Word, x: Word, s: nat, k: nat, i: nat) {
    i < |r| && Chain(i, s, k) < |x| && r[i] == x[Chain(i, s, k)]
  }

  ghost predicate MovedBack(r: Word, x: Word, s: nat, k: nat) {
    |r| == |x| && forall i :: 0 <= i < |r| ==> MovedBackAt(r, x, s, k, i)
  }

  ghost predicate MovedBackAt(r: Word, x: Word, s: nat, k: nat, i: nat) {
    i < |r| && Back(i, s, k) < |x| && r[i] == x[Back(i, s, k)]
  }

  /** One past the last level used for `nbits`. */
  function Top(nbits: nat): nat {
    if Log2Ceil(nbits) == 0 then 0 else Log2Ceil(nbits) - 1
  }

  lemma LevelMoves(r: Word, x: Word, s: nat, level: nat, w: nat)
    requires IsWord(r, w) && level + 2 <= w && s <= level && Moved(r, x, s, level)
    ensures Moved(Level(r, level), x, s, level + 1)
  {
    var next, k := Level(r, level), level + 1;
    forall i | 0 <= i < |r| ensures MovedAt(next, x, s, k, i) {
      LevelExchanges(r, level, w, i);
      ChainSnoc(i, s, level);
      assert MovedAt(r, x, s, level, Exchange(i, level));
    }
  }

  lemma LevelMovesBack(r: Word, x: Word, level: nat, k: nat, w: nat)
    requires IsWord(r, w) && level < k && k + 1 <= w && MovedBack(r, x, level + 1, k)
    ensures MovedBack(Level(r, level), x, level, k)
  {
    var next, s := Level(r, level), level + 1;
    forall i | 0 <= i < |r| ensures MovedBackAt(next, x, level, k, i) {
      LevelExchanges(r, level, w, i);
      assert MovedBackAt(r, x, s, k, Exchange(i, level));
    }
  }

  /** `BitIntl` undoes `BitDeintl`, and the other way round, for every stride and width. */
  lemma IntlDeintl(x: Word, y: Word, z: Word, s: nat, k: nat)
    ensures Moved(y, x, s, k) && MovedBack(z, y, s, k) ==> z == x
    ensures MovedBack(y, x, s, k) && Moved(z, y, s, k) ==> z == x
  {
    if Moved(y, x, s, k) && MovedBack(z, y, s, k) {
      forall i | 0 <= i < |x| ensures z[i] == x[i] {
        ChainBack(i, s, k);
        assert MovedBackAt(z, y, s, k, i) && MovedAt(y, x, s, k, Back(i, s, k));
      }
    }
    if MovedBack(y, x, s, k) && Moved(z, y, s, k) {
      forall i | 0 <= i < |x| ensures z[i] == x[i] {
        ChainBack(i, s, k);
        assert MovedAt(z, y, s, k, i) && MovedBackAt(y, x, s, k, Chain(i, s, k));
      }
    }
  }

  // --------------------------------------------------- the same by extract and deposit

  /** Bit `s` of a position. */
  predicate BitOf(i: nat, s: nat) {
    if s == 0 then i % 2 == 1 else BitOf(i / 2, s - 1)
  }

  /** The mask of the positions whose bit `s` is 0. */
  function StrideMask(s: nat, n: nat): (m: Word)
    ensures |m| == n
  {
    seq(n, i requires 0 <= i < n => !BitOf(i, s))
  }

  /** Set bits of a mask below position `p`. */
  function Rank(m: Word, p: nat): nat
    requires p <= |m|
  {
    if p == 0 then 0 else Rank(m, p - 1) + if m[p - 1] then 1 else 0
  }

  /** The bits of `x` selected by the mask. */
  function Selected(x: Word, m: Word): Word
    requires |x| == |m|
  {
    if x == [] then []
    else
      var last := |x| - 1;
      Selected(x[..last], m[..last]) + if m[last] then [x[last]] else []
  }

  function Zeros(n: nat): Word {
    seq(n, _ => false)
  }

  /** PEXT: the selected bits, moved to the low end. */
  function Pext(x: Word, m: Word): (r: Word)
    requires |x| == |m|
    ensures |r| == |x|
  {
    SelectedFits(x, m);
    Selected(x, m) + Zeros(|x| - |Selected(x, m)|)
  }

  lemma {:induction false} SelectedFits(x: Word, m: Word)
    requires |x| == |m|
    ensures |Selected(x, m)| <= |x|
  {
    if x != [] { SelectedFits(x[..|x| - 1], m[..|x| - 1]); }
  }

  /** PDEP: the low bits of `y` put at the places of the mask. */
  function Pdep(y: Word, m: Word): (r: Word)
    requires |y| == |m|
    ensures |r| == |y|
  {
    seq(|y|, p requires 0 <= p < |y| => m[p] && Rank(m, p) < |y| && y[Rank(m, p)])
  }

  /** `BitDeintlWithPdepext` for words of `2^w` bits. */
  function DeintlPext(x: Word, stride: nat, w: nat): (r: Word)
    requires IsWord(x, w) && w > 0
  {
    if stride >= w then x
    else
      var m := StrideMask(stride, |x|);
      Xor(Pext(x, m), Shl(Pext(x, Not(m)), Pow2(w - 1)))
  }

  /** `BitIntlWithPdepext` for words of `2^w` bits. */
  function IntlPdep(x: Word, stride: nat, w: nat): (r: Word)
    requires IsWord(x, w) && w > 0
  {
    if stride >= w then x
    else
      var m := StrideMask(stride, |x|);
      Xor(Pdep(x, m), Pdep(Shr(x, Pow2(w - 1)), Not(m)))
  }

  /** Positions below `p` whose bit `s` is `v`. */
  function Count(p: nat, s: nat, v: bool): nat {
    if p == 0 then 0 else Count(p - 1, s, v) + if BitOf(p - 1, s) == v then 1 else 0
  }

  lemma {:induction false} RankIsCount(s: nat, n: nat, p: nat)
    requires p <= n
    ensures Rank(StrideMask(s, n), p) == Count(p, s, false) && Rank(Not(StrideMask(s, n)), p) == Count(p, s, true)
  {
    if p > 0 { RankIsCount(s, n, p - 1); }
  }

  lemma {:induction false} CountHalves(a: nat, s: nat, v: bool)
    requires s > 0
    ensures Count(2 * a, s, v) == 2 * Count(a, s - 1, v)
    ensures Count(2 * a + 1, s, v) == 2 * Count(a, s - 1, v) + if BitOf(a, s - 1) == v then 1 else 0
    decreases a
  {
    if a > 0 {
      CountHalves(a - 1, s, v);
      assert BitOf(2 * a - 1, s) == BitOf(a - 1, s - 1);
      assert BitOf(2 * a - 2, s) == BitOf(a - 1, s - 1);
    }
    assert BitOf(2 * a, s) == BitOf(a, s - 1);
  }

  lemma {:induction false} CountLowest(a: nat, v: bool)
    ensures Count(2 * a, 0, v) == a && Count(2 * a + 1, 0, v) == a + if v then 0 else 1
  {
    if a > 0 { CountLowest(a - 1, v); }
  }

  /** Levels above 0 act on the half position. */
  lemma {:induction false} ChainHalf(i: nat, s: nat, k: nat)
    requires s > 0
    ensures Chain(i, s, k) == if k > 0 then 2 * Chain(i / 2, s - 1, k - 1) + i % 2 else i
    decreases k - s
  {
    if s < k { ChainHalf(i, s + 1, k); }
  }

  /** All levels: the top bit of the position becomes its lowest bit. */
  lemma {:induction false} ChainFromZero(i: nat, k: nat)
    requires i < Pow2(k + 1)
    ensures Chain(i, 0, k) == if i < Pow2(k) then 2 * i else 2 * (i - Pow2(k)) + 1
    decreases k
  {
    if k > 0 {
      ChainHalf(i, 1, k);
      ChainFromZero(i / 2, k - 1);
      var c := if i / 2 < Pow2(k - 1) then 2 * (i / 2) else 2 * (i / 2 - Pow2(k - 1)) + 1;
      LowestSwap(i, c, Pow2(k - 1));
    }
  }

  lemma LowestSwap(i: nat, c: nat, p: nat)
    requires c == if i / 2 < p then 2 * (i / 2) else 2 * (i / 2 - p) + 1
    ensures Exchange(2 * c + i % 2, 0) == if i < 2 * p then 2 * i else 2 * (i - 2 * p) + 1
  {
  }

  /** The position a bit comes from: its bit `s` tells the half, and its rank among such positions the place in it. */
  lemma {:induction false} Placed(i: nat, s: nat, w: nat)
    requires s < w && i < Pow2(w)
    ensures var p, half := Chain(i, s, w - 1), Pow2(w - 1);
      BitOf(p, s) == (i >= half) && Count(p, s, i >= half) == if i >= half then i - half else i
    decreases s
  {
    var half := Pow2(w - 1);
    if s == 0 {
      ChainFromZero(i, w - 1);
      PlacedLowest(i, half);
    } else {
      ChainHalf(i, s, w - 1);
      Placed(i / 2, s - 1, w - 1);
      PlacedStep(i, Chain(i / 2, s - 1, w - 2), s, Pow2(w - 2));
    }
  }

  lemma PlacedLowest(i: nat, half: nat)
    ensures var p := if i < half then 2 * i else 2 * (i - half) + 1;
      BitOf(p, 0) == (i >= half) && Count(p, 0, i >= half) == if i >= half then i - half else i
  {
    CountLowest(if i < half then i else i - half, i >= half);
  }

  lemma PlacedStep(i: nat, q: nat, s: nat, half: nat)
    requires s > 0 && BitOf(q, s - 1) == (i / 2 >= half)
    requires Count(q, s - 1, i / 2 >= half) == if i / 2 >= half then i / 2 - half else i / 2
    ensures var p := 2 * q + i % 2;
      BitOf(p, s) == (i >= 2 * half) && Count(p, s, i >= 2 * half) == if i >= 2 * half then i - 2 * half else i
  {
    CountHalves(q, s, i / 2 >= half);
    assert (2 * q + i % 2) / 2 == q;
    assert i / 2 >= half <==> i >= 2 * half;
  }

  lemma {:induction false} SelectedAt(x: Word, m: Word, p: nat)
    requires |x| == |m| && p < |x| && m[p]
    ensures |Selected(x, m)| == Rank(m, |m|)
    ensures Rank(m, p) < |Selected(x, m)| && Selected(x, m)[Rank(m, p)] == x[p]
    decreases |x|
  {
    var last := |x| - 1;
    SelectedLength(x, m);
    SelectedLength(x[..last], m[..last]);
    RankPrefix(m, last, last);
    RankPrefix(m, last, p);
    if p < last { SelectedAt(x[..last], m[..last], p); }
  }

  lemma {:induction false} SelectedLength(x: Word, m: Word)
    requires |x| == |m|
    ensures |Selected(x, m)| == Rank(m, |m|)
    decreases |x|
  {
    if x != [] {
      var last := |x| - 1;
      SelectedLength(x[..last], m[..last]);
      RankPrefix(m, last, last);
    }
  }

  lemma {:induction false} RankPrefix(m: Word, n: nat, p: nat)
    requires p <= n <= |m|
    ensures Rank(m[..n], p) == Rank(m, p)
  {
    if p > 0 { RankPrefix(m, n, p - 1); }
  }

  /** The value at a place of the interleaved word, and where it went. */
  lemma PextAt(x: Word, s: nat, w: nat, i: nat)
    requires IsWord(x, w) && s < w && i < |x|
    ensures Chain(i, s, w - 1) < |x| && DeintlPext(x, s, w)[i] == x[Chain(i, s, w - 1)]
  {
    var p, half, m := Chain(i, s, w - 1), Pow2(w - 1), StrideMask(s, |x|);
    ChainInRange(i, s, w - 1, w);
    Placed(i, s, w);
    RankIsCount(s, |x|, p);
    DeintlPextAt(x, s, w, i);
    if i < half {
      SelectedAt(x, m, p);
    } else {
      SelectedAt(x, Not(m), p);
    }
  }

  lemma DeintlPextAt(x: Word, s: nat, w: nat, i: nat)
    requires IsWord(x, w) && s < w && i < |x|
    ensures var half, a, b := Pow2(w - 1), Selected(x, StrideMask(s, |x|)), Selected(x, Not(StrideMask(s, |x|)));
      |a| == |b| == half && DeintlPext(x, s, w)[i] == if i < half then a[i] else b[i - half]
  {
    var m := StrideMask(s, |x|);
    RankIsCount(s, |x|, |x|);
    HalfTheMask(s, w);
    SelectedLength(x, m);
    SelectedLength(x, Not(m));
    ExtractBoth(x, m, Pow2(w - 1), i);
  }

  lemma ExtractBoth(x: Word, m: Word, h: nat, i: nat)
    requires |x| == |m| == 2 * h && i < |x| && |Selected(x, m)| == h == |Selected(x, Not(m))|
    ensures Xor(Pext(x, m), Shl(Pext(x, Not(m)), h))[i] ==
            if i < h then Selected(x, m)[i] else Selected(x, Not(m))[i - h]
  {
  }

  /** Half of the positions have bit `s` set. */
  lemma {:induction false} HalfTheMask(s: nat, w: nat)
    requires s < w
    ensures Count(Pow2(w), s, false) == Pow2(w - 1) == Count(Pow2(w), s, true)
    decreases w
  {
    if s == 0 {
      CountLowest(Pow2(w - 1), false);
      CountLowest(Pow2(w - 1), true);
    } else {
      HalfTheMask(s - 1, w - 1);
      CountHalves(Pow2(w - 1), s, false);
      CountHalves(Pow2(w - 1), s, true);
    }
  }

  /** De-interleaving by the network and by PEXT agree, for every stride. */
  lemma DeintlIsPext(x: Word, y: Word, s: nat, w: nat)
    requires IsWord(x, w) && w > 0 && Moved(y, x, s, w - 1)
    ensures y == DeintlPext(x, s, w)
  {
    var z := DeintlPext(x, s, w);
    forall i | 0 <= i < |x| ensures y[i] == z[i] {
      assert MovedAt(y, x, s, w - 1, i);
      if s < w { PextAt(x, s, w, i); }
    }
  }

  lemma PdepAt(x: Word, s: nat, w: nat, p: nat)
    requires IsWord(x, w) && s < w && p < |x|
    ensures Back(p, s, w - 1) < |x| && IntlPdep(x, s, w)[p] == x[Back(p, s, w - 1)]
  {
    var i := Back(p, s, w - 1);
    ChainBack(p, s, w - 1);
    ChainInRange(p, s, w - 1, w);
    Placed(i, s, w);
    IntlPdepAt(x, s, w, p);
  }

  lemma IntlPdepAt(x: Word, s: nat, w: nat, p: nat)
    requires IsWord(x, w) && s < w && p < |x|
    ensures var n, k, j := |x|, Count(p, s, false), Count(p, s, true) + Pow2(w - 1);
      IntlPdep(x, s, w)[p] == if BitOf(p, s) then j < n && x[j] else k < n && x[k]
  {
    RankIsCount(s, |x|, p);
    IntlPdepRank(x, StrideMask(s, |x|), s, w, p);
  }

  lemma IntlPdepRank(x: Word, m: Word, s: nat, w: nat, p: nat)
    requires IsWord(x, w) && s < w && p < |x| && m == StrideMask(s, |x|)
    ensures var n, k, j := |x|, Rank(m, p), Rank(Not(m), p) + Pow2(w - 1);
      IntlPdep(x, s, w)[p] == if BitOf(p, s) then j < n && x[j] else k < n && x[k]
  {
    DepositBoth(x, m, Pow2(w - 1), p);
    assert m[p] == !BitOf(p, s);
  }

  lemma DepositBoth(x: Word, m: Word, h: nat, p: nat)
    requires |x| == |m| && p < |x|
    ensures var k, j := Rank(m, p), Rank(Not(m), p) + h;
      Xor(Pdep(x, m), Pdep(Shr(x, h), Not(m)))[p] == if m[p] then k < |x| && x[k] else j < |x| && x[j]
  {
  }

  /** Interleaving by the network and by PDEP agree, for every stride. */
  lemma IntlIsPdep(x: Word, y: Word, s: nat, w: nat)
    requires IsWord(x, w) && w > 0 && MovedBack(y, x, s, w - 1)
    ensures y == IntlPdep(x, s, w)
  {
    var z := IntlPdep(x, s, w);
    forall i | 0 <= i < |x| ensures y[i] == z[i] {
      assert MovedBackAt(y, x, s, w - 1, i);
      if s < w { PdepAt(x, s, w, i); }
    }
  }

  // --------------------------------------------------------- fewer bits than the word

  /** Bits `b * 2^v` to `(b + 1) * 2^v - 1`. */
  function Block(x: Word, b: nat, v: nat): (r: Word)
    requires (b + 1) * Pow2(v) <= |x|
    ensures IsWord(r, v)
  {
    BlockEnds(b, Pow2(v));
    x[b * Pow2(v)..(b + 1) * Pow2(v)]
  }

  lemma BlockEnds(b: nat, p: nat)
    ensures 0 <= b * p && (b + 1) * p == b * p + p
  {
  }

  /** A level leaves the higher bits of a position alone. */
  lemma {:induction false} ExchangeHigh(h: nat, j: nat, level: nat, v: nat)
    requires level + 2 <= v
    ensures Exchange(h * Pow2(v) + j, level) == h * Pow2(v) + Exchange(j, level)
    decreases level
  {
    var a, b := h * Pow2(v - 2), h * Pow2(v - 1);
    ThriceDoubled(h, Pow2(v - 2));
    if level == 0 {
      LowestHigh(a, j);
    } else {
      ExchangeHigh(h, j / 2, level - 1, v - 1);
      StepHigh(b, j, level);
    }
  }

  lemma ThriceDoubled(h: nat, p: nat)
    ensures h * (2 * p) == 2 * (h * p) && h * (2 * (2 * p)) == 2 * (h * (2 * p)) == 4 * (h * p)
  {
  }

  lemma LowestHigh(a: nat, j: nat)
    ensures Exchange(4 * a + j, 0) == 4 * a + Exchange(j, 0)
  {
  }

  lemma StepHigh(b: nat, j: nat, level: nat)
    requires level > 0 && Exchange(b + j / 2, level - 1) == b + Exchange(j / 2, level - 1)
    ensures Exchange(2 * b + j, level) == 2 * b + Exchange(j, level)
  {
    assert (2 * b + j) / 2 == b + j / 2 && (2 * b + j) % 2 == j % 2;
  }

  lemma {:induction false} ChainHigh(h: nat, j: nat, s: nat, k: nat, v: nat)
    requires k + 1 <= v
    ensures Chain(h * Pow2(v) + j, s, k) == h * Pow2(v) + Chain(j, s, k)
    decreases k - s
  {
    if s < k {
      ChainHigh(h, j, s + 1, k, v);
      ExchangeHigh(h, Chain(j, s + 1, k), s, v);
    }
  }

  lemma {:induction false} BackHigh(h: nat, j: nat, s: nat, k: nat, v: nat)
    requires k + 1 <= v
    ensures Back(h * Pow2(v) + j, s, k) == h * Pow2(v) + Back(j, s, k)
    decreases k - s
  {
    if s < k {
      ExchangeHigh(h, j, s, v);
      BackHigh(h, Exchange(j, s), s + 1, k, v);
    }
  }

  /** The levels below `v - 1` act on every block of `2^v` bits by itself. */
  lemma BlockMoves(r: Word, x: Word, s: nat, k: nat, v: nat, b: nat)
    requires Moved(r, x, s, k) && k + 1 <= v && (b + 1) * Pow2(v) <= |x|
    ensures Moved(Block(r, b, v), Block(x, b, v), s, k)
  {
    BlockEnds(b, Pow2(v));
    var y, z, lo := Block(r, b, v), Block(x, b, v), b * Pow2(v);
    forall i | 0 <= i < |y| ensures MovedAt(y, z, s, k, i) {
      assert MovedAt(r, x, s, k, lo + i);
      ChainHigh(b, i, s, k, v);
      ChainInRange(i, s, k, v);
    }
  }

  lemma BlockMovesBack(r: Word, x: Word, s: nat, k: nat, v: nat, b: nat)
    requires MovedBack(r, x, s, k) && k + 1 <= v && (b + 1) * Pow2(v) <= |x|
    ensures MovedBack(Block(r, b, v), Block(x, b, v), s, k)
  {
    BlockEnds(b, Pow2(v));
    var y, z, lo := Block(r, b, v), Block(x, b, v), b * Pow2(v);
    forall i | 0 <= i < |y| ensures MovedBackAt(y, z, s, k, i) {
      assert MovedBackAt(r, x, s, k, lo + i);
      BackHigh(b, i, s, k, v);
      ChainInRange(i, s, k, v);
    }
  }

  /** Every block of `2^v` bits is de-interleaved by itself; blocks of one bit are unchanged. */
  ghost predicate BlocksDeintl(r: Word, x: Word, stride: nat, v: nat) {
    && |r| == |x| && (v == 0 ==> r == x)
    && forall b: nat :: v > 0 && (b + 1) * Pow2(v) <= |x| ==> Block(r, b, v) == DeintlPext(Block(x, b, v), stride, v)
  }

  /** Every block of `2^v` bits is interleaved by itself; blocks of one bit are unchanged. */
  ghost predicate BlocksIntl(r: Word, x: Word, stride: nat, v: nat) {
    && |r| == |x| && (v == 0 ==> r == x)
    && forall b: nat :: v > 0 && (b + 1) * Pow2(v) <= |x| ==> Block(r, b, v) == IntlPdep(Block(x, b, v), stride, v)
  }

  /** For any number of bits the blocks are the smallest that hold that many. */
  lemma DeintlInBlocks(r: Word, x: Word, stride: nat, nbits: nat)
    requires Moved(r, x, stride, Top(nbits))
    ensures BlocksDeintl(r, x, stride, Log2Ceil(nbits))
  {
    var v := Log2Ceil(nbits);
    if v == 0 {
      forall i | 0 <= i < |r| ensures r[i] == x[i] {
        assert MovedAt(r, x, stride, 0, i);
      }
      assert r == x;
    } else {
      forall b: nat | (b + 1) * Pow2(v) <= |x| ensures Block(r, b, v) == DeintlPext(Block(x, b, v), stride, v) {
        BlockMoves(r, x, stride, v - 1, v, b);
        DeintlIsPext(Block(x, b, v), Block(r, b, v), stride, v);
      }
    }
  }

  lemma IntlInBlocks(r: Word, x: Word, stride: nat, nbits: nat)
    requires MovedBack(r, x, stride, Top(nbits))
    ensures BlocksIntl(r, x, stride, Log2Ceil(nbits))
  {
    var v := Log2Ceil(nbits);
    if v == 0 {
      forall i | 0 <= i < |r| ensures r[i] == x[i] {
        assert MovedBackAt(r, x, stride, 0, i);
      }
      assert r == x;
    } else {
      forall b: nat | (b + 1) * Pow2(v) <= |x| ensures Block(r, b, v) == IntlPdep(Block(x, b, v), stride, v) {
        BlockMovesBack(r, x, stride, v - 1, v, b);
        IntlIsPdep(Block(x, b, v), Block(r, b, v), stride, v);
      }
    }
  }

  // -------------------------------------------------------------------- the networks

  /** For the full width the last level is the one below the highest position bit. */
  lemma TopIsFull(w: nat)
    requires w > 0
    ensures Top(Pow2(w)) == w - 1
  {
    Log2CeilIsLeast(Pow2(w), w);
    if Log2Ceil(Pow2(w)) < w { Pow2Monotone(Log2Ceil(Pow2(w)), w - 1); }
  }

  /** `BitDeintl`. */
  method BitDeintl(x: Word, stride: nat, nbits: nat, ghost w: nat) returns (r: Word)
    requires IsWord(x, w) && nbits <= |x|
    ensures |r| == |x| && Moved(r, x, stride, Top(nbits))
    ensures BlocksDeintl(r, x, stride, Log2Ceil(nbits))
    ensures nbits == |x| && w > 0 ==> r == DeintlPext(x, stride, w)
  {
    r := x;
    var level := stride;
    Log2CeilIsLeast(nbits, w);
    while level + 1 < Log2Ceil(nbits)
      invariant stride <= level && (level <= Top(nbits) || level == stride)
      invariant IsWord(r, w) && Moved(r, x, stride, level)
      decreases Log2Ceil(nbits) - level
    {
      ghost var was := r;
      r := Level(r, level);
      LevelMoves(was, x, stride, level, w);
      level := level + 1;
    }
    if level > Top(nbits) {
      forall i | 0 <= i < |r| ensures MovedAt(r, x, stride, Top(nbits), i) {
        assert MovedAt(r, x, stride, level, i);
      }
    }
    DeintlInBlocks(r, x, stride, nbits);
    if nbits == |x| && w > 0 {
      TopIsFull(w);
      DeintlIsPext(x, r, stride, w);
    }
  }

  /** `BitIntl`. */
  method BitIntl(x: Word, stride: nat, nbits: nat, ghost w: nat) returns (r: Word)
    requires IsWord(x, w) && nbits <= |x|
    ensures |r| == |x| && MovedBack(r, x, stride, Top(nbits))
    ensures BlocksIntl(r, x, stride, Log2Ceil(nbits))
    ensures nbits == |x| && w > 0 ==> r == IntlPdep(x, stride, w)
  {
    r := x;
    var level := Log2Ceil(nbits) - 2;
    ghost var top := Top(nbits);
    Log2CeilIsLeast(nbits, w);
    while level >= stride
      invariant IsWord(r, w) && level + 1 <= top
      invariant if level + 1 >= stride then MovedBack(r, x, level + 1, top) else r == x && stride >= top
      decreases level
    {
      ghost var was := r;
      r := Level(r, level);
      LevelMovesBack(was, x, level, top, w);
      level := level - 1;
    }
    IntlInBlocks(r, x, stride, nbits);
    if nbits == |x| && w > 0 {
      TopIsFull(w);
      IntlIsPdep(x, r, stride, w);
    }
  }

  /** Interleaving undoes de-interleaving, for every stride and every number of bits taken part. */
  method IntlAfterDeintl(x: Word, stride: nat, nbits: nat, ghost w: nat) returns (z: Word)
    requires IsWord(x, w) && nbits <= |x|
    ensures z == x
  {
    var y := BitDeintl(x, stride, nbits, w);
    z := BitIntl(y, stride, nbits, w);
    IntlDeintl(x, y, z, stride, Top(nbits));
  }

  /** And the other way round. */
  method DeintlAfterIntl(x: Word, stride: nat, nbits: nat, ghost w: nat) returns (z: Word)
    requires IsWord(x, w) && nbits <= |x|
    ensures z == x
  {
    var y := BitIntl(x, stride, nbits, w);
    z := BitDeintl(y, stride, nbits, w);
    IntlDeintl(x, y, z, stride, Top(nbits));
  }

  // --------------------------------------------------------------------- the tables

  /** A word as a number. */
  function Number(x: Word): nat {
    if x == [] then 0 else (if x[0] then 1 else 0) + 2 * Number(x[1..])
  }

  /** Words of one length are told apart by their numbers. */
  lemma {:induction false} NumberInjective(x: Word, y: Word)
    requires |x| == |y| && Number(x) == Number(y)
    ensures x == y
  {
    if x != [] {
      NumberInjective(x[1..], y[1..]);
      assert x == [x[0]] + x[1..] && y == [y[0]] + y[1..];
    }
  }

  function Shifted(v: nat, n: nat): nat {
    if n == 0 then v else 2 * Shifted(v, n - 1)
  }

  lemma {:induction false} ShiftedIs(v: nat, n: nat)
    ensures Shifted(v, n) == v * Pow2(n)
  {
    if n > 0 {
      ShiftedIs(v, n - 1);
      assert v * Pow2(n) == 2 * (v * Pow2(n - 1));
    }
  }

  lemma {:induction false} NumberAppend(x: Word, y: Word)
    ensures Number(x + y) == Number(x) + Shifted(Number(y), |x|)
  {
    if x == [] {
      assert x + y == y;
    } else {
      assert (x + y)[1..] == x[1..] + y;
      NumberAppend(x[1..], y);
    }
  }

  function Run(b: bool, n: nat): (r: Word)
    ensures |r| == n && forall i :: 0 <= i < n ==> r[i] == b
  {
    seq(n, _ => b)
  }

  lemma {:induction false} NumberRun(b: bool, n: nat)
    ensures Number(Run(b, n)) == if b then Pow2(n) - 1 else 0
  {
    if n > 0 {
      assert Run(b, n)[1..] == Run(b, n - 1);
      NumberRun(b, n - 1);
    }
  }

  /** Masks repeat after every `2^k` positions from `4 * 2^level` on. */
  lemma {:induction false} MaskRepeats(i: nat, level: nat, k: nat)
    requires k >= level + 2
    ensures LowOne(i + Pow2(k), level) == LowOne(i, level) && Equal(i + Pow2(k), level) == Equal(i, level)
    decreases level
  {
    if level == 0 {
      assert Pow2(k) == 2 * Pow2(k - 1) && Pow2(k - 1) == 2 * Pow2(k - 2);
      FourTimes(i, Pow2(k - 2));
    } else {
      MaskRepeats(i / 2, level - 1, k - 1);
      HalfSum(i, Pow2(k - 1));
    }
  }

  lemma FourTimes(i: nat, p: nat)
    ensures (i + 4 * p) % 4 == i % 4
  {
  }

  lemma HalfSum(i: nat, p: nat)
    ensures (i + 2 * p) / 2 == i / 2 + p
  {
  }

  lemma MaskDoubles(level: nat, k: nat)
    requires k >= level + 2
    ensures SwapMask(level, Pow2(k + 1)) == SwapMask(level, Pow2(k)) + SwapMask(level, Pow2(k))
    ensures KeepMask(level, Pow2(k + 1)) == KeepMask(level, Pow2(k)) + KeepMask(level, Pow2(k))
  {
    var n := Pow2(k);
    forall i | 0 <= i < n ensures LowOne(i + n, level) == LowOne(i, level) && Equal(i + n, level) == Equal(i, level) {
      MaskRepeats(i, level, k);
    }
  }

  /** Which quarter of its block a position is in. */
  lemma {:induction false} MaskQuarters(i: nat, level: nat)
    requires i < 4 * Pow2(level)
    ensures LowOne(i, level) <==> Pow2(level) <= i < 2 * Pow2(level)
    ensures Equal(i, level) <==> i < Pow2(level) || 3 * Pow2(level) <= i
    decreases level
  {
    if level > 0 { MaskQuarters(i / 2, level - 1); }
  }

  /** The first block of the masks. */
  lemma MaskBlock(level: nat)
    ensures var s := Pow2(level);
      SwapMask(level, Pow2(level + 2)) == Run(false, s) + (Run(true, s) + Run(false, 2 * s))
      && KeepMask(level, Pow2(level + 2)) == Run(true, s) + (Run(false, 2 * s) + Run(true, s))
  {
    var s, n := Pow2(level), Pow2(level + 2);
    assert n == 2 * Pow2(level + 1) == 4 * s;
    forall i | 0 <= i < n ensures (LowOne(i, level) <==> s <= i < 2 * s) && (Equal(i, level) <==> i < s || 3 * s <= i) {
      MaskQuarters(i, level);
    }
  }

  /** The numbers of the masks of `2^k` bits. */
  function SwapNumber(level: nat, k: nat): nat {
    if k <= level + 2 then Shifted(Pow2(Pow2(level)) - 1, Pow2(level))
    else SwapNumber(level, k - 1) + Shifted(SwapNumber(level, k - 1), Pow2(k - 1))
  }

  function KeepNumber(level: nat, k: nat): nat {
    if k <= level + 2 then Pow2(Pow2(level)) - 1 + Shifted(Pow2(Pow2(level)) - 1, 3 * Pow2(level))
    else KeepNumber(level, k - 1) + Shifted(KeepNumber(level, k - 1), Pow2(k - 1))
  }

  lemma {:induction false} MaskNumbers(level: nat, k: nat)
    requires k >= level + 2
    ensures Number(SwapMask(level, Pow2(k))) == SwapNumber(level, k)
    ensures Number(KeepMask(level, Pow2(k))) == KeepNumber(level, k)
  {
    if k == level + 2 {
      BlockNumbers(level);
    } else {
      MaskDoubles(level, k - 1);
      MaskNumbers(level, k - 1);
      NumberAppend(SwapMask(level, Pow2(k - 1)), SwapMask(level, Pow2(k - 1)));
      NumberAppend(KeepMask(level, Pow2(k - 1)), KeepMask(level, Pow2(k - 1)));
    }
  }

  lemma BlockNumbers(level: nat)
    ensures Number(SwapMask(level, Pow2(level + 2))) == Shifted(Pow2(Pow2(level)) - 1, Pow2(level))
    ensures Number(KeepMask(level, Pow2(level + 2))) ==
            Pow2(Pow2(level)) - 1 + Shifted(Pow2(Pow2(level)) - 1, 3 * Pow2(level))
  {
    var s := Pow2(level);
    MaskBlock(level);
    NumberAppend(Run(false, s), Run(true, s) + Run(false, 2 * s));
    NumberAppend(Run(true, s), Run(false, 2 * s));
    NumberAppend(Run(true, s), Run(false, 2 * s) + Run(true, s));
    NumberAppend(Run(false, 2 * s), Run(true, s));
    NumberRun(false, s);
    NumberRun(true, s);
    NumberRun(false, 2 * s);
    ShiftedZero(s);
    ShiftedTwice(Pow2(s) - 1, 2 * s, s);
  }

  lemma {:induction false} ShiftedZero(n: nat)
    ensures Shifted(0, n) == 0
  {
    if n > 0 { ShiftedZero(n - 1); }
  }

  lemma {:induction false} ShiftedTwice(v: nat, m: nat, n: nat)
    ensures Shifted(Shifted(v, m), n) == Shifted(v, m + n)
  {
    if n > 0 { ShiftedTwice(v, m, n - 1); }
  }

  /** `2^(2^j)`. */
  function Tower(j: nat): nat
    requires j < 7
  {
    if j == 0 then 0x2 else if j == 1 then 0x4 else if j == 2 then 0x10 else if j == 3 then 0x100
    else if j == 4 then 0x10000 else if j == 5 then 0x1_0000_0000 else 0x1_0000_0000_0000_0000
  }

  lemma {:induction false} TowerIs(j: nat)
    requires j < 7
    ensures Pow2(Pow2(j)) == Tower(j)
  {
    if j > 0 {
      TowerIs(j - 1);
      TowerSquare(j);
      Pow2Add(Pow2(j - 1), Pow2(j - 1));
    }
  }

  lemma TowerSquare(j: nat)
    requires 0 < j < 7
    ensures Tower(j) == Tower(j - 1) * Tower(j - 1)
  {
  }

  function SwapTable(level: nat): nat
    requires level < 6
  {
    if level == 0 then 0x22222222222222222222222222222222 else if level == 1 then 0x0C0C0C0C0C0C0C0C0C0C0C0C0C0C0C0C
    else if level == 2 then 0x00F000F000F000F000F000F000F000F0
    else if level == 3 then 0x0000FF000000FF000000FF000000FF00
    else if level == 4 then 0x00000000FFFF000000000000FFFF0000 else 0x0000000000000000FFFFFFFF00000000
  }

  function KeepTable(level: nat): nat
    requires level < 6
  {
    if level == 0 then 0x99999999999999999999999999999999 else if level == 1 then 0xC3C3C3C3C3C3C3C3C3C3C3C3C3C3C3C3
    else if level == 2 then 0xF00FF00FF00FF00FF00FF00FF00FF00F
    else if level == 3 then 0xFF0000FFFF0000FFFF0000FFFF0000FF
    else if level == 4 then 0xFFFF00000000FFFFFFFF00000000FFFF else 0xFFFFFFFF0000000000000000FFFFFFFF
  }

  lemma Doubled(level: nat, k: nat, swap: nat, keep: nat)
    requires level + 2 < k <= 7 && SwapNumber(level, k - 1) == swap && KeepNumber(level, k - 1) == keep
    ensures SwapNumber(level, k) == swap + swap * Tower(k - 1) && KeepNumber(level, k) == keep + keep * Tower(k - 1)
  {
    ShiftedIs(swap, Pow2(k - 1));
    ShiftedIs(keep, Pow2(k - 1));
    TowerIs(k - 1);
  }

  lemma Blocks(level: nat, p: nat)
    requires level < 7 && p == Tower(level)
    ensures SwapNumber(level, level + 2) == (p - 1) * p
    ensures KeepNumber(level, level + 2) == p - 1 + (p - 1) * (p * (p * p))
  {
    var s := Pow2(level);
    TowerIs(level);
    ShiftedIs(p - 1, s);
    ShiftedIs(p - 1, 3 * s);
    Pow2Add(s, s);
    Pow2Add(s, 2 * s);
    assert Pow2(3 * s) == p * (p * p) && Pow2(s) == p;
  }

  lemma Table0()
    ensures SwapNumber(0, 7) == SwapTable(0) && KeepNumber(0, 7) == KeepTable(0)
  {
    Blocks(0, 2);
    Doubled(0, 3, 0x2, 0x9);
    Doubled(0, 4, 0x22, 0x99);
    Doubled(0, 5, 0x2222, 0x9999);
    Doubled(0, 6, 0x22222222, 0x99999999);
    Doubled(0, 7, 0x2222222222222222, 0x9999999999999999);
  }

  lemma Table1()
    ensures SwapNumber(1, 7) == SwapTable(1) && KeepNumber(1, 7) == KeepTable(1)
  {
    Blocks(1, 4);
    Doubled(1, 4, 0xc, 0xc3);
    Doubled(1, 5, 0xc0c, 0xc3c3);
    Doubled(1, 6, 0xc0c0c0c, 0xc3c3c3c3);
    Doubled(1, 7, 0xc0c0c0c0c0c0c0c, 0xc3c3c3c3c3c3c3c3);
  }

  lemma Table2()
    ensures SwapNumber(2, 7) == SwapTable(2) && KeepNumber(2, 7) == KeepTable(2)
  {
    Blocks(2, 0x10);
    Doubled(2, 5, 0xf0, 0xf00f);
    Doubled(2, 6, 0xf000f0, 0xf00ff00f);
    Doubled(2, 7, 0xf000f000f000f0, 0xf00ff00ff00ff00f);
  }

  lemma Table3()
    ensures SwapNumber(3, 7) == SwapTable(3) && KeepNumber(3, 7) == KeepTable(3)
  {
    Blocks(3, 0x100);
    Doubled(3, 6, 0xff00, 0xff0000ff);
    Doubled(3, 7, 0xff000000ff00, 0xff0000ffff0000ff);
  }

  lemma Table4()
    ensures SwapNumber(4, 7) == SwapTable(4) && KeepNumber(4, 7) == KeepTable(4)
  {
    Blocks(4, 0x10000);
    Doubled(4, 7, 0xffff0000, 0xffff00000000ffff);
  }

  lemma Table5()
    ensures SwapNumber(5, 7) == SwapTable(5) && KeepNumber(5, 7) == KeepTable(5)
  {
    Blocks(5, 0x100000000);
  }

  /** The six entries of each table are the 128-bit masks of the six levels. */
  lemma TablesAreMasks(level: nat)
    requires level < 6
    ensures Number(SwapMask(level, 128)) == SwapTable(level) && Number(KeepMask(level, 128)) == KeepTable(level)
  {
    MaskNumbers(level, 7);
    OneHundredTwentyEight();
    TableNumbers(level);
  }

  /** The six masks of the extract and deposit forms. */
  function StrideTable(s: nat): nat
    requires s < 6
  {
    if s == 0 then 0x5555555555555555 else if s == 1 then 0x3333333333333333
    else if s == 2 then 0x0F0F0F0F0F0F0F0F else if s == 3 then 0x00FF00FF00FF00FF
    else if s == 4 then 0x0000FFFF0000FFFF else 0x00000000FFFFFFFF
  }

  lemma {:induction false} BitRepeats(i: nat, s: nat, k: nat)
    requires k >= s + 1
    ensures BitOf(i + Pow2(k), s) == BitOf(i, s)
    decreases s
  {
    HalfSum(i, Pow2(k - 1));
    if s > 0 { BitRepeats(i / 2, s - 1, k - 1); }
  }

  lemma {:induction false} BitBlock(i: nat, s: nat)
    requires i < 2 * Pow2(s)
    ensures BitOf(i, s) == (i >= Pow2(s))
    decreases s
  {
    if s > 0 { BitBlock(i / 2, s - 1); }
  }

  /** The number of the stride mask for words of `2^k` bits: its first block, repeated. */
  function StrideNumber(s: nat, k: nat): nat {
    if k <= s + 1 then Pow2(Pow2(s)) - 1 else StrideNumber(s, k - 1) + Shifted(StrideNumber(s, k - 1), Pow2(k - 1))
  }

  lemma {:induction false} StrideMaskNumber(s: nat, k: nat)
    requires k >= s + 1
    ensures Number(StrideMask(s, Pow2(k))) == StrideNumber(s, k)
    decreases k
  {
    if k == s + 1 {
      var n := Pow2(s);
      forall i | 0 <= i < 2 * n ensures BitOf(i, s) == (i >= n) { BitBlock(i, s); }
      assert StrideMask(s, 2 * n) == Run(true, n) + Run(false, n);
      NumberAppend(Run(true, n), Run(false, n));
      NumberRun(true, n);
      NumberRun(false, n);
      ShiftedZero(n);
    } else {
      var n := Pow2(k - 1);
      forall i | 0 <= i < n ensures BitOf(i + n, s) == BitOf(i, s) { BitRepeats(i, s, k - 1); }
      assert StrideMask(s, 2 * n) == StrideMask(s, n) + StrideMask(s, n);
      StrideMaskNumber(s, k - 1);
      NumberAppend(StrideMask(s, n), StrideMask(s, n));
    }
  }

  lemma StrideDoubled(s: nat, k: nat, v: nat)
    requires s + 1 < k <= 7 && StrideNumber(s, k - 1) == v
    ensures StrideNumber(s, k) == v + v * Tower(k - 1)
  {
    ShiftedIs(v, Pow2(k - 1));
    TowerIs(k - 1);
  }

  lemma Stride0()
    ensures StrideNumber(0, 6) == StrideTable(0)
  {
    TowerIs(0);
    StrideDoubled(0, 2, 0x1);
    StrideDoubled(0, 3, 0x5);
    StrideDoubled(0, 4, 0x55);
    StrideDoubled(0, 5, 0x5555);
    StrideDoubled(0, 6, 0x55555555);
  }

  lemma Stride1()
    ensures StrideNumber(1, 6) == StrideTable(1)
  {
    TowerIs(1);
    StrideDoubled(1, 3, 0x3);
    StrideDoubled(1, 4, 0x33);
    StrideDoubled(1, 5, 0x3333);
    StrideDoubled(1, 6, 0x33333333);
  }

  lemma Stride2()
    ensures StrideNumber(2, 6) == StrideTable(2)
  {
    TowerIs(2);
    StrideDoubled(2, 4, 0xF);
    StrideDoubled(2, 5, 0xF0F);
    StrideDoubled(2, 6, 0xF0F0F0F);
  }

  lemma Stride3()
    ensures StrideNumber(3, 6) == StrideTable(3)
  {
    TowerIs(3);
    StrideDoubled(3, 5, 0xFF);
    StrideDoubled(3, 6, 0xFF00FF);
  }

  lemma Stride4()
    ensures StrideNumber(4, 6) == StrideTable(4)
  {
    TowerIs(4);
    StrideDoubled(4, 6, 0xFFFF);
  }

  lemma Stride5()
    ensures StrideNumber(5, 6) == StrideTable(5)
  {
    TowerIs(5);
  }

  /** The masks of the extract and deposit forms are the 64-bit stride masks. */
  lemma StrideTableIsMask(s: nat)
    requires s < 6
    ensures Number(StrideMask(s, 64)) == StrideTable(s)
  {
    StrideMaskNumber(s, 6);
    OneHundredTwentyEight();
    StrideNumbers(s);
  }

  lemma StrideNumbers(s: nat)
    requires s < 6
    ensures StrideNumber(s, 6) == StrideTable(s)
  {
    if s == 0 { Stride0(); }
    else if s == 1 { Stride1(); }
    else if s == 2 { Stride2(); }
    else if s == 3 { Stride3(); }
    else if s == 4 { Stride4(); }
    else { Stride5(); }
  }

  lemma OneHundredTwentyEight()
    ensures Pow2(7) == 128
  {
    assert Pow2(7) == 2 * Pow2(6) && Pow2(6) == 2 * Pow2(5) && Pow2(5) == 2 * Pow2(4);
  }

  lemma TableNumbers(level: nat)
    requires level < 6
    ensures SwapNumber(level, 7) == SwapTable(level) && KeepNumber(level, 7) == KeepTable(level)
  {
    if level == 0 { Table0(); }
    else if level == 1 { Table1(); }
    else if level == 2 { Table2(); }
    else if level == 3 { Table3(); }
    else if level == 4 { Table4(); }
    else { Table5(); }
  }
}

/** The no-copy reshape and the linear-index test: `src/libspu/core/ndarray_ref.cc`. */
module Reshape {
  import opened Arith
  import opened Shape

  /** Address, relative to the offset, of the element at row-major position `p`. */
  function FlatDot(p: nat, shape: seq<nat>, strides: seq<int>): int
    requires |strides| == |shape| && p < Numel(shape)
  {
    Dot(Unflatten(p, shape), strides)
  }

  /** What each axis contributes to the address of position `p`. */
  function Terms(p: nat, shape: seq<nat>, strides: seq<int>): (t: seq<int>)
    requires |strides| == |shape| && p < Numel(shape)
    ensures |t| == |shape|
  {
    TermsOf(Unflatten(p, shape), strides)
  }

  function TermsOf(idx: seq<int>, strides: seq<int>): (t: seq<int>)
    requires |idx| == |strides|
    ensures |t| == |idx|
  {
    if idx == [] then [] else [idx[0] * strides[0]] + TermsOf(idx[1..], strides[1..])
  }

  function Sum(t: seq<int>): int {
    if t == [] then 0 else t[0] + Sum(t[1..])
  }

  lemma {:induction false} DotIsSum(idx: seq<int>, strides: seq<int>)
    requires |idx| == |strides|
    ensures Dot(idx, strides) == Sum(TermsOf(idx, strides))
  {
    if idx != [] {
      DotIsSum(idx[1..], strides[1..]);
      assert TermsOf(idx, strides)[1..] == TermsOf(idx[1..], strides[1..]);
    }
  }

  lemma {:induction false} TermsAt(idx: seq<int>, strides: seq<int>, k: nat)
    requires |idx| == |strides| && k < |idx|
    ensures TermsOf(idx, strides)[k] == idx[k] * strides[k]
  {
    if k > 0 {
      TermsAt(idx[1..], strides[1..], k - 1);
    }
  }

  // ---------------------------------------------------- groups of axes

  /** A position in `a + b` is a position in `a` and one in `b`. */
  lemma {:induction false} UnflattenAppend(p: nat, a: seq<nat>, b: seq<nat>)
    requires p < Numel(a + b)
    ensures Numel(b) > 0 && p / Numel(b) < Numel(a) && p % Numel(b) < Numel(b)
    ensures Unflatten(p, a + b) == Unflatten(p / Numel(b), a) + Unflatten(p % Numel(b), b)
    decreases |a|
  {
    NumelAppend(a, b);
    FactorsPositive(Numel(a), Numel(b), p);
    var n := Numel(b);
    DivLt(p, Numel(a), n);
    if a == [] {
      assert a + b == b;
      DivModUnique(p, n, 0, p);
    } else {
      assert (a + b)[1..] == a[1..] + b;
      NumelAppend(a[1..], b);
      var n1 := Numel(a[1..]);
      TailPositive(a, p / n);
      TailPositive(a + b, p);
      DivDiv(p, n1, n);
      DivBounds(p, n1 * n);
      UnflattenAppend(p % (n1 * n), a[1..], b);
    }
  }

  lemma {:induction false} TermsAppend(i: seq<int>, j: seq<int>, s: seq<int>, t: seq<int>)
    requires |i| == |s| && |j| == |t|
    ensures TermsOf(i + j, s + t) == TermsOf(i, s) + TermsOf(j, t)
  {
    if i == [] {
      assert i + j == j && s + t == t;
    } else {
      assert (i + j)[1..] == i[1..] + j && (s + t)[1..] == s[1..] + t;
      TermsAppend(i[1..], j, s[1..], t);
    }
  }

  lemma {:induction false} SumAppend(a: seq<int>, b: seq<int>)
    ensures Sum(a + b) == Sum(a) + Sum(b)
  {
    if a == [] {
      assert a + b == b;
    } else {
      assert (a + b)[1..] == a[1..] + b;
      SumAppend(a[1..], b);
    }
  }

  /** The positions in two groups of axes that make up position `p`. */
  lemma SplitPosition(p: nat, a: seq<nat>, b: seq<nat>) returns (hi: nat, lo: nat)
    requires p < Numel(a + b)
    ensures hi < Numel(a) && lo < Numel(b) && p == hi * Numel(b) + lo
  {
    UnflattenAppend(p, a, b);
    DivBounds(p, Numel(b));
    hi, lo := p / Numel(b), p % Numel(b);
  }

  /** Terms and addresses of two groups of axes side by side. */
  lemma GroupsSideBySide(p: nat, hi: nat, lo: nat, a: seq<nat>, s: seq<int>, b: seq<nat>, t: seq<int>)
    requires |s| == |a| && |t| == |b| && p < Numel(a + b)
    requires hi < Numel(a) && lo < Numel(b) && p == hi * Numel(b) + lo
    ensures Terms(p, a + b, s + t) == Terms(hi, a, s) + Terms(lo, b, t)
    ensures FlatDot(p, a + b, s + t) == FlatDot(hi, a, s) + FlatDot(lo, b, t)
  {
    DivModUnique(p, Numel(b), hi, lo);
    UnflattenAppend(p, a, b);
    TermsOfGroups(Unflatten(hi, a), s, Unflatten(lo, b), t);
  }

  lemma TermsOfGroups(i: seq<int>, s: seq<int>, j: seq<int>, t: seq<int>)
    requires |i| == |s| && |j| == |t|
    ensures TermsOf(i + j, s + t) == TermsOf(i, s) + TermsOf(j, t)
    ensures Dot(i + j, s + t) == Dot(i, s) + Dot(j, t)
  {
    TermsAppend(i, j, s, t);
    DotIsSum(i + j, s + t);
    DotIsSum(i, s);
    DotIsSum(j, t);
    SumAppend(TermsOf(i, s), TermsOf(j, t));
  }

  // -------------------------------------------------------- one group of axes

  /** Every axis steps over the whole of the next one. */
  predicate Contiguous(shape: seq<nat>, strides: seq<int>)
    requires |strides| == |shape|
  {
    forall k :: 0 <= k < |shape| - 1 ==> strides[k] == shape[k + 1] * strides[k + 1]
  }

  lemma {:induction false} ContiguousHead(shape: seq<nat>, strides: seq<int>)
    requires |strides| == |shape| > 0 && Contiguous(shape, strides)
    ensures strides[0] == Numel(shape[1..]) * strides[|strides| - 1]
  {
    if |shape| > 1 {
      var sh, st := shape[1..], strides[1..];
      forall k | 0 <= k < |sh| - 1 ensures st[k] == sh[k + 1] * st[k + 1] {
        assert strides[k + 1] == shape[k + 1 + 1] * strides[k + 1 + 1];
      }
      ContiguousHead(sh, st);
      assert strides[0] == shape[1] * strides[1] by { assert strides[0] == shape[0 + 1] * strides[0 + 1]; }
      MulAssoc(shape[1], Numel(sh[1..]), strides[|strides| - 1]);
    }
  }

  /** A contiguous group of axes is one axis with the last stride. */
  lemma {:induction false} ContiguousIsLinear(p: nat, shape: seq<nat>, strides: seq<int>)
    requires |strides| == |shape| > 0 && Contiguous(shape, strides) && p < Numel(shape)
    ensures FlatDot(p, shape, strides) == p * strides[|strides| - 1]
    decreases |shape|
  {
    var n, last := Numel(shape[1..]), strides[|strides| - 1];
    TailPositive(shape, p);
    DivBounds(p, n);
    ContiguousHead(shape, strides);
    var idx := Unflatten(p, shape);
    assert idx[1..] == Unflatten(p % n, shape[1..]);
    if |shape| == 1 {
      assert shape[1..] == [] && n == 1;
      DivModUnique(p, 1, p, 0);
      assert Dot(idx[1..], strides[1..]) == 0;
    } else {
      forall k | 0 <= k < |shape[1..]| - 1 ensures strides[1..][k] == shape[1..][k + 1] * strides[1..][k + 1] {
        assert strides[k + 1] == shape[k + 1 + 1] * strides[k + 1 + 1];
      }
      ContiguousIsLinear(p % n, shape[1..], strides[1..]);
      MulAssoc(p / n, n, last);
      assert ((p / n) * n + p % n) * last == (p / n) * n * last + (p % n) * last;
    }
  }

  /** With last stride 0 every term of a contiguous group is 0. */
  lemma {:induction false} ContiguousZero(p: nat, shape: seq<nat>, strides: seq<int>)
    requires |strides| == |shape| > 0 && Contiguous(shape, strides) && p < Numel(shape) && strides[|strides| - 1] == 0
    ensures forall k :: 0 <= k < |shape| ==> Terms(p, shape, strides)[k] == 0
  {
    AllZero(shape, strides, |shape| - 1);
    forall k | 0 <= k < |shape| ensures Terms(p, shape, strides)[k] == 0 {
      TermsAt(Unflatten(p, shape), strides, k);
    }
  }

  lemma {:induction false} AllZero(shape: seq<nat>, strides: seq<int>, k: nat)
    requires |strides| == |shape| && k < |shape| && Contiguous(shape, strides) && strides[k] == 0
    ensures forall j :: 0 <= j <= k ==> strides[j] == 0
    decreases k
  {
    if k > 0 {
      assert strides[k - 1] == shape[k - 1 + 1] * strides[k - 1 + 1];
      AllZero(shape, strides, k - 1);
    }
  }

  // ------------------------------------------------------- equivalent layouts

  /** Position `p` has the same address in both layouts. */
  ghost predicate SameAt(a: seq<nat>, s: seq<int>, b: seq<nat>, t: seq<int>, p: nat)
    requires |s| == |a| && |t| == |b|
  {
    p < Numel(a) && p < Numel(b) && FlatDot(p, a, s) == FlatDot(p, b, t)
  }

  /** Positions whose terms agree under `a, s` have terms that agree under `b, t`. */
  ghost predicate CoarserAt(a: seq<nat>, s: seq<int>, b: seq<nat>, t: seq<int>, p: nat, q: nat)
    requires |s| == |a| && |t| == |b|
  {
    && p < Numel(a) && p < Numel(b) && q < Numel(a) && q < Numel(b)
    && (Terms(p, a, s) == Terms(q, a, s) ==> Terms(p, b, t) == Terms(q, b, t))
  }

  /** Same number of elements, same addresses, and no new coincidences between terms. */
  ghost predicate SameLayout(a: seq<nat>, s: seq<int>, b: seq<nat>, t: seq<int>)
    requires |s| == |a| && |t| == |b|
  {
    && Numel(a) == Numel(b)
    && (forall p: nat :: p < Numel(a) ==> SameAt(a, s, b, t, p))
    && (forall p: nat, q: nat :: p < Numel(a) && q < Numel(a) ==> CoarserAt(a, s, b, t, p, q))
  }

  /** Two contiguous groups with equal size and last stride are the same layout. */
  lemma ContiguousGroupsSame(a: seq<nat>, s: seq<int>, b: seq<nat>, t: seq<int>)
    requires |s| == |a| > 0 && |t| == |b| > 0 && Contiguous(a, s) && Contiguous(b, t)
    requires Numel(a) == Numel(b) && s[|s| - 1] == t[|t| - 1]
    ensures SameLayout(a, s, b, t)
  {
    var last := s[|s| - 1];
    forall p: nat | p < Numel(a) ensures SameAt(a, s, b, t, p) {
      ContiguousIsLinear(p, a, s);
      ContiguousIsLinear(p, b, t);
    }
    forall p: nat, q: nat | p < Numel(a) && q < Numel(a) ensures CoarserAt(a, s, b, t, p, q) {
      if last == 0 {
        ContiguousZero(p, b, t);
        ContiguousZero(q, b, t);
        assert Terms(p, b, t) == Terms(q, b, t);
      } else {
        ContiguousIsLinear(p, a, s);
        ContiguousIsLinear(q, a, s);
        DotIsSum(Unflatten(p, a), s);
        DotIsSum(Unflatten(q, a), s);
        if Terms(p, a, s) == Terms(q, a, s) {
          CancelFactor(p, q, last);
        }
      }
    }
  }

  lemma CancelFactor(p: int, q: int, f: int)
    requires p * f == q * f && f != 0
    ensures p == q
  {
    assert (p - q) * f == 0;
  }

  lemma CancelLeft(f: int, p: int, q: int)
    requires f * p == f * q && f != 0
    ensures p == q
  {
    assert f * (p - q) == 0;
  }

  /** Equivalent groups side by side are equivalent. */
  lemma SameSideBySide(a: seq<nat>, s: seq<int>, b: seq<nat>, t: seq<int>, a': seq<nat>, s': seq<int>, b': seq<nat>,
                       t': seq<int>)
    requires |s| == |a| && |t| == |b| && |s'| == |a'| && |t'| == |b'|
    requires SameLayout(a, s, b, t) && SameLayout(a', s', b', t')
    ensures SameLayout(a + a', s + s', b + b', t + t')
  {
    NumelAppend(a, a');
    NumelAppend(b, b');
    forall p: nat | p < Numel(a + a') ensures SameAt(a + a', s + s', b + b', t + t', p) {
      var hi, lo := SplitPosition(p, a, a');
      assert SameAt(a, s, b, t, hi) && SameAt(a', s', b', t', lo);
      GroupsSideBySide(p, hi, lo, a, s, a', s');
      GroupsSideBySide(p, hi, lo, b, t, b', t');
    }
    forall p: nat, q: nat | p < Numel(a + a') && q < Numel(a + a')
      ensures CoarserAt(a + a', s + s', b + b', t + t', p, q)
    {
      CoarserSideBySide(a, s, b, t, a', s', b', t', p, q);
    }
  }

  lemma CoarserSideBySide(a: seq<nat>, s: seq<int>, b: seq<nat>, t: seq<int>, a': seq<nat>, s': seq<int>, b': seq<nat>,
                          t': seq<int>, p: nat, q: nat)
    requires |s| == |a| && |t| == |b| && |s'| == |a'| && |t'| == |b'|
    requires SameLayout(a, s, b, t) && SameLayout(a', s', b', t')
    requires Numel(a + a') == Numel(b + b') && p < Numel(a + a') && q < Numel(a + a')
    ensures CoarserAt(a + a', s + s', b + b', t + t', p, q)
  {
    var ph, pl := SplitPosition(p, a, a');
    var qh, ql := SplitPosition(q, a, a');
    GroupsSideBySide(p, ph, pl, a, s, a', s');
    GroupsSideBySide(p, ph, pl, b, t, b', t');
    GroupsSideBySide(q, qh, ql, a, s, a', s');
    GroupsSideBySide(q, qh, ql, b, t, b', t');
    assert CoarserAt(a, s, b, t, ph, qh) && CoarserAt(a', s', b', t', pl, ql);
    if Terms(p, a + a', s + s') == Terms(q, a + a', s + s') {
      SplitEqual(Terms(ph, a, s), Terms(qh, a, s), Terms(pl, a', s'), Terms(ql, a', s'));
    }
  }

  lemma SplitEqual(a: seq<int>, b: seq<int>, c: seq<int>, d: seq<int>)
    requires |a| == |b| && a + c == b + d
    ensures a == b && c == d
  {
    assert (a + c)[..|a|] == a && (b + d)[..|b|] == b;
    assert (a + c)[|a|..] == c && (b + d)[|b|..] == d;
  }

  lemma SameRefl(a: seq<nat>, s: seq<int>)
    requires |s| == |a|
    ensures SameLayout(a, s, a, s)
  {
  }

  lemma SameTrans(a: seq<nat>, s: seq<int>, b: seq<nat>, t: seq<int>, c: seq<nat>, u: seq<int>)
    requires |s| == |a| && |t| == |b| && |u| == |c|
    requires SameLayout(a, s, b, t) && SameLayout(b, t, c, u)
    ensures SameLayout(a, s, c, u)
  {
    forall p: nat | p < Numel(a) ensures SameAt(a, s, c, u, p) {
      assert SameAt(a, s, b, t, p) && SameAt(b, t, c, u, p);
    }
    forall p: nat, q: nat | p < Numel(a) && q < Numel(a) ensures CoarserAt(a, s, c, u, p, q) {
      assert CoarserAt(a, s, b, t, p, q) && CoarserAt(b, t, c, u, p, q);
    }
  }

  // -------------------------------------------------------- axes of size one

  function StripShape(shape: seq<nat>): seq<nat> {
    if shape == [] then [] else (if shape[0] == 1 then [] else [shape[0]]) + StripShape(shape[1..])
  }

  function StripStrides(shape: seq<nat>, strides: seq<int>): seq<int>
    requires |strides| == |shape|
  {
    if shape == [] then [] else (if shape[0] == 1 then [] else [strides[0]]) + StripStrides(shape[1..], strides[1..])
  }

  lemma {:induction false} StripLength(shape: seq<nat>, strides: seq<int>)
    requires |strides| == |shape|
    ensures |StripShape(shape)| == |StripStrides(shape, strides)| <= |shape|
    ensures forall k :: 0 <= k < |StripShape(shape)| ==>
            StripShape(shape)[k] != 1 && (Numel(shape) > 0 ==> StripShape(shape)[k] > 0)
  {
    if shape != [] {
      StripLength(shape[1..], strides[1..]);
      if Numel(shape) > 0 { FactorsPositive(shape[0], Numel(shape[1..]), 0); }
      var r := StripShape(shape[1..]);
      forall k | 0 <= k < |StripShape(shape)|
        ensures StripShape(shape)[k] != 1 && (Numel(shape) > 0 ==> StripShape(shape)[k] > 0)
      {
        assert StripShape(shape)[k] == if shape[0] == 1 then r[k] else if k == 0 then shape[0] else r[k - 1];
      }
    }
  }

  /** A group of axes of size 1 is no axis at all, whatever its strides. */
  lemma {:induction false} OnesAreNothing(ones: seq<nat>, t: seq<int>)
    requires |t| == |ones| && forall k :: 0 <= k < |ones| ==> ones[k] == 1
    ensures SameLayout([], [], ones, t) && SameLayout(ones, t, [], [])
  {
    OnesAtZero(ones, t);
    OnesAtZero([], []);
    assert SameAt([], [], ones, t, 0) && SameAt(ones, t, [], [], 0);
    assert CoarserAt([], [], ones, t, 0, 0) && CoarserAt(ones, t, [], [], 0, 0);
  }

  lemma OnesAtZero(ones: seq<nat>, t: seq<int>)
    requires |t| == |ones| && forall k :: 0 <= k < |ones| ==> ones[k] == 1
    ensures Numel(ones) == 1 && FlatDot(0, ones, t) == 0
  {
    OnesNumel(ones);
    var z := Unflatten(0, ones);
    UnflattenInBounds(0, ones);
    forall k | 0 <= k < |z| ensures TermsOf(z, t)[k] == 0 {
      TermsAt(z, t, k);
    }
    DotIsSum(z, t);
    ZeroSum(TermsOf(z, t));
  }

  lemma {:induction false} OnesNumel(ones: seq<nat>)
    requires forall k :: 0 <= k < |ones| ==> ones[k] == 1
    ensures Numel(ones) == 1
  {
    if ones != [] { OnesNumel(ones[1..]); }
  }

  lemma {:induction false} ZeroSum(t: seq<int>)
    requires forall k :: 0 <= k < |t| ==> t[k] == 0
    ensures Sum(t) == 0
  {
    if t != [] { ZeroSum(t[1..]); }
  }

  lemma {:induction false} StripSame(shape: seq<nat>, strides: seq<int>)
    requires |strides| == |shape|
    ensures |StripShape(shape)| == |StripStrides(shape, strides)|
    ensures SameLayout(shape, strides, StripShape(shape), StripStrides(shape, strides))
  {
    StripLength(shape, strides);
    if shape == [] {
      SameRefl([], []);
    } else {
      var h, hs := [shape[0]], [strides[0]];
      StripLength(shape[1..], strides[1..]);
      StripSame(shape[1..], strides[1..]);
      assert shape == h + shape[1..] && strides == hs + strides[1..];
      if shape[0] == 1 {
        OnesAreNothing(h, hs);
        SameSideBySide(h, hs, [], [], shape[1..], strides[1..], StripShape(shape[1..]),
                       StripStrides(shape[1..], strides[1..]));
      } else {
        SameRefl(h, hs);
        SameSideBySide(h, hs, h, hs, shape[1..], strides[1..], StripShape(shape[1..]),
                       StripStrides(shape[1..], strides[1..]));
      }
    }
  }

  /** Strides of axes of size 1 do not matter. */
  lemma {:induction false} OnesStridesFree(shape: seq<nat>, s: seq<int>, t: seq<int>)
    requires |s| == |t| == |shape| && forall k :: 0 <= k < |shape| && shape[k] != 1 ==> s[k] == t[k]
    ensures SameLayout(shape, s, shape, t)
  {
    if shape == [] {
      SameRefl([], []);
    } else {
      var h := [shape[0]];
      forall k | 0 <= k < |shape[1..]| && shape[1..][k] != 1 ensures s[1..][k] == t[1..][k] {
        assert shape[k + 1] != 1;
      }
      OnesStridesFree(shape[1..], s[1..], t[1..]);
      assert shape == h + shape[1..] && s == [s[0]] + s[1..] && t == [t[0]] + t[1..];
      if shape[0] == 1 {
        OnesAreNothing(h, [s[0]]);
        OnesAreNothing(h, [t[0]]);
        SameTrans(h, [s[0]], [], [], h, [t[0]]);
      } else {
        SameRefl(h, [s[0]]);
      }
      SameSideBySide(h, [s[0]], h, [t[0]], shape[1..], s[1..], shape[1..], t[1..]);
    }
  }

  // ------------------------------------------------------- linear addresses

  lemma {:induction false} ZeroPosition(shape: seq<nat>, strides: seq<int>)
    requires |strides| == |shape| && Numel(shape) > 0
    ensures FlatDot(0, shape, strides) == 0
  {
    if shape != [] {
      TailPositive(shape, 0);
      ZeroPosition(shape[1..], strides[1..]);
      DivModUnique(0, Numel(shape[1..]), 0, 0);
      assert Unflatten(0, shape)[1..] == Unflatten(0, shape[1..]);
    }
  }

  /** The position whose index is 1 on axis `k` and 0 elsewhere. */
  lemma {:induction false} UnitPosition(shape: seq<nat>, strides: seq<int>, k: nat)
    requires |strides| == |shape| && k < |shape| && shape[k] >= 2 && Numel(shape) > 0
    ensures 0 < Numel(shape[k + 1..]) < Numel(shape)
    ensures FlatDot(Numel(shape[k + 1..]), shape, strides) == strides[k]
  {
    var n := Numel(shape[1..]);
    TailPositive(shape, 0);
    if k == 0 {
      MulLe(2, shape[0], n);
      DivModUnique(n, n, 1, 0);
      ZeroPosition(shape[1..], strides[1..]);
      assert Unflatten(n, shape)[1..] == Unflatten(0, shape[1..]);
    } else {
      assert shape[1..][k - 1 + 1..] == shape[k + 1..];
      UnitPosition(shape[1..], strides[1..], k - 1);
      var p := Numel(shape[k + 1..]);
      MulLe(1, shape[0], n);
      DivModUnique(p, n, 0, p);
      assert Unflatten(p, shape)[1..] == Unflatten(p, shape[1..]);
    }
  }

  /** From axis `i` on, axes longer than 1 have the strides of a contiguous group with last stride `u`. */
  ghost predicate LinearFrom(shape: seq<nat>, strides: seq<int>, i: nat, u: int)
    requires |strides| == |shape|
  {
    forall k :: i <= k < |shape| ==> LinearAxis(shape, strides, k, u)
  }

  ghost predicate LinearAxis(shape: seq<nat>, strides: seq<int>, k: nat, u: int)
    requires |strides| == |shape| && k < |shape|
  {
    shape[k] != 1 ==> strides[k] == Numel(shape[k + 1..]) * u
  }

  /** Then the addresses of the positions inside those axes are linear. */
  lemma {:induction false} LinearFromDot(shape: seq<nat>, strides: seq<int>, i: nat, u: int, p: nat)
    requires |strides| == |shape| && i <= |shape| && LinearFrom(shape, strides, i, u)
    requires p < Numel(shape[i..]) && Numel(shape) > 0
    ensures p < Numel(shape) && FlatDot(p, shape, strides) == p * u
    decreases |shape|
  {
    if shape == [] {
      assert shape[i..] == [];
    } else {
      var sh, st, n := shape[1..], strides[1..], Numel(shape[1..]);
      TailPositive(shape, 0);
      var j := if i == 0 then 0 else i - 1;
      forall k | j <= k < |sh| ensures LinearAxis(sh, st, k, u) {
        assert LinearAxis(shape, strides, k + 1, u);
        assert sh[k + 1..] == shape[k + 1 + 1..];
      }
      MulLe(1, shape[0], n);
      if i == 0 {
        assert shape[0..] == shape;
        TailPositive(shape, p);
        DivBounds(p, n);
        LinearFromDot(sh, st, 0, u, p % n);
        assert sh[0..] == sh;
        assert Unflatten(p, shape)[1..] == Unflatten(p % n, sh);
        assert LinearAxis(shape, strides, 0, u);
        if shape[0] == 1 { assert p / n == 0; }
        MulAssoc(p / n, n, u);
        assert ((p / n) * n + p % n) * u == (p / n) * n * u + (p % n) * u;
      } else {
        assert sh[j..] == shape[i..];
        LinearFromDot(sh, st, j, u, p);
        DivModUnique(p, n, 0, p);
        assert Unflatten(p, shape)[1..] == Unflatten(p, sh);
      }
    }
  }

  /** Without axes of size 1, linear strides are contiguous ones. */
  lemma LinearIsContiguous(shape: seq<nat>, strides: seq<int>, u: int)
    requires |strides| == |shape| && LinearFrom(shape, strides, 0, u) && forall k :: 0 <= k < |shape| ==> shape[k] != 1
    ensures Contiguous(shape, strides)
  {
    forall k | 0 <= k < |shape| - 1 ensures strides[k] == shape[k + 1] * strides[k + 1] {
      assert LinearAxis(shape, strides, k, u) && LinearAxis(shape, strides, k + 1, u);
      assert shape[k + 1..][1..] == shape[k + 1 + 1..];
      MulAssoc(shape[k + 1], Numel(shape[k + 1 + 1..]), u);
    }
  }

  /** No proper group of leading axes of one side has the size of one of the other side. */
  ghost predicate NoCommonHead(a: seq<nat>, b: seq<nat>) {
    forall i, j :: 0 < i < |a| && 0 < j < |b| ==> HeadsDiffer(a[..i], b[..j])
  }

  ghost predicate HeadsDiffer(a: seq<nat>, b: seq<nat>) {
    Numel(a) != Numel(b)
  }

  lemma NoCommonTail(a: seq<nat>, b: seq<nat>, i: nat, j: nat)
    requires Numel(a) == Numel(b) > 0 && NoCommonHead(a, b) && 0 < i < |a| && 0 < j < |b|
    ensures Numel(a[i..]) != Numel(b[j..])
  {
    SplitNumel(a, i);
    SplitNumel(b, j);
    assert HeadsDiffer(a[..i], b[..j]);
    FactorsPositive(Numel(a[..i]), Numel(a[i..]), 0);
    if Numel(a[i..]) == Numel(b[j..]) {
      CancelFactor(Numel(a[..i]), Numel(b[..j]), Numel(a[i..]));
    }
  }

  /** The stride of an axis that ends inside the linear part of the other side. */
  lemma ExtendLinear(a: seq<nat>, s: seq<int>, b: seq<nat>, t: seq<int>, i: nat, j: nat, u: int)
    requires |s| == |a| && |t| == |b| && Numel(a) == Numel(b) > 0 && 0 < i <= |a| && j <= |b|
    requires forall p: nat :: p < Numel(a) ==> SameAt(a, s, b, t, p)
    requires LinearFrom(a, s, i, u) && LinearFrom(b, t, j, u) && Numel(a[i..]) < Numel(b[j..])
    ensures LinearFrom(a, s, i - 1, u)
  {
    var k := i - 1;
    assert a[k + 1..] == a[i..];
    LinearFromDot(b, t, j, u, Numel(a[k + 1..]));
    assert SameAt(a, s, b, t, Numel(a[k + 1..]));
    AxisFromPosition(a, s, k, u);
  }

  lemma AxisFromPosition(a: seq<nat>, s: seq<int>, k: nat, u: int)
    requires |s| == |a| > k && Numel(a[k + 1..]) < Numel(a)
    requires FlatDot(Numel(a[k + 1..]), a, s) == Numel(a[k + 1..]) * u
    ensures LinearAxis(a, s, k, u)
  {
    NumelPositive(a);
    if a[k] != 1 { UnitPosition(a, s, k); }
  }

  lemma SameFlip(a: seq<nat>, s: seq<int>, b: seq<nat>, t: seq<int>)
    requires |s| == |a| && |t| == |b| && Numel(a) == Numel(b)
    requires forall p: nat :: p < Numel(a) ==> SameAt(a, s, b, t, p)
    ensures forall p: nat :: p < Numel(b) ==> SameAt(b, t, a, s, p)
  {
    forall p: nat | p < Numel(b) ensures SameAt(b, t, a, s, p) {
      assert SameAt(a, s, b, t, p);
    }
  }

  /** Two groups with the same addresses but no common head are linear. */
  lemma {:induction false} UnmergeableIsLinear(a: seq<nat>, s: seq<int>, b: seq<nat>, t: seq<int>, i: nat, j: nat,
                                               u: int)
    requires |s| == |a| && |t| == |b| && Numel(a) == Numel(b) > 0 && NoCommonHead(a, b)
    requires forall k :: 0 <= k < |a| ==> a[k] >= 2
    requires forall p: nat :: p < Numel(a) ==> SameAt(a, s, b, t, p)
    requires i < |a| && j <= |b| && LinearFrom(a, s, i, u) && LinearFrom(b, t, j, u)
    ensures LinearFrom(a, s, 0, u)
    decreases i + j
  {
    if i > 0 {
      TailAtLeastTwo(a, i);
      assert b[|b|..] == [] && b[0..] == b && a[0..] == a;
      if Numel(a[i..]) < Numel(b[j..]) {
        ExtendLinear(a, s, b, t, i, j, u);
        UnmergeableIsLinear(a, s, b, t, i - 1, j, u);
      } else {
        if 0 < j < |b| { NoCommonTail(a, b, i, j); }
        TailSmaller(a, i);
        SameFlip(a, s, b, t);
        ExtendLinear(b, t, a, s, j, i, u);
        UnmergeableIsLinear(a, s, b, t, i, j - 1, u);
      }
    }
  }

  lemma TailSmaller(a: seq<nat>, i: nat)
    requires 0 < i < |a| && Numel(a) > 0 && forall k :: 0 <= k < |a| ==> a[k] >= 2
    ensures Numel(a[i..]) < Numel(a)
  {
    assert a[i - 1 + 1..] == a[i..];
    UnitPosition(a, a, i - 1);
  }

  /** Two groups with the same addresses but no common head are contiguous on the side without axes of size 1. */
  lemma UnmergeableIsContiguous(a: seq<nat>, s: seq<int>, b: seq<nat>, t: seq<int>)
    requires |s| == |a| > 0 && |t| == |b| && Numel(a) == Numel(b) > 0 && NoCommonHead(a, b)
    requires forall k :: 0 <= k < |a| ==> a[k] >= 2
    requires forall p: nat :: p < Numel(a) ==> SameAt(a, s, b, t, p)
    ensures Contiguous(a, s)
  {
    var u := s[|a| - 1];
    assert a[|a| - 1 + 1..] == [];
    assert LinearAxis(a, s, |a| - 1, u);
    UnmergeableIsLinear(a, s, b, t, |a| - 1, |b|, u);
    LinearIsContiguous(a, s, u);
  }

  lemma TailAtLeastTwo(a: seq<nat>, i: nat)
    requires i < |a| && Numel(a) > 0 && forall k :: 0 <= k < |a| ==> a[k] >= 2
    ensures Numel(a[i..]) >= 2
  {
    SplitNumel(a, i);
    FactorsPositive(Numel(a[..i]), Numel(a[i..]), 0);
    TailPositive(a[i..], 0);
    MulLe(2, a[i..][0], Numel(a[i..][1..]));
  }

  // ------------------------------------------------------------- the algorithm

  lemma SplitNumel(a: seq<nat>, i: nat)
    requires i <= |a|
    ensures Numel(a[..i]) * Numel(a[i..]) == Numel(a)
  {
    assert a == a[..i] + a[i..];
    NumelAppend(a[..i], a[i..]);
  }

  lemma SliceNumel(a: seq<nat>, i: nat, j: nat)
    requires i <= j <= |a|
    ensures Numel(a[i..]) == Numel(a[i..j]) * Numel(a[j..])
    ensures j < |a| ==> Numel(a[i..j + 1]) == Numel(a[i..j]) * a[j]
  {
    assert a[i..] == a[i..j] + a[j..];
    NumelAppend(a[i..j], a[j..]);
    if j < |a| {
      assert a[i..j + 1] == a[i..j] + [a[j]];
      NumelAppend(a[i..j], [a[j]]);
      assert Numel([a[j]]) == a[j] * 1;
    }
  }

  lemma HeadAtMost(b: seq<nat>, k: nat, l: nat)
    requires k <= l <= |b| && Numel(b[k..]) > 0
    ensures Numel(b[k..l]) <= Numel(b[k..])
  {
    SliceNumel(b, k, l);
    var g, r := Numel(b[k..l]), Numel(b[l..]);
    FactorsPositive(g, r, 0);
    MulLe(1, r, g);
  }

  /** The part of one side taken so far is smaller, so there is more to take on that side. */
  lemma MoreToTake(a: seq<nat>, i: nat, j: nat, b: seq<nat>, k: nat, l: nat)
    requires i <= j <= |a| && k <= l <= |b| && Numel(a[i..]) == Numel(b[k..]) > 0
    requires Numel(a[i..j]) < Numel(b[k..l])
    ensures j < |a|
  {
    HeadAtMost(b, k, l);
    assert a[i..|a|] == a[i..];
  }

  /** `attempt_nocopy_reshape`, for shapes with the same non-zero number of elements. */
  method AttemptNocopyReshape(shape: seq<nat>, strides: seq<int>, newShape: seq<nat>)
    returns (ok: bool, newStrides: seq<int>)
    requires |strides| == |shape| && Numel(shape) == Numel(newShape) > 0
    ensures |newStrides| == |newShape|
    ensures ok ==> SameLayout(shape, strides, newShape, newStrides)
    ensures ok ==> forall k :: 0 <= k < |newShape| && newShape[k] == 1 ==> newStrides[k] == 0
    ensures ok <==> HasStrides(shape, strides, newShape)
  {
    var olddims, oldstrides := StripAxes(shape, strides);
    StripSame(shape, strides);
    StripLength(shape, strides);
    newStrides := seq(|newShape|, _ => 0);
    var oldnd := |olddims|;
    var oi, ni := 0, 0;
    assert olddims[..0] == [] && newShape[..0] == [] && oldstrides[..0] == [] && newStrides[..0] == [];
    SameRefl([], []);
    while ni < |newShape| && oi < oldnd
      invariant ni <= |newShape| && oi <= oldnd && |newStrides| == |newShape|
      invariant SameLayout(olddims[..oi], oldstrides[..oi], newShape[..ni], newStrides[..ni])
      decreases |newShape| - ni
    {
      RestEqual(olddims, oi, newShape, ni);
      var nj, oj := MatchGroup(olddims, oi, newShape, ni);
      var contiguous := CanCombine(olddims, oldstrides, oi, oj);
      if !contiguous {
        GroupBlocks(shape, strides, newShape, olddims, oldstrides, oi, oj, ni, nj);
        return false, newStrides;
      }
      ghost var before := newStrides;
      newStrides := GroupStrides(newShape, newStrides, ni, nj, oldstrides[oj - 1]);
      GroupDone(olddims, oldstrides, oi, oj, newShape, before, newStrides, ni, nj);
      ni, oi := nj, oj;
    }
    RestDone(olddims, oldstrides, oi, newShape, newStrides, ni);
    SameTrans(shape, strides, olddims, oldstrides, newShape, newStrides);
    ghost var loose := newStrides;
    newStrides := ClearOnes(newShape, newStrides);
    OnesStridesFree(newShape, loose, newStrides);
    SameTrans(shape, strides, newShape, loose, newShape, newStrides);
    assert SameAddresses(shape, strides, newShape, newStrides);
    ok := true;
  }

  /** Some strides for the new shape put every position at its old address. */
  ghost predicate HasStrides(shape: seq<nat>, strides: seq<int>, newShape: seq<nat>)
    requires |strides| == |shape|
  {
    exists t :: SameAddresses(shape, strides, newShape, t)
  }

  ghost predicate SameAddresses(a: seq<nat>, s: seq<int>, b: seq<nat>, t: seq<int>)
    requires |s| == |a|
  {
    |t| == |b| && forall p: nat :: p < Numel(a) ==> SameAt(a, s, b, t, p)
  }

  /** Equal addresses for the whole shapes are equal addresses for matching groups of axes. */
  lemma GroupSame(a: seq<nat>, s: seq<int>, i: nat, j: nat, b: seq<nat>, t: seq<int>, k: nat, l: nat, x: nat)
    requires |s| == |a| && |t| == |b| && i <= j <= |a| && k <= l <= |b|
    requires Numel(a) == Numel(b) > 0 && SameAddresses(a, s, b, t)
    requires Numel(a[..i]) == Numel(b[..k]) && Numel(a[i..j]) == Numel(b[k..l]) && x < Numel(a[i..j])
    ensures SameAt(a[i..j], s[i..j], b[k..l], t[k..l], x)
  {
    SplitNumel(a, i);
    SplitNumel(b, k);
    SliceNumel(a, i, j);
    SliceNumel(b, k, l);
    FactorsPositive(Numel(a[..i]), Numel(a[i..]), 0);
    CancelLeft(Numel(a[..i]), Numel(a[i..]), Numel(b[k..]));
    FactorsPositive(Numel(a[i..j]), Numel(a[j..]), 0);
    CancelLeft(Numel(a[i..j]), Numel(a[j..]), Numel(b[l..]));
    var p := InsideGroup(a, s, i, j, x);
    var q := InsideGroup(b, t, k, l, x);
    assert SameAt(a, s, b, t, p);
  }

  /** The position that is `x` inside the group `i..j` of axes and 0 outside it. */
  lemma InsideGroup(a: seq<nat>, s: seq<int>, i: nat, j: nat, x: nat) returns (p: nat)
    requires |s| == |a| && i <= j <= |a| && Numel(a) > 0 && x < Numel(a[i..j])
    ensures p == x * Numel(a[j..]) && p < Numel(a) && FlatDot(p, a, s) == FlatDot(x, a[i..j], s[i..j])
  {
    p := InsideBounds(a, i, j, x);
    ThreeParts(a, i, j);
    ThreeParts(s, i, j);
    InsideParts(a[..i], s[..i], a[i..j], s[i..j], a[j..], s[j..], x, p);
  }

  lemma InsideParts(h: seq<nat>, hs: seq<int>, g: seq<nat>, gs: seq<int>, r: seq<nat>, rs: seq<int>, x: nat, p: nat)
    requires |hs| == |h| && |gs| == |g| && |rs| == |r| && Numel(h) > 0 && Numel(r) > 0
    requires x < Numel(g) && p == x * Numel(r) && p < Numel(g + r) && p < Numel(h + (g + r))
    ensures FlatDot(p, h + (g + r), hs + (gs + rs)) == FlatDot(x, g, gs)
  {
    TailZero(p, x, g, gs, r, rs);
    HeadZero(p, h, hs, g + r, gs + rs);
  }

  lemma ThreeParts<T>(a: seq<T>, i: nat, j: nat)
    requires i <= j <= |a|
    ensures a[i..] == a[i..j] + a[j..] && a == a[..i] + (a[i..j] + a[j..])
  {
  }

  lemma InsideBounds(a: seq<nat>, i: nat, j: nat, x: nat) returns (p: nat)
    requires i <= j <= |a| && Numel(a) > 0 && x < Numel(a[i..j])
    ensures p == x * Numel(a[j..]) && p < Numel(a[i..]) <= Numel(a)
    ensures Numel(a[..i]) > 0 && Numel(a[j..]) > 0
  {
    var g, r, m := Numel(a[i..j]), Numel(a[j..]), Numel(a[i..]);
    SplitNumel(a, i);
    SliceNumel(a, i, j);
    FactorsPositive(Numel(a[..i]), m, 0);
    FactorsPositive(g, r, 0);
    MulLt(x, g, r);
    MulLe(0, x, r);
    p := x * r;
    MulLe(1, Numel(a[..i]), m);
  }

  /** Position 0 of the axes behind adds nothing. */
  lemma TailZero(p: nat, x: nat, a: seq<nat>, s: seq<int>, b: seq<nat>, t: seq<int>)
    requires |s| == |a| && |t| == |b| && x < Numel(a) && Numel(b) > 0 && p == x * Numel(b) && p < Numel(a + b)
    ensures FlatDot(p, a + b, s + t) == FlatDot(x, a, s)
  {
    ZeroPosition(b, t);
    GroupsSideBySide(p, x, 0, a, s, b, t);
  }

  /** Position 0 of the axes in front adds nothing. */
  lemma HeadZero(p: nat, a: seq<nat>, s: seq<int>, b: seq<nat>, t: seq<int>)
    requires |s| == |a| && |t| == |b| && Numel(a) > 0 && p < Numel(b) && p < Numel(a + b)
    ensures FlatDot(p, a + b, s + t) == FlatDot(p, b, t)
  {
    ZeroPosition(a, s);
    assert 0 * Numel(b) == 0;
    GroupsSideBySide(p, 0, p, a, s, b, t);
  }

  /** A matched group that cannot be combined rules out every choice of strides. */
  lemma GroupBlocks(shape: seq<nat>, strides: seq<int>, newShape: seq<nat>, d: seq<nat>, s: seq<int>, oi: nat, oj: nat,
                    ni: nat, nj: nat)
    requires |strides| == |shape| && |s| == |d| && Numel(shape) == Numel(newShape) > 0
    requires SameLayout(shape, strides, d, s) && forall k :: 0 <= k < |d| ==> d[k] >= 2
    requires oi < oj <= |d| && ni < nj <= |newShape| && Numel(d[..oi]) == Numel(newShape[..ni])
    requires Numel(newShape[ni..nj]) == Numel(d[oi..oj]) && NoCommonHead(d[oi..oj], newShape[ni..nj])
    requires !Contiguous(d[oi..oj], s[oi..oj])
    ensures !HasStrides(shape, strides, newShape)
  {
    if HasStrides(shape, strides, newShape) {
      var t :| SameAddresses(shape, strides, newShape, t);
      forall p: nat | p < Numel(d) ensures SameAt(d, s, newShape, t, p) {
        assert SameAt(shape, strides, d, s, p) && SameAt(shape, strides, newShape, t, p);
      }
      assert SameAddresses(d, s, newShape, t);
      var a, b := d[oi..oj], newShape[ni..nj];
      forall x: nat | x < Numel(a) ensures SameAt(a, s[oi..oj], b, t[ni..nj], x) {
        GroupSame(d, s, oi, oj, newShape, t, ni, nj, x);
      }
      SplitNumel(d, oi);
      SliceNumel(d, oi, oj);
      FactorsPositive(Numel(d[..oi]), Numel(d[oi..]), 0);
      FactorsPositive(Numel(a), Numel(d[oj..]), 0);
      UnmergeableIsContiguous(a, s[oi..oj], b, t[ni..nj]);
    }
  }

  /** Removes the axes of size 1. */
  method StripAxes(shape: seq<nat>, strides: seq<int>) returns (olddims: seq<nat>, oldstrides: seq<int>)
    requires |strides| == |shape|
    ensures olddims == StripShape(shape) && oldstrides == StripStrides(shape, strides)
  {
    olddims, oldstrides := [], [];
    assert shape[0..] == shape && strides[0..] == strides;
    for k := 0 to |shape|
      invariant Stripped(shape, strides, k, olddims, oldstrides)
    {
      StripStep(shape, strides, k, olddims, oldstrides);
      if shape[k] != 1 {
        olddims, oldstrides := olddims + [shape[k]], oldstrides + [strides[k]];
      }
    }
    assert shape[|shape|..] == [];
  }

  /** `d` and `s` are what is kept of the first `k` axes. */
  ghost predicate Stripped(shape: seq<nat>, strides: seq<int>, k: nat, d: seq<nat>, s: seq<int>) {
    && k <= |shape| == |strides|
    && d + StripShape(shape[k..]) == StripShape(shape)
    && s + StripStrides(shape[k..], strides[k..]) == StripStrides(shape, strides)
  }

  lemma StripStep(shape: seq<nat>, strides: seq<int>, k: nat, d: seq<nat>, s: seq<int>)
    requires k < |shape| && Stripped(shape, strides, k, d, s)
    ensures shape[k] == 1 ==> Stripped(shape, strides, k + 1, d, s)
    ensures shape[k] != 1 ==> Stripped(shape, strides, k + 1, d + [shape[k]], s + [strides[k]])
  {
    var sh, st := shape[k..], strides[k..];
    assert sh[1..] == shape[k + 1..] && st[1..] == strides[k + 1..];
    if shape[k] != 1 {
      assert d + StripShape(sh) == d + [shape[k]] + StripShape(sh[1..]);
      assert s + StripStrides(sh, st) == s + [strides[k]] + StripStrides(sh[1..], st[1..]);
    } else {
      assert StripShape(sh) == StripShape(sh[1..]) && StripStrides(sh, st) == StripStrides(sh[1..], st[1..]);
    }
  }

  /** Strides of axes of size 1 are forced to 0. */
  method ClearOnes(shape: seq<nat>, strides: seq<int>) returns (r: seq<int>)
    requires |strides| == |shape|
    ensures |r| == |shape| && forall k :: 0 <= k < |shape| ==> r[k] == if shape[k] == 1 then 0 else strides[k]
  {
    r := strides;
    for idx := 0 to |shape|
      invariant |r| == |shape|
      invariant forall k :: 0 <= k < |shape| ==> r[k] == if k < idx && shape[k] == 1 then 0 else strides[k]
    {
      if shape[idx] == 1 {
        r := r[idx := 0];
      }
    }
  }

  /** A finished group extends the equivalence of the two layouts. */
  lemma GroupDone(d: seq<nat>, s: seq<int>, oi: nat, oj: nat, n: seq<nat>, before: seq<int>, t: seq<int>, ni: nat,
                  nj: nat)
    requires oi < oj <= |d| == |s| && ni < nj <= |n| == |t| == |before|
    requires SameLayout(d[..oi], s[..oi], n[..ni], before[..ni]) && t[..ni] == before[..ni]
    requires Contiguous(d[oi..oj], s[oi..oj]) && Contiguous(n[ni..nj], t[ni..nj])
    requires Numel(d[oi..oj]) == Numel(n[ni..nj]) && t[nj - 1] == s[oj - 1]
    ensures SameLayout(d[..oj], s[..oj], n[..nj], t[..nj])
  {
    ContiguousGroupsSame(d[oi..oj], s[oi..oj], n[ni..nj], t[ni..nj]);
    SameSideBySide(d[..oi], s[..oi], n[..ni], t[..ni], d[oi..oj], s[oi..oj], n[ni..nj], t[ni..nj]);
    assert d[..oi] + d[oi..oj] == d[..oj] && s[..oi] + s[oi..oj] == s[..oj];
    assert n[..ni] + n[ni..nj] == n[..nj] && t[..ni] + t[ni..nj] == t[..nj];
  }

  /** When one side is used up, only new axes of size 1 are left. */
  lemma RestDone(d: seq<nat>, s: seq<int>, oi: nat, n: seq<nat>, t: seq<int>, ni: nat)
    requires oi <= |d| == |s| && ni <= |n| == |t| && (oi == |d| || ni == |n|)
    requires Numel(d) == Numel(n) > 0 && SameLayout(d[..oi], s[..oi], n[..ni], t[..ni])
    requires forall j :: 0 <= j < |d| ==> d[j] != 1 && d[j] > 0
    ensures SameLayout(d, s, n, t)
  {
    RestEqual(d, oi, n, ni);
    OnlyOnesLeft(d, oi, n, ni);
    OnesAreNothing(n[ni..], t[ni..]);
    SameSideBySide(d[..oi], s[..oi], n[..ni], t[..ni], [], [], n[ni..], t[ni..]);
    assert d[..oi] + [] == d && s[..oi] + [] == s;
    assert n[..ni] + n[ni..] == n && t[..ni] + t[ni..] == t;
  }

  /** What remains on both sides has the same number of elements. */
  lemma RestEqual(a: seq<nat>, i: nat, b: seq<nat>, k: nat)
    requires i <= |a| && k <= |b| && Numel(a) == Numel(b) > 0 && Numel(a[..i]) == Numel(b[..k])
    ensures Numel(a[i..]) == Numel(b[k..]) > 0
  {
    SplitNumel(a, i);
    SplitNumel(b, k);
    FactorsPositive(Numel(a[..i]), Numel(a[i..]), 0);
    CancelLeft(Numel(a[..i]), Numel(a[i..]), Numel(b[k..]));
  }

  /** Without axes of size 1 on the old side, both sides end together, up to new axes of size 1. */
  lemma OnlyOnesLeft(a: seq<nat>, i: nat, b: seq<nat>, k: nat)
    requires i <= |a| && k <= |b| && Numel(a[i..]) == Numel(b[k..]) > 0 && (i == |a| || k == |b|)
    requires forall j :: 0 <= j < |a| ==> a[j] != 1 && a[j] > 0
    ensures i == |a| && forall j :: 0 <= j < |b[k..]| ==> b[k..][j] == 1
  {
    if i < |a| {
      assert b[k..] == [];
      SliceNumel(a, i, i + 1);
      assert Numel(a[i..i + 1]) == a[i] * 1 by { assert a[i..i + 1] == [a[i]]; }
      FactorsPositive(a[i], Numel(a[i + 1..]), 0);
      MulLe(2, a[i], Numel(a[i + 1..]));
    } else {
      assert a[i..] == [];
      ProductOne(b[k..]);
    }
  }

  lemma {:induction false} ProductOne(b: seq<nat>)
    requires Numel(b) == 1
    ensures forall j :: 0 <= j < |b| ==> b[j] == 1
  {
    if b != [] {
      var n := Numel(b[1..]);
      FactorsPositive(b[0], n, 0);
      MulLe(1, b[0], n);
      MulLe(1, n, b[0]);
      assert n == 1 && b[0] == 1;
      ProductOne(b[1..]);
      forall j | 0 <= j < |b| ensures b[j] == 1 {
        if j > 0 { assert b[j] == b[1..][j - 1]; }
      }
    }
  }

  /** Axes `oi..x` and `ni..y` were taken on the way to `oi..oj` and `ni..nj`, and never matched before. */
  ghost predicate NoEarlierMatch(a: seq<nat>, oi: nat, oj: nat, b: seq<nat>, ni: nat, nj: nat) {
    && oi < oj <= |a| && ni < nj <= |b|
    && (forall x :: oi < x < oj ==> HeadBelow(a, oi, x, Numel(b[ni..nj])))
    && (forall y :: ni < y < nj ==> HeadBelow(b, ni, y, Numel(a[oi..oj])))
    && (forall x, y :: oi < x < oj && ni < y < nj ==> HeadsDiffer(a[oi..x], b[ni..y]))
  }

  ghost predicate HeadBelow(a: seq<nat>, i: nat, x: nat, bound: nat) {
    i <= x <= |a| && Numel(a[i..x]) < bound
  }

  lemma SingleNumel(d: nat)
    ensures Numel([d]) == d
  {
    assert Numel([d]) == d * Numel([d][1..]);
  }

  lemma HeadsSwapped(a: seq<nat>, oi: nat, oj: nat, b: seq<nat>, ni: nat, nj: nat)
    requires NoEarlierMatch(a, oi, oj, b, ni, nj)
    ensures NoEarlierMatch(b, ni, nj, a, oi, oj)
  {
    forall y, x | ni < y < nj && oi < x < oj ensures HeadsDiffer(b[ni..y], a[oi..x]) {
      assert HeadsDiffer(a[oi..x], b[ni..y]);
    }
  }

  /** Taking one more axis on the smaller side. */
  lemma TakeAnother(a: seq<nat>, oi: nat, oj: nat, b: seq<nat>, ni: nat, nj: nat)
    requires NoEarlierMatch(a, oi, oj, b, ni, nj) && oj < |a| && Numel(a[oi..]) > 0
    requires Numel(a[oi..oj]) < Numel(b[ni..nj])
    ensures NoEarlierMatch(a, oi, oj + 1, b, ni, nj)
    ensures Numel(a[oi..oj + 1]) == Numel(a[oi..oj]) * a[oj]
  {
    SliceNumel(a, oi, oj);
    SliceNumel(a, oi, oj + 1);
    FactorsPositive(Numel(a[oi..oj + 1]), Numel(a[oj + 1..]), 0);
    var was, now := Numel(a[oi..oj]), Numel(a[oi..oj + 1]);
    FactorsPositive(was, a[oj], 0);
    MulLe(1, a[oj], was);
    assert was <= now;
    forall y | ni < y < nj ensures HeadBelow(b, ni, y, now) {
      assert HeadBelow(b, ni, y, was);
    }
    forall x, y | oi < x < oj + 1 && ni < y < nj ensures HeadsDiffer(a[oi..x], b[ni..y]) {
      assert HeadBelow(b, ni, y, was);
    }
  }

  lemma MatchedHeads(a: seq<nat>, oi: nat, oj: nat, b: seq<nat>, ni: nat, nj: nat)
    requires NoEarlierMatch(a, oi, oj, b, ni, nj)
    ensures NoCommonHead(a[oi..oj], b[ni..nj])
  {
    forall i, j | 0 < i < |a[oi..oj]| && 0 < j < |b[ni..nj]| ensures HeadsDiffer(a[oi..oj][..i], b[ni..nj][..j]) {
      var x, y := oi + i, ni + j;
      assert a[oi..oj][..i] == a[oi..x] && b[ni..nj][..j] == b[ni..y];
      assert HeadsDiffer(a[oi..x], b[ni..y]);
    }
  }

  /** Takes axes from the side that lags behind until both groups have the same size. */
  method MatchGroup(olddims: seq<nat>, oi: nat, newShape: seq<nat>, ni: nat) returns (nj: nat, oj: nat)
    requires oi < |olddims| && ni < |newShape| && Numel(olddims[oi..]) == Numel(newShape[ni..]) > 0
    ensures ni < nj <= |newShape| && oi < oj <= |olddims|
    ensures Numel(newShape[ni..nj]) == Numel(olddims[oi..oj])
    ensures NoCommonHead(olddims[oi..oj], newShape[ni..nj])
  {
    nj, oj := ni + 1, oi + 1;
    var np, op := newShape[ni], olddims[oi];
    assert newShape[ni..nj] == [newShape[ni]] && olddims[oi..oj] == [olddims[oi]];
    SingleNumel(np);
    SingleNumel(op);
    while np != op
      invariant NoEarlierMatch(olddims, oi, oj, newShape, ni, nj)
      invariant np == Numel(newShape[ni..nj]) && op == Numel(olddims[oi..oj])
      decreases |newShape| - nj + |olddims| - oj
    {
      if np < op {
        MoreToTake(newShape, ni, nj, olddims, oi, oj);
        HeadsSwapped(olddims, oi, oj, newShape, ni, nj);
        TakeAnother(newShape, ni, nj, olddims, oi, oj);
        np := np * newShape[nj];
        nj := nj + 1;
        HeadsSwapped(newShape, ni, nj, olddims, oi, oj);
      } else {
        MoreToTake(olddims, oi, oj, newShape, ni, nj);
        TakeAnother(olddims, oi, oj, newShape, ni, nj);
        op := op * olddims[oj];
        oj := oj + 1;
      }
    }
    MatchedHeads(olddims, oi, oj, newShape, ni, nj);
  }

  /** Whether the original axes of a group can be combined. */
  method CanCombine(olddims: seq<nat>, oldstrides: seq<int>, oi: nat, oj: nat) returns (ok: bool)
    requires oi < oj <= |olddims| == |oldstrides|
    ensures ok <==> Contiguous(olddims[oi..oj], oldstrides[oi..oj])
  {
    var d, s := olddims[oi..oj], oldstrides[oi..oj];
    for k := oi to oj - 1
      invariant forall j :: 0 <= j < k - oi ==> s[j] == d[j + 1] * s[j + 1]
    {
      assert d[k - oi + 1] == olddims[k + 1] && s[k - oi + 1] == oldstrides[k + 1] && s[k - oi] == oldstrides[k];
      if oldstrides[k] != olddims[k + 1] * oldstrides[k + 1] {
        return false;
      }
    }
    ok := true;
  }

  /** Strides for the new axes of a group, last axis first. */
  method GroupStrides(newShape: seq<nat>, strides: seq<int>, ni: nat, nj: nat, last: int) returns (r: seq<int>)
    requires ni < nj <= |newShape| == |strides|
    ensures |r| == |strides| && r[..ni] == strides[..ni] && r[nj - 1] == last
    ensures Contiguous(newShape[ni..nj], r[ni..nj])
  {
    r := strides[nj - 1 := last];
    var nk := nj - 1;
    while nk > ni
      invariant ni <= nk <= nj - 1 && |r| == |strides|
      invariant forall j :: 0 <= j < ni ==> r[j] == strides[j]
      invariant r[nj - 1] == last
      invariant forall j :: nk <= j < nj - 1 ==> r[j] == r[j + 1] * newShape[j + 1]
    {
      r := r[nk - 1 := r[nk] * newShape[nk]];
      nk := nk - 1;
    }
    assert r[..ni] == strides[..ni];
    forall k | 0 <= k < nj - ni - 1 ensures r[ni..nj][k] == newShape[ni..nj][k + 1] * r[ni..nj][k + 1] {
      assert r[ni + k] == r[ni + k + 1] * newShape[ni + k + 1];
    }
  }

  // ------------------------------------------------------- linear indexing

  /** Every position lies at a fixed multiple of itself. */
  ghost predicate LinearAddresses(shape: seq<nat>, strides: seq<int>, u: int)
    requires |strides| == |shape|
  {
    forall p: nat :: p < Numel(shape) ==> LinearAt(shape, strides, u, p)
  }

  ghost predicate LinearAt(shape: seq<nat>, strides: seq<int>, u: int, p: nat)
    requires |strides| == |shape|
  {
    p < Numel(shape) && FlatDot(p, shape, strides) == p * u
  }

  /** `can_use_fast_indexing`: says yes exactly when some stride makes all addresses linear. */
  method CanUseFastIndexing(shape: seq<nat>, strides: seq<int>) returns (ok: bool, stride: int)
    requires |strides| == |shape|
    ensures ok ==> LinearAddresses(shape, strides, stride)
    ensures Numel(shape) > 0 && !ok ==> !exists u :: LinearAddresses(shape, strides, u)
  {
    var d, s := StripAxes(shape, strides);
    StripLength(shape, strides);
    StripSame(shape, strides);
    if |d| == 0 {
      ScalarIsLinear(shape, strides);
      return true, 0;
    }
    stride := s[|s| - 1];
    var compact := MakeCompactStrides(d);
    ok := MatchesCompact(d, s, compact, stride);
    if !ok {
      NotLinear(shape, strides, d, s);
      return false, 0;
    }
    StrippedLinear(shape, strides, d, s, stride);
  }

  /** Whether the strides are the compact ones times `stride`. */
  method MatchesCompact(d: seq<nat>, s: seq<int>, compact: seq<int>, stride: int) returns (ok: bool)
    requires |s| == |d| && compact == CompactStrides(d) && forall j :: 0 <= j < |d| ==> d[j] != 1
    ensures ok <==> LinearFrom(d, s, 0, stride)
  {
    for k := 0 to |compact|
      invariant forall j :: 0 <= j < k ==> LinearAxis(d, s, j, stride)
    {
      CompactAxis(d, s, k, stride);
      if stride * compact[k] != s[k] {
        return false;
      }
    }
    ok := true;
  }

  lemma CompactAxis(d: seq<nat>, s: seq<int>, k: nat, u: int)
    requires |s| == |d| > k && d[k] != 1
    ensures u * CompactStrides(d)[k] == s[k] <==> LinearAxis(d, s, k, u)
  {
    CompactAt(d);
    MulComm(u, CompactStrides(d)[k], Numel(d[k + 1..]));
  }

  lemma MulComm(u: int, a: int, b: int)
    requires a == b
    ensures u * a == b * u
  {
  }

  lemma ScalarIsLinear(shape: seq<nat>, strides: seq<int>)
    requires |strides| == |shape| && StripShape(shape) == []
    ensures LinearAddresses(shape, strides, 0)
  {
    StripSame(shape, strides);
    forall p: nat | p < Numel(shape) ensures LinearAt(shape, strides, 0, p) {
      assert SameAt(shape, strides, [], [], p);
    }
  }

  lemma StrippedLinear(shape: seq<nat>, strides: seq<int>, d: seq<nat>, s: seq<int>, u: int)
    requires |strides| == |shape| && |s| == |d| && SameLayout(shape, strides, d, s) && LinearFrom(d, s, 0, u)
    ensures LinearAddresses(shape, strides, u)
  {
    forall p: nat | p < Numel(shape) ensures LinearAt(shape, strides, u, p) {
      assert SameAt(shape, strides, d, s, p) && d[0..] == d;
      LinearFromDot(d, s, 0, u, p);
    }
  }

  /** Strides that are not the compact ones times the last one rule out linear addresses. */
  lemma NotLinear(shape: seq<nat>, strides: seq<int>, d: seq<nat>, s: seq<int>)
    requires |strides| == |shape| && |s| == |d| > 0 && SameLayout(shape, strides, d, s)
    requires forall j :: 0 <= j < |d| ==> d[j] != 1 && (Numel(shape) > 0 ==> d[j] > 0)
    requires !LinearFrom(d, s, 0, s[|s| - 1])
    ensures Numel(shape) > 0 ==> !exists u :: LinearAddresses(shape, strides, u)
  {
    if Numel(shape) > 0 && exists u :: LinearAddresses(shape, strides, u) {
      var u :| LinearAddresses(shape, strides, u);
      LinearStrides(shape, strides, d, s, u);
    }
  }

  lemma LinearStrides(shape: seq<nat>, strides: seq<int>, d: seq<nat>, s: seq<int>, u: int)
    requires |strides| == |shape| && |s| == |d| > 0 && SameLayout(shape, strides, d, s)
    requires Numel(shape) > 0 && LinearAddresses(shape, strides, u) && forall j :: 0 <= j < |d| ==> d[j] >= 2
    ensures LinearFrom(d, s, 0, u) && u == s[|s| - 1]
  {
    forall k | 0 <= k < |d| ensures LinearAxis(d, s, k, u) {
      UnitPosition(d, s, k);
      var p := Numel(d[k + 1..]);
      assert SameAt(shape, strides, d, s, p) && LinearAt(shape, strides, u, p);
    }
    assert LinearAxis(d, s, |d| - 1, u) && d[|d| - 1 + 1..] == [];
  }

  /** A linear layout can be flattened without a copy. */
  lemma LinearFlattens(shape: seq<nat>, strides: seq<int>, u: int)
    requires |strides| == |shape| && LinearAddresses(shape, strides, u)
    ensures Numel([Numel(shape)]) == Numel(shape) && HasStrides(shape, strides, [Numel(shape)])
  {
    var n := Numel(shape);
    SingleNumel(n);
    forall p: nat | p < n ensures SameAt(shape, strides, [n], [u], p) {
      assert LinearAt(shape, strides, u, p);
      ContiguousIsLinear(p, [n], [u]);
    }
    assert SameAddresses(shape, strides, [n], [u]);
  }
}

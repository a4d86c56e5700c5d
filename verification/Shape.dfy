/** Row-major index arithmetic: `src/libspu/core/shape.h`, `src/libspu/core/shape.cc`. */
module Shape {
  import opened Arith

  /** Number of elements of a shape. */
  function Numel(shape: seq<nat>): nat {
    if shape == [] then 1 else shape[0] * Numel(shape[1..])
  }

  predicate InBounds(idx: seq<int>, shape: seq<nat>) {
    |idx| == |shape| && forall k :: 0 <= k < |shape| ==> 0 <= idx[k] < shape[k]
  }

  /** Sum of index times stride over all axes. */
  function Dot(idx: seq<int>, strides: seq<int>): int
    requires |idx| == |strides|
  {
    if idx == [] then 0 else idx[0] * strides[0] + Dot(idx[1..], strides[1..])
  }

  /** The index at row-major position `p`. */
  function Unflatten(p: nat, shape: seq<nat>): (idx: seq<int>)
    requires p < Numel(shape)
    ensures |idx| == |shape|
    decreases |shape|
  {
    if shape == [] then []
    else
      var n := Numel(shape[1..]);
      TailPositive(shape, p);
      DivBounds(p, n);
      [p / n] + Unflatten(p % n, shape[1..])
  }

  lemma TailPositive(shape: seq<nat>, p: nat)
    requires shape != [] && p < Numel(shape)
    ensures Numel(shape[1..]) > 0 && 0 <= p / Numel(shape[1..]) < shape[0]
  {
    var n := Numel(shape[1..]);
    FactorsPositive(shape[0], n, p);
    DivLt(p, shape[0], n);
  }

  /** The row-major position of an index. */
  function Flatten(idx: seq<int>, shape: seq<nat>): int
    requires |idx| == |shape|
  {
    if idx == [] then 0 else idx[0] * Numel(shape[1..]) + Flatten(idx[1..], shape[1..])
  }

  lemma {:induction false} UnflattenInBounds(p: nat, shape: seq<nat>)
    requires p < Numel(shape)
    ensures InBounds(Unflatten(p, shape), shape)
    ensures Flatten(Unflatten(p, shape), shape) == p
    decreases |shape|
  {
    if shape != [] {
      var n := Numel(shape[1..]);
      TailPositive(shape, p);
      DivBounds(p, n);
      UnflattenInBounds(p % n, shape[1..]);
      var idx := Unflatten(p, shape);
      assert idx[1..] == Unflatten(p % n, shape[1..]);
      forall k | 0 <= k < |shape| ensures 0 <= idx[k] < shape[k] {
        if k > 0 { assert idx[k] == idx[1..][k - 1]; }
      }
    }
  }

  lemma {:induction false} FlattenInverse(idx: seq<int>, shape: seq<nat>)
    requires InBounds(idx, shape)
    ensures 0 <= Flatten(idx, shape) < Numel(shape)
    ensures Unflatten(Flatten(idx, shape), shape) == idx
  {
    if shape != [] {
      var n := Numel(shape[1..]);
      assert InBounds(idx[1..], shape[1..]);
      FlattenInverse(idx[1..], shape[1..]);
      var r := Flatten(idx[1..], shape[1..]);
      FlattenStep(idx[0], shape[0], n, r, Flatten(idx, shape));
      assert idx == [idx[0]] + idx[1..];
    }
  }

  lemma FlattenStep(i: int, a: nat, n: nat, r: int, p: int)
    requires 0 <= i < a && 0 <= r < n && p == i * n + r
    ensures 0 <= p < a * n && p / n == i && p % n == r
  {
    MulLe(i + 1, a, n);
    MulLe(0, i, n);
    assert (i + 1) * n == i * n + n;
    DivModUnique(p, n, i, r);
  }

  /** An index exists exactly when the shape is not empty. */
  lemma {:induction false} NumelPositive(shape: seq<nat>)
    ensures Numel(shape) > 0 <==> forall k :: 0 <= k < |shape| ==> shape[k] > 0
  {
    if shape != [] {
      NumelPositive(shape[1..]);
      assert Numel(shape) == shape[0] * Numel(shape[1..]);
      if shape[0] > 0 && Numel(shape[1..]) > 0 {
        MulLt(0, shape[0], Numel(shape[1..]));
        forall k | 0 <= k < |shape| ensures shape[k] > 0 {
          if k > 0 { assert shape[k] == shape[1..][k - 1]; }
        }
      } else if shape[0] > 0 {
        var k :| 0 <= k < |shape[1..]| && shape[1..][k] == 0;
        assert shape[k + 1] == 0;
      }
    }
  }

  lemma {:induction false} NumelAppend(a: seq<nat>, b: seq<nat>)
    ensures Numel(a + b) == Numel(a) * Numel(b)
  {
    if a == [] {
      assert a + b == b;
    } else {
      assert (a + b)[1..] == a[1..] + b;
      NumelAppend(a[1..], b);
      MulAssoc(a[0], Numel(a[1..]), Numel(b));
    }
  }

  /** Strides of a freshly allocated array; axes of size 1 get stride 0. */
  function CompactStrides(shape: seq<nat>): (s: seq<int>)
    ensures |s| == |shape|
  {
    if shape == [] then [] else [if shape[0] == 1 then 0 else Numel(shape[1..])] + CompactStrides(shape[1..])
  }

  /** With compact strides an element lies at its row-major position. */
  lemma {:induction false} CompactDot(idx: seq<int>, shape: seq<nat>)
    requires InBounds(idx, shape)
    ensures Dot(idx, CompactStrides(shape)) == Flatten(idx, shape)
  {
    if shape != [] {
      assert InBounds(idx[1..], shape[1..]);
      CompactDot(idx[1..], shape[1..]);
      assert CompactStrides(shape)[1..] == CompactStrides(shape[1..]);
    }
  }

  // ------------------------------------------------------- the source's loops

  /** `makeCompactStrides`: last axis first, then the axes of size 1 are cleared. */
  method MakeCompactStrides(shape: seq<nat>) returns (strides: seq<int>)
    ensures strides == CompactStrides(shape)
  {
    var size := |shape|;
    strides := seq(size, _ => 0);
    var dim := size;
    while dim > 0
      invariant 0 <= dim <= size && |strides| == size
      invariant forall k :: dim <= k < size ==> strides[k] == Numel(shape[k + 1..])
    {
      var s := if dim == size then 1 else strides[dim] * shape[dim];
      assert dim < size ==> shape[dim..][1..] == shape[dim + 1..];
      strides := strides[dim - 1 := s];
      dim := dim - 1;
    }
    for d := 0 to size
      invariant |strides| == size
      invariant forall k :: 0 <= k < size ==> strides[k] == if k < d && shape[k] == 1 then 0 else Numel(shape[k + 1..])
    {
      if shape[d] == 1 {
        strides := strides[d := 0];
      }
    }
    CompactAt(shape);
  }

  lemma {:induction false} CompactAt(shape: seq<nat>)
    ensures forall k :: 0 <= k < |shape| ==>
              CompactStrides(shape)[k] == if shape[k] == 1 then 0 else Numel(shape[k + 1..])
  {
    if shape != [] {
      CompactAt(shape[1..]);
      forall k | 0 <= k < |shape|
        ensures CompactStrides(shape)[k] == if shape[k] == 1 then 0 else Numel(shape[k + 1..])
      {
        if k > 0 {
          assert shape[1..][k - 1 + 1..] == shape[k + 1..];
        }
      }
    }
  }

  /** `unflattenIndex`: digits from the last axis to the first. */
  method UnflattenIndex(index: nat, shape: seq<nat>) returns (unflattened: seq<int>)
    requires index < Numel(shape)
    ensures unflattened == Unflatten(index, shape)
  {
    unflattened := seq(|shape|, _ => 0);
    var rest: nat := index;
    var k := |shape|;
    ghost var full := Unflatten(index, shape);
    assert shape[..k] == shape && shape[k..] == [];
    while k > 0
      invariant 0 <= k <= |shape| && |unflattened| == |shape|
      invariant Unwinds(full, shape, rest, k, unflattened)
    {
      LastPositive(shape, k, rest);
      var d := shape[k - 1];
      UnflattenMore(full, shape, rest, k, unflattened, rest / d, rest % d);
      k := k - 1;
      unflattened := unflattened[k := rest % d];
      rest := rest / d;
    }
    assert shape[..0] == [];
  }

  /** The coordinates from `k` on are in place; `rest` stands for the ones before. */
  ghost predicate Unwinds(full: seq<int>, shape: seq<nat>, rest: nat, k: nat, u: seq<int>) {
    k <= |shape| == |u| && rest < Numel(shape[..k]) && full == Unflatten(rest, shape[..k]) + u[k..]
  }

  lemma LastPositive(shape: seq<nat>, k: nat, rest: nat)
    requires 0 < k <= |shape| && rest < Numel(shape[..k])
    ensures shape[k - 1] > 0
  {
    NumelPositive(shape[..k]);
    assert shape[..k][k - 1] == shape[k - 1];
  }

  /** One more coordinate of the row-major index, from the back. */
  lemma UnflattenMore(full: seq<int>, shape: seq<nat>, rest: nat, k: nat, u: seq<int>, q: nat, r: nat)
    requires k > 0 && Unwinds(full, shape, rest, k, u) && shape[k - 1] > 0
    requires q == rest / shape[k - 1] && r == rest % shape[k - 1]
    ensures Unwinds(full, shape, q, k - 1, u[k - 1 := r])
  {
    var a, d := shape[..k - 1], shape[k - 1];
    assert shape[..k] == a + [d];
    UnflattenLast(rest, a, d);
    LastReplaced(u, k - 1, r);
    assert full == Unflatten(q, a) + [r] + u[k..];
  }

  lemma LastReplaced(u: seq<int>, k: nat, r: int)
    requires k < |u|
    ensures u[k := r][k..] == [r] + u[k + 1..]
  {
  }

  lemma {:induction false} UnflattenLast(p: nat, a: seq<nat>, d: nat)
    requires p < Numel(a + [d])
    ensures d > 0 && p / d < Numel(a) && Unflatten(p, a + [d]) == Unflatten(p / d, a) + [p % d]
    decreases |a|
  {
    NumelAppend(a, [d]);
    assert Numel([d]) == d;
    FactorsPositive(Numel(a), d, p);
    DivLt(p, Numel(a), d);
    if a == [] {
      assert a + [d] == [d];
      assert Unflatten(p, [d]) == [p / 1] + Unflatten(p % 1, []);
      DivModUnique(p, d, 0, p);
    } else {
      var n := Numel(a[1..]);
      assert (a + [d])[1..] == a[1..] + [d];
      NumelAppend(a[1..], [d]);
      TailPositive(a, p / d);
      TailPositive(a + [d], p);
      DivDiv(p, n, d);
      DivBounds(p, n * d);
      UnflattenLast(p % (n * d), a[1..], d);
    }
  }

  /** `bumpIndices`: the next index in row-major order; the last index stays where it is. */
  method BumpIndices(shape: seq<nat>, indices: seq<int>) returns (ok: bool, next: seq<int>)
    requires InBounds(indices, shape)
    ensures ok <==> Flatten(indices, shape) + 1 < Numel(shape)
    ensures ok ==> InBounds(next, shape) && Flatten(next, shape) == Flatten(indices, shape) + 1
    ensures !ok ==> next == indices
  {
    var dimno := |indices| - 1;
    FlattenInverse(indices, shape);
    assert indices[|shape|..] == [] && shape[|shape|..] == [];
    while dimno >= 0
      invariant -1 <= dimno < |shape| && AtEnd(indices, shape, dimno + 1)
      decreases dimno
    {
      var limit := shape[dimno];
      if indices[dimno] + 1 < limit {
        next := indices[..dimno] + [indices[dimno] + 1] + seq(|shape| - dimno - 1, _ => 0);
        BumpedAt(indices, next, shape, dimno);
        FlattenInverse(next, shape);
        return true, next;
      }
      OneMoreAtEnd(indices, shape, dimno);
      dimno := dimno - 1;
    }
    assert indices[0..] == indices && shape[0..] == shape;
    return false, indices;
  }

  /** The coordinates from `k` on are the last ones of their axes. */
  ghost predicate AtEnd(idx: seq<int>, shape: seq<nat>, k: nat) {
    k <= |shape| == |idx| && Flatten(idx[k..], shape[k..]) + 1 == Numel(shape[k..])
  }

  lemma OneMoreAtEnd(idx: seq<int>, shape: seq<nat>, d: nat)
    requires d < |shape| && AtEnd(idx, shape, d + 1) && idx[d] + 1 == shape[d]
    ensures AtEnd(idx, shape, d)
  {
    assert shape[d..][1..] == shape[d + 1..] && idx[d..][1..] == idx[d + 1..];
    OneMore(idx[d], Numel(shape[d + 1..]));
  }

  lemma {:induction false} FlattenZeros(z: seq<int>, shape: seq<nat>)
    requires |z| == |shape| && forall k :: 0 <= k < |z| ==> z[k] == 0
    ensures Flatten(z, shape) == 0
  {
    if z != [] {
      FlattenZeros(z[1..], shape[1..]);
    }
  }

  lemma BumpedAt(idx: seq<int>, next: seq<int>, shape: seq<nat>, d: nat)
    requires InBounds(idx, shape) && d < |shape| && |next| == |idx|
    requires next[..d] == idx[..d] && next[d] == idx[d] + 1 < shape[d]
    requires forall k :: d < k < |next| ==> next[k] == 0
    requires Flatten(idx[d + 1..], shape[d + 1..]) + 1 == Numel(shape[d + 1..])
    ensures InBounds(next, shape) && Flatten(next, shape) == Flatten(idx, shape) + 1
  {
    forall k | 0 <= k < d ensures next[k] == idx[k] {
      assert next[..d][k] == idx[..d][k];
    }
    BumpedFlatten(idx, next, shape, d);
  }

  lemma {:induction false} BumpedFlatten(idx: seq<int>, next: seq<int>, shape: seq<nat>, d: nat)
    requires |next| == |idx| == |shape| > d && next[d] == idx[d] + 1
    requires (forall k :: 0 <= k < d ==> next[k] == idx[k]) && forall k :: d < k < |next| ==> next[k] == 0
    requires Flatten(idx[d + 1..], shape[d + 1..]) + 1 == Numel(shape[d + 1..])
    ensures Flatten(next, shape) == Flatten(idx, shape) + 1
    decreases d
  {
    if d == 0 {
      FlattenZeros(next[1..], shape[1..]);
      OneMore(idx[0], Numel(shape[1..]));
    } else {
      assert idx[1..][d - 1 + 1..] == idx[d + 1..] && shape[1..][d - 1 + 1..] == shape[d + 1..];
      BumpedFlatten(idx[1..], next[1..], shape[1..], d - 1);
    }
  }

  lemma OneMore(i: int, n: int)
    ensures (i + 1) * n == i * n + n
  {
  }
}

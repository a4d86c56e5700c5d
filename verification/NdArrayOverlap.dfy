/** Copies between overlapping arrays: `copy_slice` and `update_slice`, `src/libspu/core/ndarray_ref.cc`. */
module NdArrayOverlap {
  import opened Arith
  import opened Shape
  import opened Reshape
  import opened Views
  import opened Copying
  import opened NdArray
  import opened NdArrayOps

  /** Copying `n` elements within a buffer puts the source's original elements in place. */
  ghost predicate SliceRight(b: seq<int>, size: nat, src: Layout, p: nat, dst: Layout, q: nat, n: nat)
    requires InBuffer(src, size) && InBuffer(dst, size) && p + n <= Numel(src.shape) && q + n <= Numel(dst.shape)
  {
    |b| == size ==>
      CopyRun(b, Places(src, p, n, size), Places(dst, q, n, size), n) ==
      Written(b, dst, q, Contents(b, src)[p..][..n], n)
  }

  /** `copy_slice` between arrays on one buffer is right, whatever it holds, exactly when the copy is clean. */
  lemma SliceRightIff(size: nat, src: Layout, srcBase: seq<int>, dst: Layout, dstBase: seq<int>, n: nat)
    requires InBuffer(src, size) && InBuffer(dst, size) && OneToOne(dst)
    requires HoldsFrom(srcBase, src.shape, n) && HoldsFrom(dstBase, dst.shape, n)
    ensures var p, q := Flatten(srcBase, src.shape), Flatten(dstBase, dst.shape);
      CopiesClean(src, p, dst, q, n, size) <==> forall b: seq<int> :: SliceRight(b, size, src, p, dst, q, n)
  {
    var p, q := Flatten(srcBase, src.shape), Flatten(dstBase, dst.shape);
    if CopiesClean(src, p, dst, q, n, size) {
      forall b: seq<int> ensures SliceRight(b, size, src, p, dst, q, n) {
        if |b| == size { CleanWritten(b, src, p, dst, q, n); }
      }
    } else {
      var b := Numbered(size);
      var k := MissedPlace(size, src, p, dst, q, n);
      assert !SliceRight(b, size, src, p, dst, q, n);
    }
  }

  /** A place that an unclean copy gets wrong. */
  lemma MissedPlace(size: nat, src: Layout, p: nat, dst: Layout, q: nat, n: nat) returns (k: nat)
    requires InBuffer(src, size) && InBuffer(dst, size) && OneToOne(dst)
    requires p + n <= Numel(src.shape) && q + n <= Numel(dst.shape) && !CopiesClean(src, p, dst, q, n, size)
    ensures k < n && AddrIn(dst, size, q + k)
    ensures var b := Numbered(size);
      var at, vals := Addr(dst, q + k), Contents(b, src)[p..][..n];
      CopyRun(b, Places(src, p, n, size), Places(dst, q, n, size), n)[at] != vals[k] == Written(b, dst, q, vals, n)[at]
  {
    var b, from, to := Numbered(size), Places(src, p, n, size), Places(dst, q, n, size);
    PlacesDifferent(dst, q, n, size);
    k := UncleanCopy(b, from, to, n);
    PlaceAt(dst, q, n, size, k);
    ElementsInPlace(b, src, p, n);
    WrittenHit(b, dst, q, Contents(b, src)[p..][..n], n, q + k);
  }

  /** The window takes the value's original elements and nothing else changes. */
  ghost predicate UpdateRight(b: seq<int>, size: nat, v: Layout, l: Layout, start: seq<int>)
    requires InBuffer(v, size) && InBuffer(l, size) && WindowFits(l.shape, start, v.shape)
  {
    |b| == size ==>
      Updated(Contents(AfterUpdate(b, v, l, start), l), Contents(b, l), l.shape, Contents(b, v), start, v.shape)
  }

  /** `update_slice` from a value on the same buffer is right, whatever it holds, exactly when the copy is clean. */
  lemma UpdateRightIff(size: nat, v: Layout, l: Layout, start: seq<int>)
    requires InBuffer(v, size) && InBuffer(l, size) && WindowFits(l.shape, start, v.shape)
    requires NoClash(l) && (Numel(l.shape) > 0 ==> NoZeroStride(l))
    ensures CopiesClean(v, 0, WindowLayout(l, start, v.shape), 0, Numel(v.shape), size) <==>
            forall b: seq<int> :: UpdateRight(b, size, v, l, start)
  {
    var w, n := WindowLayout(l, start, v.shape), Numel(v.shape);
    WindowInBuffer(l, start, v.shape, size);
    WindowOneToOne(l, start, v.shape);
    if CopiesClean(v, 0, w, 0, n, size) {
      forall b: seq<int> ensures UpdateRight(b, size, v, l, start) {
        if |b| == size { CleanUpdate(b, v, l, start); }
      }
    } else {
      var b := Numbered(size);
      var k := MissedPlace(size, v, 0, w, 0, n);
      WholeContents(b, v);
      if UpdateRight(b, size, v, l, start) {
        WindowShows(AfterUpdate(b, v, l, start), b, v, l, start, k);
        assert false;
      }
    }
  }

  lemma WholeContents(b: seq<int>, v: Layout)
    requires InBuffer(v, |b|)
    ensures Contents(b, v)[0..][..Numel(v.shape)] == Contents(b, v)
  {
  }

  lemma CleanUpdate(b: seq<int>, v: Layout, l: Layout, start: seq<int>)
    requires InBuffer(v, |b|) && InBuffer(l, |b|) && WindowFits(l.shape, start, v.shape)
    requires NoClash(l) && (Numel(l.shape) > 0 ==> NoZeroStride(l))
    requires CopiesClean(v, 0, WindowLayout(l, start, v.shape), 0, Numel(v.shape), |b|)
    ensures UpdateRight(b, |b|, v, l, start)
  {
    WindowOneToOne(l, start, v.shape);
    WholeContents(b, v);
    CleanWritten(b, v, 0, WindowLayout(l, start, v.shape), 0, Numel(v.shape));
    WindowWritten(b, l, start, v.shape, Contents(b, v));
  }

  /** The position in the array of element `k` of the window. */
  lemma PlaceOfWindow(l: Layout, start: seq<int>, extent: seq<nat>, k: nat) returns (p: nat)
    requires l.Wf() && WindowFits(l.shape, start, extent) && k < Numel(extent)
    ensures p < Numel(l.shape) && InWindow(Unflatten(p, l.shape), start, extent)
    ensures Offsets(Unflatten(p, l.shape), start) == Unflatten(k, extent)
    ensures WindowLayout(l, start, extent).shape == extent && Addr(l, p) == Addr(WindowLayout(l, start, extent), k)
  {
    var i := WindowPosition(l, start, extent, k);
    FlattenInverse(i, l.shape);
    p := Flatten(i, l.shape);
  }

  lemma UpdatedShows(now: seq<int>, was: seq<int>, shape: seq<nat>, vals: seq<int>, start: seq<int>, extent: seq<nat>,
                     p: nat, k: nat)
    requires Updated(now, was, shape, vals, start, extent) && p < Numel(shape) && k < Numel(extent)
    requires InWindow(Unflatten(p, shape), start, extent) && Offsets(Unflatten(p, shape), start) == Unflatten(k, extent)
    ensures now[p] == vals[k]
  {
    assert UpdatedAt(now, was, shape, vals, start, extent, p);
    UnflattenInBounds(k, extent);
  }

  /** After an update the window shows the value. */
  lemma WindowShows(now: seq<int>, b: seq<int>, v: Layout, l: Layout, start: seq<int>, k: nat)
    requires |now| == |b| && InBuffer(v, |b|) && InBuffer(l, |b|) && WindowFits(l.shape, start, v.shape)
    requires Updated(Contents(now, l), Contents(b, l), l.shape, Contents(b, v), start, v.shape) && k < Numel(v.shape)
    ensures WindowLayout(l, start, v.shape).shape == v.shape && AddrIn(WindowLayout(l, start, v.shape), |b|, k)
    ensures now[Addr(WindowLayout(l, start, v.shape), k)] == Contents(b, v)[k]
  {
    var p := PlaceOfWindow(l, start, v.shape, k);
    UpdatedShows(Contents(now, l), Contents(b, l), l.shape, Contents(b, v), start, v.shape, p, k);
    ContentsAt(now, l, p);
  }

  // ------------------------------------------------------------ a copy that goes wrong

  /** `n` consecutive elements. */
  function Run(n: nat, off: nat): (l: Layout)
    ensures l.Wf()
  {
    Layout([n], [1], off)
  }

  lemma RunFits(n: nat, off: nat, size: nat)
    requires n >= 2 && off + n <= size
    ensures InBuffer(Run(n, off), size) && Numel([n]) == n
    ensures forall p: nat :: p < n ==> Addr(Run(n, off), p) == off + p
  {
    SingleNumel(n);
    CompactAt([n]);
    assert CompactStrides([n]) == [1];
    CompactFrom([n], off, size);
  }

  lemma RunPlaces(n: nat, off: nat, size: nat)
    requires n >= 2 && off + n <= size
    ensures InBuffer(Run(n, off), size) && Numel([n]) == n
    ensures forall j :: 0 <= j < n ==> Places(Run(n, off), 0, n, size)[j] == off + j
  {
    RunFits(n, off, size);
    forall j | 0 <= j < n ensures Places(Run(n, off), 0, n, size)[j] == off + j {
      PlaceAt(Run(n, off), 0, n, size, j);
    }
  }

  lemma RunWindow(n: nat)
    requires n >= 2
    ensures WindowFits([n + 1], [1], [n]) && WindowLayout(Run(n + 1, 0), [1], [n]) == Run(n, 1)
  {
    var l, w := Run(n + 1, 0), WindowLayout(Run(n + 1, 0), [1], [n]);
    WindowHasExtent(l, [1], [n]);
    assert SliceStride(1, n + 1, 1, 1) == 1;
    assert w.strides == [1];
    assert Dot([1], [1]) == 1 + Dot([1][1..], [1][1..]) == 1;
  }

  /** Copying from every place to the next repeats the first element. */
  lemma {:induction false} ShiftedCopy(b: seq<int>, from: seq<nat>, to: seq<nat>, n: nat)
    requires InRange(from, |b|) && InRange(to, |b|) && n <= |from| && n <= |to| && n < |b|
    requires forall j :: 0 <= j < n ==> from[j] == j && to[j] == j + 1
    ensures forall a :: 0 <= a < |b| ==> CopyRun(b, from, to, n)[a] == if a <= n then b[0] else b[a]
  {
    if n > 0 {
      ShiftedCopy(b, from, to, n - 1);
    }
  }

  /** The first `n` of `n + 1` elements, written one place further: each step reads what the one before wrote. */
  lemma ShiftRepeatsTheFirst(b: seq<int>, n: nat)
    requires n >= 2 && |b| == n + 1
    ensures InBuffer(Run(n, 0), n + 1) && InBuffer(Run(n + 1, 0), n + 1) && WindowFits([n + 1], [1], [n])
    ensures AfterUpdate(b, Run(n, 0), Run(n + 1, 0), [1]) == seq(n + 1, _ => b[0])
  {
    var v, l, w, size := Run(n, 0), Run(n + 1, 0), Run(n, 1), n + 1;
    RunFits(n + 1, 0, size);
    RunPlaces(n, 0, size);
    RunPlaces(n, 1, size);
    RunWindow(n);
    var from, to := Places(v, 0, n, size), Places(w, 0, n, size);
    assert AfterUpdate(b, v, l, [1]) == CopyRun(b, from, to, n);
    ShiftedCopy(b, from, to, n);
  }

  lemma ShiftIsNotRight(b: seq<int>, n: nat)
    requires n >= 2 && |b| == n + 1 && b[0] != b[1]
    ensures InBuffer(Run(n, 0), n + 1) && InBuffer(Run(n + 1, 0), n + 1) && WindowFits([n + 1], [1], [n])
    ensures !UpdateRight(b, n + 1, Run(n, 0), Run(n + 1, 0), [1])
  {
    var v, l := Run(n, 0), Run(n + 1, 0);
    ShiftRepeatsTheFirst(b, n);
    RunFits(n, 0, n + 1);
    RunFits(n, 1, n + 1);
    RunWindow(n);
    if UpdateRight(b, n + 1, v, l, [1]) {
      ContentsAt(b, v, 1);
      WindowShows(AfterUpdate(b, v, l, [1]), b, v, l, [1], 1);
      assert false;
    }
  }

  /** Of 1, 2, 3 the first two, written one place further, leave 1, 1, 1 instead of 1, 1, 2. */
  lemma OverlappingUpdateGoesWrong(b: seq<int>, n: nat)
    requires b == [1, 2, 3] && n == 2
    ensures InBuffer(Run(n, 0), 3) && InBuffer(Run(n + 1, 0), 3) && WindowFits([n + 1], [1], [n])
    ensures AfterUpdate(b, Run(n, 0), Run(n + 1, 0), [1]) == [1, 1, 1]
    ensures !UpdateRight(b, 3, Run(n, 0), Run(n + 1, 0), [1])
  {
    ShiftRepeatsTheFirst(b, n);
    ShiftIsNotRight(b, n);
    assert seq(n + 1, _ => b[0]) == [1, 1, 1];
  }
}

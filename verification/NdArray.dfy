/** Arrays that refer to a shared buffer: `src/libspu/core/ndarray_ref.cc`, `src/libspu/core/ndarray_ref.h`. */
module NdArray {
  import opened Arith
  import opened Shape
  import opened Reshape
  import opened Views
  import opened Copying
  import opened Wrappers

  /** A result, or the exception of a failed check. */
  datatype Outcome<T> = Done(value: T) | Rejected

  // ---------------------------------------------------- layouts inside a buffer

  /** Address of row-major position `p`. */
  function Addr(l: Layout, p: nat): int
    requires l.Wf() && p < Numel(l.shape)
  {
    l.offset + FlatDot(p, l.shape, l.strides)
  }

  ghost predicate AddrIn(l: Layout, n: nat, p: nat)
    requires l.Wf()
  {
    p < Numel(l.shape) && 0 <= Addr(l, p) < n
  }

  /** All elements lie inside a buffer of `n` elements. */
  ghost predicate InBuffer(l: Layout, n: nat) {
    l.Wf() && forall p: nat :: p < Numel(l.shape) ==> AddrIn(l, n, p)
  }

  /** The elements in row-major order. */
  ghost function Contents<T>(b: seq<T>, l: Layout): (r: seq<T>)
    requires InBuffer(l, |b|)
    ensures |r| == Numel(l.shape)
  {
    FirstContents(b, l, Numel(l.shape))
  }

  ghost function FirstContents<T>(b: seq<T>, l: Layout, n: nat): (r: seq<T>)
    requires InBuffer(l, |b|) && n <= Numel(l.shape)
    ensures |r| == n
  {
    if n == 0 then [] else
      assert AddrIn(l, |b|, n - 1);
      FirstContents(b, l, n - 1) + [b[Addr(l, n - 1)]]
  }

  lemma {:induction false} FirstContentsAt<T>(b: seq<T>, l: Layout, n: nat, p: nat)
    requires InBuffer(l, |b|) && p < n <= Numel(l.shape)
    ensures AddrIn(l, |b|, p) && FirstContents(b, l, n)[p] == b[Addr(l, p)]
  {
    assert AddrIn(l, |b|, p);
    if p < n - 1 { FirstContentsAt(b, l, n - 1, p); }
  }

  lemma ContentsAt<T>(b: seq<T>, l: Layout, p: nat)
    requires InBuffer(l, |b|) && p < Numel(l.shape)
    ensures AddrIn(l, |b|, p) && Contents(b, l)[p] == b[Addr(l, p)]
  {
    FirstContentsAt(b, l, Numel(l.shape), p);
  }

  lemma ViewInBuffer(l': Layout, op: ViewOp, l: Layout, n: nat)
    requires IsView(l', op, l) && InBuffer(l, n)
    ensures InBuffer(l', n)
  {
    forall p: nat | p < Numel(l'.shape) ensures AddrIn(l', n, p) {
      var idx := Unflatten(p, l'.shape);
      UnflattenInBounds(p, l'.shape);
      assert ReadsAt(l', op, l, idx);
      var base := BaseIndex(op, l.shape, idx);
      FlattenInverse(base, l.shape);
      assert AddrIn(l, n, Flatten(base, l.shape));
    }
  }

  lemma CompactInBuffer(shape: seq<nat>, n: nat)
    requires Numel(shape) <= n
    ensures InBuffer(Layout(shape, CompactStrides(shape), 0), n)
    ensures forall p: nat :: p < Numel(shape) ==> Addr(Layout(shape, CompactStrides(shape), 0), p) == p
  {
    var l := Layout(shape, CompactStrides(shape), 0);
    forall p: nat | p < Numel(shape) ensures AddrIn(l, n, p) && Addr(l, p) == p {
      UnflattenInBounds(p, shape);
      CompactDot(Unflatten(p, shape), shape);
    }
  }

  /** A compact buffer is the elements. */
  lemma CompactContents<T>(b: seq<T>, shape: seq<nat>)
    requires |b| == Numel(shape)
    ensures InBuffer(Layout(shape, CompactStrides(shape), 0), |b|)
    ensures Contents(b, Layout(shape, CompactStrides(shape), 0)) == b
  {
    CompactInBuffer(shape, |b|);
    var l := Layout(shape, CompactStrides(shape), 0);
    forall p: nat | p < |b| ensures Contents(b, l)[p] == b[p] {
      ContentsAt(b, l, p);
    }
  }

  /** Equivalent layouts show the same elements. */
  lemma SameContents<T>(b: seq<T>, shape: seq<nat>, strides: seq<int>, to: seq<nat>, newStrides: seq<int>, offset: int)
    requires InBuffer(Layout(shape, strides, offset), |b|)
    requires |newStrides| == |to| && SameLayout(shape, strides, to, newStrides)
    ensures InBuffer(Layout(to, newStrides, offset), |b|)
    ensures Contents(b, Layout(to, newStrides, offset)) == Contents(b, Layout(shape, strides, offset))
  {
    var l, l' := Layout(shape, strides, offset), Layout(to, newStrides, offset);
    ReshapeIsView(l, to, newStrides);
    ViewInBuffer(l', ViewOp.Reshape(to), l, |b|);
    forall p: nat | p < Numel(to) ensures Contents(b, l')[p] == Contents(b, l)[p] {
      assert SameAt(shape, strides, to, newStrides, p);
      ContentsAt(b, l', p);
      ContentsAt(b, l, p);
    }
  }

  lemma ReverseNone(l: Layout)
    requires l.Wf()
    ensures ReverseRun(l, []) == l
  {
    ZeroSum(ReverseShifts(l, []));
    assert ReverseRun(l, []).strides == l.strides;
  }

  lemma OneMoreTime(times: nat, stride: int, n: nat)
    ensures Turned(times + 1, stride) == -Turned(times, stride)
    ensures ShiftOf(times + 1, stride, n) == ShiftOf(times, stride, n) + stride * (n - 1)
  {
    var v := stride * (n - 1);
    assert (times + 1) * v == times * v + v;
  }

  lemma ReverseOneMore(l: Layout, axes: seq<nat>, i: nat)
    requires l.Wf() && i < |axes| && axes[i] < |l.shape|
    ensures ReverseRun(l, axes[..i + 1]).strides ==
            ReverseRun(l, axes[..i]).strides[axes[i] := -ReverseRun(l, axes[..i]).strides[axes[i]]]
    ensures ReverseRun(l, axes[..i + 1]).offset ==
            ReverseRun(l, axes[..i]).offset + l.strides[axes[i]] * (l.shape[axes[i]] as int - 1)
  {
    var a, before, after := axes[i], axes[..i], axes[..i + 1];
    assert after == before + [a];
    assert forall k :: Times(after, k) == Times(before, k) + if k == a then 1 else 0;
    OneMoreTime(Times(before, a), l.strides[a], l.shape[a]);
    var v := ShiftOf(Times(after, a), l.strides[a], l.shape[a]);
    SumUpdate(ReverseShifts(l, before), a, v);
    assert ReverseShifts(l, after) == ReverseShifts(l, before)[a := v];
    assert ReverseRun(l, after).strides == ReverseRun(l, before).strides[a := -ReverseRun(l, before).strides[a]];
  }

  /** Without repeated axes the result is a view and stays in the buffer. */
  lemma ReverseSafe(l: Layout, axes: seq<nat>, n: nat)
    requires InBuffer(l, n) && Below(axes, |l.shape|)
    ensures IsView(ReverseRun(l, axes), ViewOp.Reverse(axes), l) <==> StepClear(ViewOp.Reverse(axes), l)
    ensures Distinct(axes) ==>
              StepClear(ViewOp.Reverse(axes), l) && InBuffer(ReverseRun(l, axes), n)
  {
    ComputesViewIff(ReverseRun(l, axes), ViewOp.Reverse(axes), l);
    if Distinct(axes) {
      DistinctHarmless(l, axes);
      ViewInBuffer(ReverseRun(l, axes), ViewOp.Reverse(axes), l, n);
    }
  }

  lemma {:induction false} SumUpdate(c: seq<int>, k: nat, v: int)
    requires k < |c|
    ensures Sum(c[k := v]) == Sum(c) - c[k] + v
  {
    if k == 0 {
      assert c[k := v][1..] == c[1..];
    } else {
      assert c[k := v][1..] == c[1..][k - 1 := v];
      SumUpdate(c[1..], k - 1, v);
    }
  }

  lemma ScatterSnoc(x: seq<int>, d: seq<nat>, n: nat, i: nat)
    requires |x| == |d| > i && Below(d, n)
    ensures Scatter(x[..i + 1], d[..i + 1], n) == Scatter(x[..i], d[..i], n)[d[i] := x[i]]
  {
    assert x[..i + 1][..i] == x[..i] && d[..i + 1][..i] == d[..i];
  }

  lemma ScatterTrailing(x: seq<int>, d: seq<nat>, n: nat, r: seq<int>)
    requires |x| == |d| <= n == |r| && Below(d, n) && Distinct(d)
    requires forall i :: 0 <= i < |d| ==> d[i] == n - |x| + i
    requires forall k :: 0 <= k < n ==> r[k] == if k >= n - |x| then x[k - (n - |x|)] else 0
    ensures r == Scatter(x, d, n)
  {
    ScatterAt(x, d, n);
    forall k | 0 <= k < n ensures r[k] == Scatter(x, d, n)[k] {
      if k >= n - |x| {
        assert d[k - (n - |x|)] == k;
      }
    }
  }

  method TransposeAxes(shape: seq<nat>, strides: seq<int>, perm: seq<nat>)
    returns (retShape: seq<nat>, retStrides: seq<int>)
    requires |strides| == |shape| == |perm| && Below(perm, |shape|)
    ensures retShape == Gather(shape, perm) && retStrides == Gather(strides, perm)
  {
    retShape, retStrides := seq(|shape|, _ => 0), seq(|shape|, _ => 0);
    for i := 0 to |shape|
      invariant |retShape| == |retStrides| == |shape|
      invariant forall j :: 0 <= j < i ==> retShape[j] == shape[perm[j]] && retStrides[j] == strides[perm[j]]
    {
      retShape, retStrides := retShape[i := shape[perm[i]]], retStrides[i := strides[perm[i]]];
    }
  }

  /** The loop of `reverse` over the listed axes. */
  method ReverseAxes(shape: seq<nat>, strides: seq<int>, axes: seq<nat>, ghost offset: int)
    returns (ok: bool, newStrides: seq<int>, elOffset: int)
    requires |strides| == |shape|
    ensures ok <==> Below(axes, |shape|)
    ensures ok ==> ReverseRun(Layout(shape, strides, offset), axes) == Layout(shape, newStrides, offset + elOffset)
  {
    ghost var l := Layout(shape, strides, offset);
    newStrides, elOffset := strides, 0;
    ReverseNone(l);
    for i := 0 to |axes|
      invariant Below(axes[..i], |shape|)
      invariant newStrides == ReverseRun(l, axes[..i]).strides
      invariant offset + elOffset == ReverseRun(l, axes[..i]).offset
    {
      var axis := axes[i];
      if axis >= |shape| {
        return false, newStrides, elOffset;
      }
      ReverseOneMore(l, axes, i);
      newStrides := newStrides[axis := newStrides[axis] * -1];
      elOffset := elOffset + strides[axis] * (shape[axis] as int - 1);
    }
    assert axes[..|axes|] == axes;
    ok := true;
  }

  /** The loops of `broadcast_to` over the listed or the trailing axes. */
  method BroadcastStrides(shape: seq<nat>, strides: seq<int>, to: seq<nat>, dims: seq<nat>)
    returns (newStrides: seq<int>)
    requires |strides| == |shape| && BroadcastFits(shape, to, dims)
    ensures newStrides == Scatter(strides, BroadcastAxes(shape, to, dims), |to|)
  {
    if dims != [] {
      newStrides := seq(|to|, _ => 0);
      ghost var d := BroadcastAxes(shape, to, dims);
      for i := 0 to |dims|
        invariant newStrides == Scatter(strides[..i], d[..i], |to|)
      {
        ScatterSnoc(strides, d, |to|, i);
        newStrides := newStrides[dims[i] := strides[i]];
      }
      assert strides[..|dims|] == strides && d[..|dims|] == d;
    } else {
      newStrides := TrailingStrides(strides, |to|);
      ScatterTrailing(strides, BroadcastAxes(shape, to, dims), |to|, newStrides);
    }
  }

  method TrailingStrides(strides: seq<int>, n: nat) returns (newStrides: seq<int>)
    requires |strides| <= n
    ensures |newStrides| == n
    ensures forall k :: 0 <= k < n ==> newStrides[k] == if k >= n - |strides| then strides[k - (n - |strides|)] else 0
  {
    newStrides := seq(n, _ => 0);
    for i := 0 to |strides|
      invariant |newStrides| == n
      invariant forall k :: 0 <= k < n ==> newStrides[k] == if k >= n - i then strides[k - (n - |strides|)] else 0
    {
      newStrides := newStrides[n - 1 - i := strides[|strides| - 1 - i]];
    }
  }

  /** Layouts without elements are the same. */
  lemma NothingSame(a: seq<nat>, s: seq<int>, b: seq<nat>, t: seq<int>)
    requires |s| == |a| && |t| == |b| && Numel(a) == Numel(b) == 0
    ensures SameLayout(a, s, b, t)
  {
  }

  /** The index of zeros is the first one, if there is any. */
  lemma StartAtZero(shape: seq<nat>)
    ensures InBounds(Zeros(|shape|), shape) <==> Numel(shape) > 0
    ensures Flatten(Zeros(|shape|), shape) == 0
  {
    FlattenZeros(Zeros(|shape|), shape);
    NumelPositive(shape);
    if InBounds(Zeros(|shape|), shape) { FlattenInverse(Zeros(|shape|), shape); }
  }

  // ------------------------------------------------------------ in-place writes

  ghost predicate ApartAt(l: Layout, p: nat, q: nat)
    requires l.Wf() && p < Numel(l.shape) && q < Numel(l.shape)
  {
    Addr(l, p) != Addr(l, q)
  }

  /** Different elements have different addresses. */
  ghost predicate OneToOne(l: Layout)
    requires l.Wf()
  {
    forall p: nat, q: nat :: p < q < Numel(l.shape) ==> ApartAt(l, p, q)
  }

  /** The addresses of `n` elements, from row-major position `p` on. */
  ghost function Places(l: Layout, p: nat, n: nat, size: nat): (r: seq<nat>)
    requires InBuffer(l, size) && p + n <= Numel(l.shape)
    ensures |r| == n && InRange(r, size)
  {
    if n == 0 then [] else
      assert AddrIn(l, size, p + n - 1);
      Places(l, p, n - 1, size) + [Addr(l, p + n - 1)]
  }

  lemma {:induction false} PlaceAt(l: Layout, p: nat, n: nat, size: nat, j: nat)
    requires InBuffer(l, size) && p + n <= Numel(l.shape) && j < n
    ensures AddrIn(l, size, p + j) && Places(l, p, n, size)[j] == Addr(l, p + j)
  {
    assert AddrIn(l, size, p + j);
    if j < n - 1 {
      PlaceAt(l, p, n - 1, size, j);
    }
  }

  lemma PlacesDifferent(l: Layout, p: nat, n: nat, size: nat)
    requires InBuffer(l, size) && p + n <= Numel(l.shape) && OneToOne(l)
    ensures AllDifferent(Places(l, p, n, size))
  {
    var r := Places(l, p, n, size);
    forall i, j | 0 <= i < j < n ensures r[i] != r[j] {
      PlaceAt(l, p, n, size, i);
      PlaceAt(l, p, n, size, j);
      assert ApartAt(l, p + i, p + j);
    }
  }

  /** The buffer after `n` positions of `w`, counted from `from`, have been given the first `n` values. */
  ghost function Written<T>(b: seq<T>, w: Layout, from: nat, vals: seq<T>, n: nat): (r: seq<T>)
    requires InBuffer(w, |b|) && from + n <= Numel(w.shape) && n <= |vals|
    ensures |r| == |b|
  {
    WriteAll(b, Places(w, from, n, |b|), vals, n)
  }

  lemma WrittenHit<T>(b: seq<T>, w: Layout, from: nat, vals: seq<T>, n: nat, p: nat)
    requires InBuffer(w, |b|) && OneToOne(w) && from <= p < from + n && n <= |vals| && from + n <= Numel(w.shape)
    ensures AddrIn(w, |b|, p) && Written(b, w, from, vals, n)[Addr(w, p)] == vals[p - from]
  {
    PlaceAt(w, from, n, |b|, p - from);
    PlacesDifferent(w, from, n, |b|);
    WriteHit(b, Places(w, from, n, |b|), vals, n, p - from);
  }

  /** Position `q` lies in the buffer, but not at address `a`. */
  ghost predicate Elsewhere(w: Layout, n: nat, q: nat, a: int)
    requires w.Wf()
  {
    AddrIn(w, n, q) && Addr(w, q) != a
  }

  lemma WrittenMiss<T>(b: seq<T>, w: Layout, from: nat, vals: seq<T>, n: nat, a: nat)
    requires InBuffer(w, |b|) && from + n <= Numel(w.shape) && n <= |vals| && a < |b|
    requires forall q: nat :: from <= q < from + n ==> Elsewhere(w, |b|, q, a)
    ensures Written(b, w, from, vals, n)[a] == b[a]
  {
    forall j | 0 <= j < n ensures Places(w, from, n, |b|)[j] != a {
      PlaceAt(w, from, n, |b|, j);
      assert Elsewhere(w, |b|, from + j, a);
    }
    WriteMiss(b, Places(w, from, n, |b|), vals, n, a);
  }

  lemma WrittenAt<T>(b: seq<T>, w: Layout, from: nat, vals: seq<T>, n: nat, p: nat)
    requires InBuffer(w, |b|) && OneToOne(w) && from + n <= Numel(w.shape) && n <= |vals| && p < Numel(w.shape)
    ensures Contents(Written(b, w, from, vals, n), w)[p] ==
            if from <= p < from + n then vals[p - from] else Contents(b, w)[p]
  {
    ContentsAt(Written(b, w, from, vals, n), w, p);
    ContentsAt(b, w, p);
    if from <= p < from + n {
      WrittenHit(b, w, from, vals, n, p);
    } else {
      forall q: nat | from <= q < from + n ensures Elsewhere(w, |b|, q, Addr(w, p)) {
        assert AddrIn(w, |b|, q);
        assert if p < q then ApartAt(w, p, q) else ApartAt(w, q, p);
      }
      WrittenMiss(b, w, from, vals, n, Addr(w, p));
    }
  }

  /** Without shared addresses, writing replaces the elements from `from` on and keeps the others. */
  lemma WrittenContents<T>(b: seq<T>, w: Layout, from: nat, vals: seq<T>, n: nat)
    requires InBuffer(w, |b|) && OneToOne(w) && from + n <= Numel(w.shape) && n <= |vals|
    ensures Contents(Written(b, w, from, vals, n), w) == Contents(b, w)[..from] + vals[..n] + Contents(b, w)[from + n..]
  {
    var now, was := Contents(Written(b, w, from, vals, n), w), Contents(b, w);
    forall p: nat | p < |was| ensures now[p] == if from <= p < from + n then vals[p - from] else was[p] {
      WrittenAt(b, w, from, vals, n, p);
    }
    Spliced(now, was, from, vals, n);
  }

  lemma Spliced<T>(now: seq<T>, was: seq<T>, from: nat, vals: seq<T>, n: nat)
    requires |now| == |was| && from + n <= |was| && n <= |vals|
    requires forall p: nat :: p < |was| ==> now[p] == if from <= p < from + n then vals[p - from] else was[p]
    ensures now == was[..from] + vals[..n] + was[from + n..]
  {
  }

  // ------------------------------------------------- copies within one buffer

  /** No step of a copy from one layout to the other changes an element that a later step still has to read. */
  ghost predicate CopiesClean(src: Layout, p: nat, dst: Layout, q: nat, n: nat, size: nat) {
    && InBuffer(src, size) && InBuffer(dst, size) && p + n <= Numel(src.shape) && q + n <= Numel(dst.shape)
    && ReadsClean(Places(src, p, n, size), Places(dst, q, n, size), n)
  }

  /** A clean copy within a buffer writes the original elements. */
  lemma CleanWritten<T>(b: seq<T>, src: Layout, p: nat, dst: Layout, q: nat, n: nat)
    requires CopiesClean(src, p, dst, q, n, |b|) && OneToOne(dst)
    ensures CopyRun(b, Places(src, p, n, |b|), Places(dst, q, n, |b|), n) ==
            Written(b, dst, q, Contents(b, src)[p..][..n], n)
  {
    PlacesDifferent(dst, q, n, |b|);
    CleanCopy(b, Places(src, p, n, |b|), Places(dst, q, n, |b|), n);
    ElementsInPlace(b, src, p, n);
  }

  lemma ElementsInPlace<T>(b: seq<T>, l: Layout, p: nat, n: nat)
    requires InBuffer(l, |b|) && p + n <= Numel(l.shape)
    ensures ElementsAt(b, Places(l, p, n, |b|)) == Contents(b, l)[p..][..n]
  {
    forall j | 0 <= j < n ensures Contents(b, l)[p..][..n][j] == ElementsAt(b, Places(l, p, n, |b|))[j] {
      PlaceAt(l, p, n, |b|, j);
      ContentsAt(b, l, p + j);
    }
  }

  /** The window of an update: it starts at `start` and has the shape of the value; a single value needs no shape. */
  function WindowShape(shape: seq<nat>, valueShape: seq<nat>): seq<nat> {
    if Numel(valueShape) == 1 then seq(|shape|, _ => 1) else valueShape
  }

  predicate InWindow(idx: seq<int>, start: seq<int>, extent: seq<nat>) {
    |idx| == |start| == |extent| && forall k :: 0 <= k < |idx| ==> start[k] <= idx[k] < start[k] + extent[k]
  }

  function Offsets(idx: seq<int>, start: seq<int>): (r: seq<int>)
    requires |idx| == |start|
    ensures |r| == |idx|
  {
    seq(|idx|, k requires 0 <= k < |idx| => idx[k] - start[k])
  }

  lemma OffsetsInBounds(idx: seq<int>, start: seq<int>, extent: seq<nat>)
    requires InWindow(idx, start, extent)
    ensures InBounds(Offsets(idx, start), extent)
    ensures 0 <= Flatten(Offsets(idx, start), extent) < Numel(extent)
  {
    FlattenInverse(Offsets(idx, start), extent);
  }

  /** Position `p` holds the value for its place in the window, or its old element. */
  ghost predicate UpdatedAt<T>(now: seq<T>, was: seq<T>, shape: seq<nat>, vals: seq<T>, start: seq<int>,
                               extent: seq<nat>, p: nat)
    requires |now| == |was| == Numel(shape) > p && |vals| == Numel(extent)
  {
    var idx := Unflatten(p, shape);
    if InWindow(idx, start, extent) then
      OffsetsInBounds(idx, start, extent);
      now[p] == vals[Flatten(Offsets(idx, start), extent)]
    else now[p] == was[p]
  }

  ghost predicate Updated<T>(now: seq<T>, was: seq<T>, shape: seq<nat>, vals: seq<T>, start: seq<int>,
                             extent: seq<nat>)
  {
    && |now| == |was| == Numel(shape) && |vals| == Numel(extent)
    && forall p: nat :: p < Numel(shape) ==> UpdatedAt(now, was, shape, vals, start, extent, p)
  }

  /** The window lies inside the array. */
  predicate WindowFits(shape: seq<nat>, start: seq<int>, extent: seq<nat>) {
    |start| == |extent| == |shape| && forall k :: 0 <= k < |shape| ==> 0 <= start[k] && start[k] + extent[k] <= shape[k]
  }

  function WindowEnd(start: seq<int>, extent: seq<nat>): (r: seq<int>)
    requires |start| == |extent|
    ensures |r| == |start|
  {
    seq(|start|, k requires 0 <= k < |start| => start[k] + extent[k])
  }

  function Ones(n: nat): (r: seq<int>)
    ensures |r| == n
  {
    seq(n, _ => 1)
  }

  /** The layout of the window inside the array. */
  function WindowLayout(l: Layout, start: seq<int>, extent: seq<nat>): (w: Layout)
    requires l.Wf() && WindowFits(l.shape, start, extent)
    ensures w.Wf()
  {
    SliceLayout(l, start, WindowEnd(start, extent), Ones(|start|))
  }

  lemma WindowHasExtent(l: Layout, start: seq<int>, extent: seq<nat>)
    requires l.Wf() && WindowFits(l.shape, start, extent)
    ensures WindowLayout(l, start, extent).shape == extent
  {
    var w := WindowLayout(l, start, extent);
    forall k | 0 <= k < |extent| ensures w.shape[k] == extent[k] {
      DivModUnique(extent[k], 1, extent[k], 0);
    }
  }

  lemma WindowAddress(l: Layout, start: seq<int>, extent: seq<nat>, idx: seq<int>)
    requires l.Wf() && WindowFits(l.shape, start, extent)
    ensures WindowLayout(l, start, extent).shape == extent
    ensures InWindow(idx, start, extent) ==> InBounds(idx, l.shape)
    ensures InWindow(idx, start, extent) ==> WindowLayout(l, start, extent).At(Offsets(idx, start)) == l.At(idx)
  {
    var op := ViewOp.Slice(start, WindowEnd(start, extent), Ones(|start|));
    WindowHasExtent(l, start, extent);
    if InWindow(idx, start, extent) {
      OffsetsInBounds(idx, start, extent);
      SliceReads(l, start, WindowEnd(start, extent), Ones(|start|), Offsets(idx, start));
      assert BaseIndex(op, l.shape, Offsets(idx, start)) == idx;
    }
  }

  /** Position `q` of the window is the index `start` plus its index. */
  lemma WindowPosition(l: Layout, start: seq<int>, extent: seq<nat>, q: nat) returns (idx: seq<int>)
    requires l.Wf() && WindowFits(l.shape, start, extent) && q < Numel(extent)
    ensures InWindow(idx, start, extent) && InBounds(idx, l.shape) && Offsets(idx, start) == Unflatten(q, extent)
    ensures WindowLayout(l, start, extent).shape == extent && Addr(WindowLayout(l, start, extent), q) == l.At(idx)
  {
    var j := Unflatten(q, extent);
    UnflattenInBounds(q, extent);
    idx := seq(|j|, k requires 0 <= k < |j| => start[k] + j[k]);
    assert Offsets(idx, start) == j;
    WindowAddress(l, start, extent, idx);
  }

  lemma WindowOneToOne(l: Layout, start: seq<int>, extent: seq<nat>)
    requires l.Wf() && WindowFits(l.shape, start, extent) && NoClash(l) && (Numel(l.shape) > 0 ==> NoZeroStride(l))
    ensures OneToOne(WindowLayout(l, start, extent)) && WindowLayout(l, start, extent).shape == extent
  {
    var w := WindowLayout(l, start, extent);
    WindowHasExtent(l, start, extent);
    forall p: nat, q: nat | p < q < Numel(w.shape) ensures ApartAt(w, p, q) {
      var i := WindowPosition(l, start, extent, p);
      var j := WindowPosition(l, start, extent, q);
      FlattenInverse(i, l.shape);
      AddressesDistinct(l, i, j);
      UnflattenInBounds(p, extent);
      UnflattenInBounds(q, extent);
    }
  }

  /** Writing all positions of the window changes exactly the window. */
  lemma WindowWritten<T>(b: seq<T>, l: Layout, start: seq<int>, extent: seq<nat>, vals: seq<T>)
    requires InBuffer(l, |b|) && WindowFits(l.shape, start, extent) && NoClash(l)
    requires (Numel(l.shape) > 0 ==> NoZeroStride(l))
    requires |vals| == Numel(extent) && InBuffer(WindowLayout(l, start, extent), |b|)
    ensures WindowLayout(l, start, extent).shape == extent
    ensures Updated(Contents(Written(b, WindowLayout(l, start, extent), 0, vals, |vals|), l), Contents(b, l), l.shape,
                    vals, start, extent)
  {
    WindowOneToOne(l, start, extent);
    var b' := Written(b, WindowLayout(l, start, extent), 0, vals, |vals|);
    forall p: nat | p < Numel(l.shape)
      ensures UpdatedAt(Contents(b', l), Contents(b, l), l.shape, vals, start, extent, p)
    {
      WindowWrittenAt(b, l, start, extent, vals, p);
    }
  }

  lemma WindowWrittenAt<T>(b: seq<T>, l: Layout, start: seq<int>, extent: seq<nat>, vals: seq<T>, p: nat)
    requires InBuffer(l, |b|) && WindowFits(l.shape, start, extent) && NoClash(l) && NoZeroStride(l)
    requires p < Numel(l.shape)
    requires |vals| == Numel(extent) && InBuffer(WindowLayout(l, start, extent), |b|)
    requires OneToOne(WindowLayout(l, start, extent))
    requires WindowLayout(l, start, extent).shape == extent
    ensures UpdatedAt(Contents(Written(b, WindowLayout(l, start, extent), 0, vals, |vals|), l), Contents(b, l), l.shape,
                      vals, start, extent, p)
  {
    var w := WindowLayout(l, start, extent);
    var idx := Unflatten(p, l.shape);
    ContentsAt(b, l, p);
    ContentsAt(Written(b, w, 0, vals, |vals|), l, p);
    if InWindow(idx, start, extent) {
      OffsetsInBounds(idx, start, extent);
      var q := Flatten(Offsets(idx, start), extent);
      InsideWindow(l, start, extent, p, q);
      WrittenHit(b, w, 0, vals, |vals|, q);
    } else {
      forall q: nat | 0 <= q < 0 + |vals| ensures Elsewhere(w, |b|, q, Addr(l, p)) {
        assert AddrIn(w, |b|, q);
        OutsideWindow(l, start, extent, p, q);
      }
      WrittenMiss(b, w, 0, vals, |vals|, Addr(l, p));
    }
  }

  lemma InsideWindow(l: Layout, start: seq<int>, extent: seq<nat>, p: nat, q: nat)
    requires l.Wf() && WindowFits(l.shape, start, extent) && p < Numel(l.shape) && q < Numel(extent)
    requires InWindow(Unflatten(p, l.shape), start, extent)
    requires q == Flatten(Offsets(Unflatten(p, l.shape), start), extent)
    ensures WindowLayout(l, start, extent).shape == extent && Addr(WindowLayout(l, start, extent), q) == Addr(l, p)
  {
    var idx := Unflatten(p, l.shape);
    OffsetsInBounds(idx, start, extent);
    FlattenInverse(Offsets(idx, start), extent);
    WindowAddress(l, start, extent, idx);
  }

  lemma OutsideWindow(l: Layout, start: seq<int>, extent: seq<nat>, p: nat, q: nat)
    requires l.Wf() && WindowFits(l.shape, start, extent) && NoClash(l) && NoZeroStride(l) && p < Numel(l.shape)
    requires q < Numel(extent)
    requires !InWindow(Unflatten(p, l.shape), start, extent)
    ensures WindowLayout(l, start, extent).shape == extent && Addr(WindowLayout(l, start, extent), q) != Addr(l, p)
  {
    UnflattenInBounds(p, l.shape);
    var i := WindowPosition(l, start, extent, q);
    AddressesDistinct(l, i, Unflatten(p, l.shape));
  }

  lemma WindowInBuffer(l: Layout, start: seq<int>, extent: seq<nat>, n: nat)
    requires InBuffer(l, n) && WindowFits(l.shape, start, extent)
    ensures InBuffer(WindowLayout(l, start, extent), n)
  {
    var op := ViewOp.Slice(start, WindowEnd(start, extent), Ones(|start|));
    SliceIsView(l, start, WindowEnd(start, extent), Ones(|start|));
    ViewInBuffer(WindowLayout(l, start, extent), op, l, n);
  }

  /** The buffer after `update_slice` has copied a value on it to the window at `start`. */
  ghost function AfterUpdate<T>(b: seq<T>, v: Layout, l: Layout, start: seq<int>): (r: seq<T>)
    requires InBuffer(v, |b|) && InBuffer(l, |b|) && WindowFits(l.shape, start, v.shape)
    ensures |r| == |b|
  {
    var w, n := WindowLayout(l, start, v.shape), Numel(v.shape);
    WindowInBuffer(l, start, v.shape, |b|);
    WindowHasExtent(l, start, v.shape);
    CopyRun(b, Places(v, 0, n, |b|), Places(w, 0, n, |b|), n)
  }

  /** The only element of an array lies at its offset. */
  lemma ScalarAt<T>(b: seq<T>, l: Layout)
    requires InBuffer(l, |b|) && Numel(l.shape) == 1
    ensures 0 <= l.offset < |b| && Contents(b, l) == [b[l.offset]]
  {
    ZeroPosition(l.shape, l.strides);
    ContentsAt(b, l, 0);
  }

  /** Writing one element changes a window of size 1. */
  lemma ScalarWritten<T>(b: seq<T>, l: Layout, start: seq<int>, extent: seq<nat>, vals: seq<T>)
    requires InBuffer(l, |b|) && WindowFits(l.shape, start, extent) && NoClash(l) && NoZeroStride(l)
    requires |vals| == 1 == Numel(extent) && InBounds(start, l.shape)
    ensures 0 <= Flatten(start, l.shape) < Numel(l.shape) && AddrIn(l, |b|, Flatten(start, l.shape))
    ensures Updated(Contents(b[Addr(l, Flatten(start, l.shape)) := vals[0]], l), Contents(b, l), l.shape, vals, start,
                    extent)
  {
    WindowInBuffer(l, start, extent, |b|);
    WindowWritten(b, l, start, extent, vals);
    ScalarWindow(l, start, extent);
    assert AddrIn(l, |b|, Flatten(start, l.shape));
    WrittenOnce(b, WindowLayout(l, start, extent), vals);
  }

  lemma WrittenOnce<T>(b: seq<T>, w: Layout, vals: seq<T>)
    requires InBuffer(w, |b|) && |vals| == 1 == Numel(w.shape)
    ensures AddrIn(w, |b|, 0) && Written(b, w, 0, vals, |vals|) == b[Addr(w, 0) := vals[0]]
  {
    var n, to := |vals|, Places(w, 0, |vals|, |b|);
    PlaceAt(w, 0, n, |b|, 0);
    assert WriteAll(b, to, vals, n - 1) == b;
  }

  lemma ScalarWindow(l: Layout, start: seq<int>, extent: seq<nat>)
    requires l.Wf() && WindowFits(l.shape, start, extent) && Numel(extent) == 1 && InBounds(start, l.shape)
    ensures WindowLayout(l, start, extent).shape == extent && 0 <= Flatten(start, l.shape) < Numel(l.shape)
    ensures Addr(WindowLayout(l, start, extent), 0) == Addr(l, Flatten(start, l.shape))
  {
    FlattenInverse(start, l.shape);
    var i := WindowPosition(l, start, extent, 0);
    UnflattenInBounds(0, extent);
    OneIndex(extent, Offsets(i, start));
    forall k | 0 <= k < |i| ensures i[k] == start[k] {
      assert Offsets(i, start)[k] == 0;
    }
    assert i == start;
  }

  lemma OneIndex(extent: seq<nat>, j: seq<int>)
    requires Numel(extent) == 1 && InBounds(j, extent)
    ensures forall k :: 0 <= k < |j| ==> j[k] == 0
  {
    ProductOne(extent);
  }

  lemma CompactNoZeroStride(shape: seq<nat>)
    requires Numel(shape) > 0
    ensures NoZeroStride(Layout(shape, CompactStrides(shape), 0))
  {
    CompactAt(shape);
    var strides := CompactStrides(shape);
    forall k | 0 <= k < |shape| ensures shape[k] == 1 || strides[k] != 0 {
      SplitNumel(shape, k + 1);
      FactorsPositive(Numel(shape[..k + 1]), Numel(shape[k + 1..]), 0);
    }
  }

  /** After `k` steps of a copying loop from position `p` of `src` to position `q` of `dst`. */
  ghost predicate Copied<T(0)>(src: NdArrayRef<T>, dst: NdArrayRef<T>, srcIter: Iterator<T>, dstIter: Iterator<T>,
                               p: nat, q: nat, b: seq<T>, vals: seq<T>, k: nat)
    reads src, dst, srcIter, dstIter, src.buf, dst.buf
  {
    && src.Valid() && dst.Valid() && srcIter != dstIter && k <= |vals| && |b| == dst.buf.Length
    && p + |vals| <= Numel(src.shape) && q + |vals| <= Numel(dst.shape)
    && srcIter.Over(src, p + k) && dstIter.Over(dst, q + k)
    && (src.buf == dst.buf || vals == src.Elements()[p..][..|vals|])
    && Progress(dst.buf[..], src.buf == dst.buf, b, Places(src.L(), p, |vals|, src.buf.Length),
                Places(dst.L(), q, |vals|, |b|), vals, k)
  }

  lemma TakenAt<T>(all: seq<T>, p: nat, vals: seq<T>, k: nat)
    requires p + |vals| <= |all| && vals == all[p..][..|vals|] && k < |vals|
    ensures vals[k] == all[p + k]
  {
  }

  /** One more step of the copy stores the element that the source has now. */
  lemma NextStep<T(0)>(src: NdArrayRef<T>, dst: NdArrayRef<T>, srcIter: Iterator<T>, dstIter: Iterator<T>,
                       p: nat, q: nat, b: seq<T>, vals: seq<T>, k: nat)
    requires Copied(src, dst, srcIter, dstIter, p, q, b, vals, k) && k < |vals|
    ensures AddrIn(dst.L(), |b|, q + k)
    ensures Progress(dst.buf[..][Addr(dst.L(), q + k) := src.Elements()[p + k]], src.buf == dst.buf, b,
                     Places(src.L(), p, |vals|, src.buf.Length), Places(dst.L(), q, |vals|, |b|), vals, k + 1)
  {
    PlaceAt(src.L(), p, |vals|, src.buf.Length, k);
    PlaceAt(dst.L(), q, |vals|, |b|, k);
    if src.buf == dst.buf {
      ContentsAt(src.buf[..], src.L(), p + k);
    } else {
      TakenAt(src.Elements(), p, vals, k);
    }
    ProgressStep(dst.buf[..], src.buf == dst.buf, b, Places(src.L(), p, |vals|, src.buf.Length),
                 Places(dst.L(), q, |vals|, |b|), vals, k, src.Elements()[p + k]);
  }

  /** The body of the copying loops. */
  method CopyNext<T(0)>(ghost src: NdArrayRef<T>, ghost dst: NdArrayRef<T>, srcIter: Iterator<T>, dstIter: Iterator<T>,
                        ghost p: nat, ghost q: nat, ghost b: seq<T>, ghost vals: seq<T>, ghost k: nat)
    requires Copied(src, dst, srcIter, dstIter, p, q, b, vals, k) && k < |vals|
    modifies srcIter, dstIter, dst.buf
    ensures Copied(src, dst, srcIter, dstIter, p, q, b, vals, k + 1)
  {
    NextStep(src, dst, srcIter, dstIter, p, q, b, vals, k);
    CopyOne(src, dst, srcIter, dstIter, p + k, q + k);
  }

  /** What a copy of `n` elements leaves in the target's buffer: the source's elements, unless the arrays share
      a buffer; then every step reads what the earlier ones left. */
  twostate predicate CopyDone<T(0)>(src: NdArrayRef<T>, dst: NdArrayRef<T>, p: nat, q: nat, n: nat)
    requires old(src.Valid()) && old(dst.Valid()) && dst.L() == old(dst.L())
    requires p + n <= Numel(old(src.shape)) && q + n <= Numel(old(dst.shape))
    reads dst, dst.buf
  {
    if old(src.buf == dst.buf) then
      var size := old(dst.buf.Length);
      dst.buf[..] == CopyRun(old(dst.buf[..]), Places(old(src.L()), p, n, size), Places(dst.L(), q, n, size), n)
    else
      dst.buf[..] == Written(old(dst.buf[..]), dst.L(), q, old(src.Elements())[p..][..n], n)
  }

  /** The copying loop of `update_slice`: all elements of one array go to the places of another. */
  method CopyElements<T(0)>(src: NdArrayRef<T>, dst: NdArrayRef<T>)
    requires src.Valid() && dst.Valid() && Numel(src.shape) == Numel(dst.shape)
    modifies dst.buf
    ensures CopyDone(src, dst, 0, 0, Numel(dst.shape))
  {
    var srcIter := src.Begin();
    var dstIter := dst.Begin();
    ghost var b, vals, idx := dst.buf[..], src.Elements(), 0;
    assert vals == vals[0..][..|vals|];
    while srcIter.index.Some?
      modifies srcIter, dstIter, dst.buf
      invariant Copied(src, dst, srcIter, dstIter, 0, 0, b, vals, idx)
      decreases |vals| - idx
    {
      CopyNext(src, dst, srcIter, dstIter, 0, 0, b, vals, idx);
      idx := idx + 1;
    }
  }

  /** The places `base`, `base + 1`, .. of an array hold at least `num` elements. */
  predicate HoldsFrom(base: seq<int>, shape: seq<nat>, num: nat) {
    InBounds(base, shape) && 0 <= Flatten(base, shape) && Flatten(base, shape) + num <= Numel(shape)
  }

  /** `copy_slice`: `num` elements from `srcBase` on, in row-major order, go to the places from `dstBase` on. */
  method CopySlice<T(0)>(src: NdArrayRef<T>, srcBase: seq<int>, dst: NdArrayRef<T>, dstBase: seq<int>, num: nat)
    requires src.Valid() && dst.Valid()
    requires num > 0 ==> HoldsFrom(srcBase, src.shape, num) && HoldsFrom(dstBase, dst.shape, num)
    modifies dst.buf
    ensures num == 0 ==> dst.buf[..] == old(dst.buf[..])
    ensures num > 0 ==> CopyDone(src, dst, Flatten(srcBase, src.shape), Flatten(dstBase, dst.shape), num)
  {
    var srcIter := new Iterator(src, srcBase);
    var dstIter := new Iterator(dst, dstBase);
    if num == 0 {
      return;
    }
    FlattenInverse(srcBase, src.shape);
    FlattenInverse(dstBase, dst.shape);
    CopyCounted(src, dst, srcIter, dstIter, num, Flatten(srcBase, src.shape), Flatten(dstBase, dst.shape));
  }

  method CopyCounted<T(0)>(ghost src: NdArrayRef<T>, ghost dst: NdArrayRef<T>, srcIter: Iterator<T>,
                           dstIter: Iterator<T>, num: nat, ghost p: nat, ghost q: nat)
    requires src.Valid() && dst.Valid() && srcIter != dstIter
    requires p + num <= Numel(src.shape) && q + num <= Numel(dst.shape) && srcIter.Over(src, p) && dstIter.Over(dst, q)
    modifies srcIter, dstIter, dst.buf
    ensures CopyDone(src, dst, p, q, num)
  {
    ghost var b, vals := dst.buf[..], src.Elements()[p..][..num];
    for counter := 0 to num
      invariant Copied(src, dst, srcIter, dstIter, p, q, b, vals, counter)
    {
      CopyNext(src, dst, srcIter, dstIter, p, q, b, vals, counter);
    }
  }

  /** One element, from position `i` of `src` to position `j` of `dst`; both iterators go on. */
  method CopyOne<T(0)>(ghost src: NdArrayRef<T>, ghost dst: NdArrayRef<T>, srcIter: Iterator<T>, dstIter: Iterator<T>,
                       ghost i: nat, ghost j: nat)
    requires src.Valid() && dst.Valid() && srcIter != dstIter && i < Numel(src.shape) && j < Numel(dst.shape)
    requires srcIter.Over(src, i) && dstIter.Over(dst, j)
    modifies srcIter, dstIter, dst.buf
    ensures srcIter.Over(src, i + 1) && dstIter.Over(dst, j + 1)
    ensures AddrIn(dst.L(), dst.buf.Length, j)
    ensures dst.buf[..] == old(dst.buf[..])[Addr(dst.L(), j) := old(src.Elements()[i])]
    ensures src.buf != dst.buf ==> src.Elements() == old(src.Elements())
  {
    var x := srcIter.Deref(src, i);
    dstIter.Write(dst, j, x);
    srcIter.Next(src, i);
    dstIter.Next(dst, j);
  }

  class NdArrayRef<T(0)> {
    var buf: array<T>
    var shape: seq<nat>
    var strides: seq<int>
    var offset: int
    var useFastIndexing: bool
    var fastIndexingStride: int

    function L(): Layout
      reads this
    {
      Layout(shape, strides, offset)
    }

    ghost predicate Valid()
      reads this
    {
      && InBuffer(L(), buf.Length)
      && (useFastIndexing ==> LinearAddresses(shape, strides, fastIndexingStride))
    }

    /** The elements in row-major order. */
    ghost function Elements(): (r: seq<T>)
      requires Valid()
      reads this, buf
      ensures |r| == Numel(shape)
    {
      Contents(buf[..], L())
    }

    /** A view of `buf`. */
    constructor (buf: array<T>, shape: seq<nat>, strides: seq<int>, offset: int)
      requires InBuffer(Layout(shape, strides, offset), buf.Length)
      ensures Valid() && this.buf == buf && L() == Layout(shape, strides, offset)
      ensures !useFastIndexing && Numel(shape) > 0 ==> !exists u :: LinearAddresses(shape, strides, u)
    {
      this.buf, this.shape, this.strides, this.offset := buf, shape, strides, offset;
      new;
      useFastIndexing, fastIndexingStride := CanUseFastIndexing(shape, strides);
    }

    /** A new buffer with compact strides. */
    static method Allocate(shape: seq<nat>) returns (r: NdArrayRef<T>)
      ensures fresh(r) && fresh(r.buf) && r.Valid() && r.buf.Length == Numel(shape)
      ensures r.L() == Layout(shape, CompactStrides(shape), 0)
    {
      var buf := new T[Numel(shape)];
      var strides := MakeCompactStrides(shape);
      CompactInBuffer(shape, Numel(shape));
      r := new NdArrayRef(buf, shape, strides, 0);
    }

    /** The element at position `pos`, by one multiplication where that is enough. */
    method AtPos(pos: nat) returns (x: T)
      requires Valid() && pos < Numel(shape)
      ensures x == Elements()[pos]
    {
      ContentsAt(buf[..], L(), pos);
      if useFastIndexing {
        assert LinearAt(shape, strides, fastIndexingStride, pos);
        x := buf[offset + pos * fastIndexingStride];
      } else {
        var idx := UnflattenIndex(pos, shape);
        x := buf[L().At(idx)];
      }
    }

    /** `r` is the view of this array that the operation promises, over the same buffer. */
    ghost predicate ViewOf(r: NdArrayRef<T>, op: ViewOp)
      reads this, r
    {
      r.Valid() && r.buf == buf && IsView(r.L(), op, L())
    }

    method MakeView(newShape: seq<nat>, newStrides: seq<int>, newOffset: int, ghost op: ViewOp)
      returns (v: NdArrayRef<T>)
      requires Valid() && IsView(Layout(newShape, newStrides, newOffset), op, L())
      ensures fresh(v) && ViewOf(v, op) && v.L() == Layout(newShape, newStrides, newOffset)
    {
      ViewInBuffer(Layout(newShape, newStrides, newOffset), op, L(), buf.Length);
      v := new NdArrayRef(buf, newShape, newStrides, newOffset);
    }

    method Slice(start: seq<int>, end: seq<int>, steps: seq<int>) returns (r: Outcome<NdArrayRef<T>>)
      requires Valid() && SliceDemands(start, steps)
      ensures r.Rejected? <==> !SliceChecks(shape, start, end, steps)
      ensures r.Done? ==> fresh(r.value) && ViewOf(r.value, ViewOp.Slice(start, end, steps))
      ensures r.Done? ==> r.value.L() == SliceLayout(L(), start, end, steps)
      ensures r.Done? ==> SliceComplete(r.value.shape, start, end, steps)
    {
      if |shape| != |start| || |shape| != |end| || (steps != [] && |shape| != |steps|) {
        return Rejected;
      }
      var newShape: seq<nat>, newStrides := seq(|shape|, _ => 0), strides;
      for k := 0 to |shape|
        invariant |newShape| == |newStrides| == |shape|
        invariant forall j :: 0 <= j < k ==>
                  end[j] <= shape[j] && newShape[j] == SliceExtent(start[j], end[j], StepAt(steps, j))
        invariant forall j :: 0 <= j < |shape| ==>
                  newStrides[j] == if j < k then SliceStride(start[j], end[j], StepAt(steps, j), strides[j])
                  else strides[j]
      {
        if end[k] > shape[k] {
          return Rejected;
        }
        var span: nat := if end[k] - start[k] > 0 then end[k] - start[k] else 0;
        if span == 1 {
          newShape, newStrides := newShape[k := 1], newStrides[k := 0];
        } else if steps != [] {
          var n, q := span / steps[k], span % steps[k];
          newShape := newShape[k := n + if q != 0 then 1 else 0];
          newStrides := newStrides[k := newStrides[k] * steps[k]];
        } else {
          newShape := newShape[k := span];
        }
      }
      var l := SliceLayout(L(), start, end, steps);
      assert newShape == l.shape && newStrides == l.strides;
      SliceIsView(L(), start, end, steps);
      var v := MakeView(newShape, newStrides, L().At(start), ViewOp.Slice(start, end, steps));
      r := Done(v);
    }

    method Transpose(perm: seq<nat>) returns (r: Outcome<NdArrayRef<T>>)
      requires Valid() && Below(perm, |shape|)
      ensures r.Rejected? <==> !TransposeChecks(shape, perm)
      ensures r.Done? ==> fresh(r.value) && ViewOf(r.value, ViewOp.Transpose(perm))
      ensures r.Done? ==> r.value.L() == TransposeLayout(L(), perm)
    {
      if |perm| != |shape| {
        return Rejected;
      }
      var uniq := ElementSet(perm);
      DistinctByCount(perm);
      if |uniq| != |perm| {
        return Rejected;
      }
      var retShape, retStrides := TransposeAxes(shape, strides, perm);
      TransposeIsView(L(), perm);
      var v := MakeView(retShape, retStrides, offset, ViewOp.Transpose(perm));
      r := Done(v);
    }

    /** The result shows the reversed elements exactly when repeated axes are harmless, so always without them. */
    method Reverse(axes: seq<nat>) returns (r: Outcome<NdArrayRef<T>>)
      requires Valid()
      requires Below(axes, |shape|) ==> Distinct(axes) || InBuffer(ReverseRun(L(), axes), buf.Length)
      ensures r.Rejected? <==> !Below(axes, |shape|)
      ensures r.Done? ==> fresh(r.value) && r.value.Valid() && r.value.buf == buf
      ensures r.Done? ==> r.value.L() == ReverseRun(L(), axes)
      ensures r.Done? ==> (ViewOf(r.value, ViewOp.Reverse(axes)) <==> StepClear(ViewOp.Reverse(axes), L()))
      ensures r.Done? && Distinct(axes) ==> ViewOf(r.value, ViewOp.Reverse(axes))
    {
      var ok, newStrides, elOffset := ReverseAxes(shape, strides, axes, offset);
      if !ok {
        return Rejected;
      }
      ReverseSafe(L(), axes, buf.Length);
      var v := new NdArrayRef(buf, shape, newStrides, offset + elOffset);
      r := Done(v);
    }

    /** The result shows the broadcast elements exactly when every stretched axis has stride 0. */
    method BroadcastTo(to: seq<nat>, dims: seq<nat>) returns (r: Outcome<NdArrayRef<T>>)
      requires Valid()
      requires Below(dims, |to|) ==>
               BroadcastFits(shape, to, dims) && InBuffer(BroadcastLayout(L(), to, dims), buf.Length)
      ensures r.Rejected? <==> !Below(dims, |to|)
      ensures r.Done? ==> fresh(r.value) && r.value.Valid() && r.value.buf == buf
      ensures r.Done? ==> r.value.L() == BroadcastLayout(L(), to, dims)
      ensures r.Done? ==> (ViewOf(r.value, ViewOp.Broadcast(to, dims)) <==>
                           StepClear(ViewOp.Broadcast(to, dims), L()))
    {
      for i := 0 to |dims|
        invariant forall j :: 0 <= j < i ==> dims[j] < |to|
      {
        if dims[i] >= |to| {
          return Rejected;
        }
      }
      var newStrides := BroadcastStrides(shape, strides, to, dims);
      ComputesViewIff(BroadcastLayout(L(), to, dims), ViewOp.Broadcast(to, dims), L());
      var v := new NdArrayRef(buf, to, newStrides, offset);
      r := Done(v);
    }

    /** `r` has the shape `to` and the same elements: in place, or else in a compact buffer of its own. */
    twostate predicate ReshapeOf(new r: NdArrayRef<T>, to: seq<nat>)
      requires Valid()
      reads this, buf, r, r.buf
    {
      && r.Valid() && r.shape == to && r.Elements() == Elements()
      && (r.buf == buf ==> Computes(r.L(), ViewOp.Reshape(to), L()))
      && (r.buf != buf ==> fresh(r.buf) && r.L() == Layout(to, CompactStrides(to), 0))
    }

    method Reshape(to: seq<nat>) returns (r: Outcome<NdArrayRef<T>>)
      requires Valid()
      ensures r.Rejected? <==> Numel(shape) != Numel(to)
      ensures r.Done? ==> fresh(r.value) && ReshapeOf(r.value, to)
      ensures r.Done? ==> (r.value.buf == buf <==> Numel(to) == 0 || HasStrides(shape, strides, to))
      decreases if useFastIndexing && to == [Numel(shape)] then 0 else 3
    {
      if shape == to {
        SameRefl(shape, strides);
        assert SameAddresses(shape, strides, shape, strides);
        var same := new NdArrayRef(buf, shape, strides, offset);
        return Done(same);
      }
      if Numel(shape) != Numel(to) {
        return Rejected;
      }
      var newStrides: seq<int>;
      if Numel(to) == 0 {
        newStrides := MakeCompactStrides(to);
        CompactUnitStrides(to, offset);
        NothingSame(shape, strides, to, newStrides);
      } else {
        var ok;
        ok, newStrides := AttemptNocopyReshape(shape, strides, to);
        if !ok {
          if useFastIndexing { LinearFlattens(shape, strides, fastIndexingStride); }
          var compactClone := Clone();
          r := CompactView(compactClone, to);
          return;
        }
      }
      SameContents(buf[..], shape, strides, to, newStrides, offset);
      var v := new NdArrayRef(buf, to, newStrides, offset);
      r := Done(v);
    }

    static method CompactView(c: NdArrayRef<T>, to: seq<nat>) returns (r: Outcome<NdArrayRef<T>>)
      requires c.Valid() && c.L() == Layout(c.shape, CompactStrides(c.shape), 0)
      requires Numel(to) == Numel(c.shape) == c.buf.Length
      ensures r.Done? && fresh(r.value) && r.value.Valid() && r.value.buf == c.buf
      ensures r.value.L() == Layout(to, CompactStrides(to), 0) && r.value.Elements() == c.Elements()
    {
      var strides := MakeCompactStrides(to);
      CompactContents(c.buf[..], to);
      CompactContents(c.buf[..], c.shape);
      var v := new NdArrayRef(c.buf, to, strides, 0);
      r := Done(v);
    }

    /** An iterator at the first element, or at the end of an empty array. */
    method Begin() returns (it: Iterator<T>)
      requires Valid()
      ensures fresh(it) && it.Over(this, 0)
      decreases 1, 1
    {
      StartAtZero(shape);
      it := new Iterator(this, Zeros(|shape|));
    }

    /** A copy in a compact buffer of its own. */
    method Clone() returns (r: NdArrayRef<T>)
      requires Valid()
      ensures fresh(r) && fresh(r.buf) && r.Valid() && r.L() == Layout(shape, CompactStrides(shape), 0)
      ensures r.buf.Length == Numel(shape) && r.Elements() == Elements() == r.buf[..]
      decreases 2
    {
      r := Allocate(shape);
      CopyTo(r.buf);
      CompactContents(r.buf[..], shape);
    }

    /** Moves the elements to a buffer of their own when some of them share an address. */
    method EliminateZeroStride()
      requires Valid()
      modifies this
      ensures Valid() && shape == old(shape) && Elements() == old(Elements())
      ensures Numel(shape) > 0 ==> NoZeroStride(L())
      ensures if old(NoZeroStride(L())) then buf == old(buf) && L() == old(L()) else fresh(buf)
      ensures old(NoZeroStride(L()) ==> NoClash(L())) ==> NoClash(L())
    {
      var hasValidZeroStride := false;
      for k := 0 to |shape|
        invariant forall j :: 0 <= j < k ==> shape[j] == 1 || strides[j] != 0
        invariant !hasValidZeroStride
      {
        if shape[k] != 1 && strides[k] == 0 {
          hasValidZeroStride := true;
          break;
        }
      }
      if !hasValidZeroStride {
        return;
      }
      var c := Clone();
      if Numel(shape) > 0 { CompactNoZeroStride(shape); }
      CompactNoClash(shape, 0);
      buf, shape, strides, offset := c.buf, c.shape, c.strides, c.offset;
      useFastIndexing, fastIndexingStride := c.useFastIndexing, c.fastIndexingStride;
    }

    /** Writing the window at `start` does not disturb the elements of `v` before they are read: `v` is a single value,
        or has another buffer, or the copy is clean. */
    ghost predicate ValueKept(v: NdArrayRef<T>, start: seq<int>)
      reads this, v
    {
      Numel(v.shape) == 1 || v.buf != buf ||
      (WindowFits(shape, start, v.shape) && L().Wf() &&
       CopiesClean(v.L(), 0, WindowLayout(L(), start, v.shape), 0, Numel(v.shape), buf.Length))
    }

    /** Replaces the window at `start` by the elements of `v`; false if the window does not fit. */
    method UpdateSlice(v: NdArrayRef<T>, start: seq<int>) returns (ok: bool)
      requires Valid() && v.Valid()
      requires NoZeroStride(L()) ==> NoClash(L())
      requires Numel(v.shape) == 1 ==> InBounds(start, shape)
      requires Numel(v.shape) > 1 ==> |v.shape| == |start| && forall k :: 0 <= k < |start| ==> start[k] >= 0
      modifies this, buf
      ensures Valid() && shape == old(shape)
      ensures ok <==> Numel(v.shape) == 0 || WindowFits(shape, start, WindowShape(shape, v.shape))
      ensures !ok || Numel(v.shape) == 0 ==> Elements() == old(Elements())
      ensures ok && Numel(v.shape) > 0 && ValueKept(v, start) ==>
              Updated(Elements(), old(Elements()), shape, old(v.Elements()), start, WindowShape(shape, v.shape))
      ensures ok && Numel(v.shape) > 1 && v.buf == buf == old(buf) ==>
                buf[..] == AfterUpdate(old(buf[..]), v.L(), L(), start)
      ensures buf != old(buf) ==> fresh(buf) && old(buf)[..] == old(buf[..])
      ensures old(NoZeroStride(L())) ==> buf == old(buf) && L() == old(L())
    {
      if Numel(v.shape) == 0 {
        return true;
      }
      EliminateZeroStride();
      ok := WriteWindow(v, start);
    }

    /** The update itself, once distinct elements have distinct addresses. */
    method WriteWindow(v: NdArrayRef<T>, start: seq<int>) returns (ok: bool)
      requires Valid() && v.Valid() && Numel(v.shape) > 0 && NoClash(L())
      requires Numel(v.shape) == 1 ==> InBounds(start, shape)
      requires Numel(v.shape) > 1 ==> |v.shape| == |start| && forall k :: 0 <= k < |start| ==> start[k] >= 0
      requires Numel(shape) > 0 ==> NoZeroStride(L())
      modifies buf
      ensures ok <==> WindowFits(shape, start, WindowShape(shape, v.shape))
      ensures ok && ValueKept(v, start) ==>
                Updated(Elements(), old(Elements()), shape, old(v.Elements()), start, WindowShape(shape, v.shape))
      ensures ok && Numel(v.shape) > 1 && v.buf == buf ==> buf[..] == AfterUpdate(old(buf[..]), v.L(), L(), start)
      ensures !ok ==> Elements() == old(Elements())
    {
      if Numel(v.shape) == 1 {
        ghost var extent := WindowShape(shape, v.shape);
        OnesNumel(extent);
        FlattenInverse(start, shape);
        WriteScalar(v, start, extent);
        return true;
      }
      var end := WindowEnd(start, v.shape);
      var window := Slice(start, end, Ones(|start|));
      if window.Rejected? {
        return false;
      }
      CopyWindow(v, start, window.value);
      ok := true;
    }

    method WriteScalar(v: NdArrayRef<T>, start: seq<int>, ghost extent: seq<nat>)
      requires Valid() && v.Valid() && Numel(v.shape) == 1 && Numel(extent) == 1 && InBounds(start, shape)
      requires WindowFits(shape, start, extent)
      requires NoZeroStride(L()) && NoClash(L())
      modifies buf
      ensures Updated(Elements(), old(Elements()), shape, old(v.Elements()), start, extent)
    {
      var it := new Iterator(this, start);
      ghost var p := Flatten(start, shape);
      FlattenInverse(start, shape);
      ScalarAt(v.buf[..], v.L());
      ScalarWritten(buf[..], L(), start, extent, v.Elements());
      it.Write(this, p, v.buf[v.offset]);
    }

    method CopyWindow(v: NdArrayRef<T>, start: seq<int>, window: NdArrayRef<T>)
      requires Valid() && v.Valid() && window.Valid() && window.buf == buf
      requires WindowFits(shape, start, v.shape) && window.L() == WindowLayout(L(), start, v.shape)
      requires NoClash(L()) && (Numel(shape) > 0 ==> NoZeroStride(L()))
      modifies buf
      ensures ValueKept(v, start) ==>
                Updated(Elements(), old(Elements()), shape, old(v.Elements()), start, v.shape)
      ensures v.buf == buf ==> buf[..] == AfterUpdate(old(buf[..]), v.L(), L(), start)
    {
      WindowHasExtent(L(), start, v.shape);
      WindowOneToOne(L(), start, v.shape);
      ghost var vals := v.Elements();
      assert vals[0..][..|vals|] == vals;
      WindowWritten(buf[..], L(), start, v.shape, vals);
      if v.buf == buf && ValueKept(v, start) {
        CleanWritten(buf[..], v.L(), 0, window.L(), 0, |vals|);
      }
      CopyElements(v, window);
    }

    /** Writes the elements, in order, to another buffer. */
    method CopyTo(dst: array<T>)
      requires Valid() && dst.Length == Numel(shape) && dst != buf
      modifies dst
      ensures dst[..] == Elements()
      decreases 2, 0
    {
      var srcIter := Begin();
      ghost var elements := Elements();
      for idx := 0 to dst.Length
        modifies srcIter, dst
        invariant srcIter.Over(this, idx)
        invariant forall k :: 0 <= k < idx ==> dst[k] == elements[k]
      {
        dst[idx] := srcIter.Deref(this, idx);
        srcIter.Next(this, idx);
      }
    }
  }

  /** Walks an array in row-major order by moving a pointer; `index` is absent past the end. */
  class Iterator<T(0)> {
    const shape: seq<nat>
    const strides: seq<int>
    const buf: array<T>
    var index: Option<seq<int>>
    var ptr: int

    ghost predicate Valid() {
      |strides| == |shape|
    }

    /** At position `p`, or past the end when `p` is the number of elements. */
    ghost predicate Pointing(p: nat, base: int)
      requires Valid()
      reads this
    {
      && p <= Numel(shape)
      && (p < Numel(shape) ==> index == Some(Unflatten(p, shape)) && ptr == base + FlatDot(p, shape, strides))
      && (p == Numel(shape) ==> index == None)
    }

    /** At element `p` of `a`: the pointer is its address, and the index matches. */
    ghost predicate Over(a: NdArrayRef<T>, p: nat)
      reads this, a
    {
      && Valid() && a.L().Wf() && buf == a.buf && Pointing(p, a.offset)
      && Numel(shape) == Numel(a.shape) && SameAddresses(a.shape, a.strides, shape, strides)
    }

    /** Starts at an index of `source`; an index out of bounds gives the end. */
    constructor (source: NdArrayRef<T>, start: seq<int>)
      requires source.Valid()
      ensures InBounds(start, source.shape) ==>
              0 <= Flatten(start, source.shape) && Over(source, Flatten(start, source.shape))
      ensures !InBounds(start, source.shape) ==> Over(source, Numel(source.shape))
      decreases 1, 0
    {
      var ownShape, ownStrides := source.shape, source.strides;
      SameRefl(ownShape, ownStrides);
      if source.useFastIndexing {
        SingleNumel(Numel(source.shape));
        LinearFlattens(source.shape, source.strides, source.fastIndexingStride);
        var flat := source.Reshape([Numel(source.shape)]);
        ownShape, ownStrides := flat.value.shape, flat.value.strides;
      }
      shape, strides, index, buf, ptr := ownShape, ownStrides, Some(start), source.buf, 0;
      new;
      if !InBounds(start, source.shape) {
        index := None;
      } else {
        FlattenInverse(start, source.shape);
        ptr := source.L().At(start);
        ghost var p := Flatten(start, source.shape);
        assert SameAt(source.shape, source.strides, shape, strides, p);
        if source.useFastIndexing {
          index := Some([Flatten(start, source.shape)]);
          FlatIndex(p, Numel(source.shape));
        }
      }
    }

    /** The element pointed at. */
    method Deref(ghost a: NdArrayRef<T>, ghost p: nat) returns (x: T)
      requires a.Valid() && Over(a, p) && p < Numel(a.shape)
      ensures x == a.Elements()[p]
    {
      ContentsAt(a.buf[..], a.L(), p);
      assert SameAt(a.shape, a.strides, shape, strides, p);
      x := buf[ptr];
    }

    /** Stores to the element pointed at. */
    method Write(ghost a: NdArrayRef<T>, ghost p: nat, x: T)
      requires a.Valid() && Over(a, p) && p < Numel(a.shape)
      modifies buf
      ensures AddrIn(a.L(), buf.Length, p) && buf[..] == old(buf[..])[Addr(a.L(), p) := x]
    {
      assert AddrIn(a.L(), buf.Length, p) && SameAt(a.shape, a.strides, shape, strides, p);
      buf[ptr] := x;
    }

    /** `operator++`: an iterator past the end stays there. */
    method Next(ghost a: NdArrayRef<T>, ghost p: nat)
      requires Over(a, p)
      modifies this`index, this`ptr
      ensures Over(a, if p < Numel(a.shape) then p + 1 else p)
    {
      if index.None? {
        return;
      }
      UnflattenInBounds(p, shape);
      var more, i, q := Advance(shape, strides, index.value, ptr);
      if more {
        FlattenInverse(i, shape);
        index, ptr := Some(i), q;
      } else {
        index, ptr := None, 0;
      }
    }
  }

  /** The loop of `operator++`: the next index, and the pointer moved along by the strides. */
  method Advance(shape: seq<nat>, strides: seq<int>, was: seq<int>, ptr: int) returns (more: bool, i: seq<int>, q: int)
    requires |strides| == |shape| && InBounds(was, shape)
    ensures more <==> Flatten(was, shape) + 1 < Numel(shape)
    ensures more ==> InBounds(i, shape) && Flatten(i, shape) == Flatten(was, shape) + 1
    ensures more ==> q == ptr - Dot(was, strides) + Dot(i, strides)
  {
    i, q := was, ptr;
    var k := |shape|;
    FlattenInverse(was, shape);
    assert was[k..] == [] && shape[k..] == [] && strides[k..] == [];
    while k > 0
      invariant k <= |shape| == |i| && forall j :: 0 <= j < |i| ==> i[j] == if j < k then was[j] else 0
      invariant Unwound(shape, strides, was, k, ptr, q)
    {
      k := k - 1;
      if i[k] + 1 == shape[k] {
        i := i[k := 0];
        q := q - (shape[k] - 1) * strides[k];
        UnwindAxis(shape, strides, was, k, ptr, q);
      } else {
        i := i[k := i[k] + 1];
        q := q + strides[k];
        FoundAxis(shape, strides, was, i, k, ptr, q);
        return true, i, q;
      }
    }
    assert was[0..] == was && shape[0..] == shape;
    more := false;
  }

  /** Axes `k` and later stood at their last place and went back to 0, the pointer with them. */
  ghost predicate Unwound(shape: seq<nat>, strides: seq<int>, was: seq<int>, k: nat, ptr: int, q: int) {
    && k <= |shape| == |strides| == |was|
    && Flatten(was[k..], shape[k..]) + 1 == Numel(shape[k..])
    && q == ptr - Dot(was[k..], strides[k..])
  }

  lemma FoundAxis(shape: seq<nat>, strides: seq<int>, was: seq<int>, i: seq<int>, k: nat, ptr: int, q: int)
    requires k < |shape| == |strides| == |was| == |i| && InBounds(was, shape)
    requires Unwound(shape, strides, was, k + 1, ptr, q - strides[k])
    requires i[k] == was[k] + 1 < shape[k] && forall j :: 0 <= j < |i| && j != k ==> i[j] == if j < k then was[j] else 0
    ensures InBounds(i, shape) && Flatten(i, shape) == Flatten(was, shape) + 1 < Numel(shape)
    ensures q == ptr - Dot(was, strides) + Dot(i, strides)
  {
    assert i[..k] == was[..k];
    BumpedAt(was, i, shape, k);
    FlattenInverse(i, shape);
    DotBumped(was, i, strides, k);
  }

  lemma UnwindAxis(shape: seq<nat>, strides: seq<int>, was: seq<int>, k: nat, ptr: int, q: int)
    requires k < |shape| == |strides| == |was| && was[k] + 1 == shape[k]
    requires Unwound(shape, strides, was, k + 1, ptr, q + (shape[k] - 1) * strides[k])
    ensures Unwound(shape, strides, was, k, ptr, q)
  {
    assert was[k..][1..] == was[k + 1..] && shape[k..][1..] == shape[k + 1..] && strides[k..][1..] == strides[k + 1..];
    WrapAxis(was[k], shape[k], Numel(shape[k + 1..]), strides[k]);
  }

  lemma FlatIndex(p: nat, n: nat)
    requires p < n
    ensures Numel([n]) == n && Unflatten(p, [n]) == [p]
  {
    SingleNumel(n);
    assert Numel([n][1..]) == 1;
    DivModUnique(p, 1, p, 0);
  }

  lemma WrapAxis(i: int, n: int, rest: int, stride: int)
    requires i + 1 == n
    ensures i * rest + rest == n * rest && (n - 1) * stride == i * stride
  {
    assert (i + 1) * rest == i * rest + rest;
  }

  lemma {:induction false} DotBumped(idx: seq<int>, next: seq<int>, strides: seq<int>, d: nat)
    requires |idx| == |next| == |strides| > d && next[..d] == idx[..d] && next[d] == idx[d] + 1
    requires forall k :: d < k < |next| ==> next[k] == 0
    ensures Dot(next, strides) == Dot(idx, strides) - Dot(idx[d + 1..], strides[d + 1..]) + strides[d]
    decreases d
  {
    if d == 0 {
      DotZeros(next[1..], strides[1..]);
      assert (idx[0] + 1) * strides[0] == idx[0] * strides[0] + strides[0];
    } else {
      assert next[0] == next[..d][0] == idx[0];
      assert idx[1..][d - 1 + 1..] == idx[d + 1..] && strides[1..][d - 1 + 1..] == strides[d + 1..];
      assert next[1..][..d - 1] == next[..d][1..] && idx[1..][..d - 1] == idx[..d][1..];
      DotBumped(idx[1..], next[1..], strides[1..], d - 1);
    }
  }
}

/** Views of a buffer and what each view operation makes of an index: `src/libspu/core/ndarray_ref.cc`. */
module Views {
  import opened Arith
  import opened Shape
  import opened Reshape

  /** Where the elements of an array lie; strides and offset count elements. */
  datatype Layout = Layout(shape: seq<nat>, strides: seq<int>, offset: int) {
    predicate Wf() {
      |strides| == |shape|
    }

    /** Address of the element at an index. */
    function At(idx: seq<int>): int
      requires Wf() && |idx| == |shape|
    {
      offset + Dot(idx, strides)
    }
  }

  /** The view operations, with their arguments. */
  datatype ViewOp =
    | Slice(start: seq<int>, end: seq<int>, steps: seq<int>)
    | Transpose(perm: seq<nat>)
    | Reverse(axes: seq<nat>)
    | Broadcast(to: seq<nat>, dims: seq<nat>)
    | Reshape(to: seq<nat>)

  // --------------------------------------------------------- sums of products

  /** If every product grows by `c[k]`, so does the sum. */
  ghost predicate Shifted(i: seq<int>, s: seq<int>, j: seq<int>, t: seq<int>, c: seq<int>)
    requires |i| == |s| == |j| == |t| == |c|
  {
    forall k :: 0 <= k < |i| ==> ShiftedAt(i, s, j, t, c, k)
  }

  ghost predicate ShiftedAt(i: seq<int>, s: seq<int>, j: seq<int>, t: seq<int>, c: seq<int>, k: nat)
    requires |i| == |s| == |j| == |t| == |c| && k < |i|
  {
    i[k] * s[k] == j[k] * t[k] + c[k]
  }

  lemma {:induction false} DotShifted(i: seq<int>, s: seq<int>, j: seq<int>, t: seq<int>, c: seq<int>)
    requires |i| == |s| == |j| == |t| == |c| && Shifted(i, s, j, t, c)
    ensures Dot(i, s) == Dot(j, t) + Sum(c)
  {
    if i != [] {
      forall k | 0 <= k < |i[1..]| ensures ShiftedAt(i[1..], s[1..], j[1..], t[1..], c[1..], k) {
        assert ShiftedAt(i, s, j, t, c, k + 1);
      }
      DotShifted(i[1..], s[1..], j[1..], t[1..], c[1..]);
      assert ShiftedAt(i, s, j, t, c, 0);
    }
  }

  function Zeros(n: nat): (z: seq<int>)
    ensures |z| == n && forall k :: 0 <= k < n ==> z[k] == 0
  {
    seq(n, _ => 0)
  }

  lemma {:induction false} DotZeros(z: seq<int>, y: seq<int>)
    requires |z| == |y| && forall k :: 0 <= k < |z| ==> z[k] == 0
    ensures Dot(z, y) == 0
  {
    if z != [] { DotZeros(z[1..], y[1..]); }
  }

  lemma {:induction false} DotComm(x: seq<int>, y: seq<int>)
    requires |x| == |y|
    ensures Dot(x, y) == Dot(y, x)
  {
    if x != [] { DotComm(x[1..], y[1..]); }
  }

  lemma {:induction false} DotUpdate(x: seq<int>, y: seq<int>, k: nat, v: int)
    requires |x| == |y| && k < |x|
    ensures Dot(x[k := v], y) == Dot(x, y) - x[k] * y[k] + v * y[k]
  {
    if k == 0 {
      assert x[k := v][1..] == x[1..];
    } else {
      assert x[k := v][1..] == x[1..][k - 1 := v];
      DotUpdate(x[1..], y[1..], k - 1, v);
    }
  }

  lemma {:induction false} DotSnoc(x: seq<int>, y: seq<int>, v: int, w: int)
    requires |x| == |y|
    ensures Dot(x + [v], y + [w]) == Dot(x, y) + v * w
  {
    if x != [] {
      assert (x + [v])[1..] == x[1..] + [v] && (y + [w])[1..] == y[1..] + [w];
      DotSnoc(x[1..], y[1..], v, w);
    }
  }

  // ------------------------------------------------- axes moved to other places

  predicate Distinct(d: seq<nat>) {
    forall i, j :: 0 <= i < j < |d| ==> d[i] != d[j]
  }

  predicate Below(d: seq<nat>, n: nat) {
    forall i :: 0 <= i < |d| ==> d[i] < n
  }

  /** `x[i]` put at place `d[i]`, 0 elsewhere. */
  function Scatter(x: seq<int>, d: seq<nat>, n: nat): (r: seq<int>)
    requires |x| == |d| && Below(d, n)
    ensures |r| == n
    decreases |x|
  {
    if x == [] then Zeros(n) else
      var last := |x| - 1;
      Scatter(x[..last], d[..last], n)[d[last] := x[last]]
  }

  function Gather<T>(y: seq<T>, d: seq<nat>): (r: seq<T>)
    requires Below(d, |y|)
    ensures |r| == |d| && forall i :: 0 <= i < |d| ==> r[i] == y[d[i]]
  {
    seq(|d|, i requires 0 <= i < |d| => y[d[i]])
  }

  lemma {:induction false} ScatterHit(x: seq<int>, d: seq<nat>, n: nat, i: nat)
    requires |x| == |d| && Below(d, n) && Distinct(d) && i < |d|
    ensures Scatter(x, d, n)[d[i]] == x[i]
    decreases |x|
  {
    var last := |x| - 1;
    if i < last {
      ScatterHit(x[..last], d[..last], n, i);
      assert d[i] != d[last];
    }
  }

  lemma {:induction false} ScatterMiss(x: seq<int>, d: seq<nat>, n: nat, k: nat)
    requires |x| == |d| && Below(d, n) && k < n && k !in d
    ensures Scatter(x, d, n)[k] == 0
    decreases |x|
  {
    if x != [] {
      var last := |x| - 1;
      assert d[last] in d;
      ScatterMiss(x[..last], d[..last], n, k);
    }
  }

  lemma ScatterAt(x: seq<int>, d: seq<nat>, n: nat)
    requires |x| == |d| && Below(d, n) && Distinct(d)
    ensures forall i :: 0 <= i < |d| ==> Scatter(x, d, n)[d[i]] == x[i]
    ensures forall k :: 0 <= k < n && k !in d ==> Scatter(x, d, n)[k] == 0
  {
    forall i | 0 <= i < |d| ensures Scatter(x, d, n)[d[i]] == x[i] {
      ScatterHit(x, d, n, i);
    }
    forall k | 0 <= k < n && k !in d ensures Scatter(x, d, n)[k] == 0 {
      ScatterMiss(x, d, n, k);
    }
  }

  lemma {:induction false} ScatterDot(x: seq<int>, d: seq<nat>, n: nat, y: seq<int>)
    requires |x| == |d| && Below(d, n) && Distinct(d) && |y| == n
    ensures Dot(Scatter(x, d, n), y) == Dot(x, Gather(y, d))
    decreases |x|
  {
    if x == [] {
      DotZeros(Zeros(n), y);
    } else {
      var last := |x| - 1;
      var rest := Scatter(x[..last], d[..last], n);
      ScatterDot(x[..last], d[..last], n, y);
      ScatterAt(x[..last], d[..last], n);
      assert d[last] !in d[..last];
      DotUpdate(rest, y, d[last], x[last]);
      assert x == x[..last] + [x[last]] && Gather(y, d) == Gather(y, d[..last]) + [y[d[last]]];
      DotSnoc(x[..last], Gather(y, d[..last]), x[last], y[d[last]]);
      assert 0 * y[d[last]] == 0;
    }
  }

  /** `n` distinct axes below `n` are all of them. */
  lemma PermutationHitsAll(d: seq<nat>, n: nat, k: nat)
    requires |d| == n && Below(d, n) && Distinct(d) && k < n
    ensures k in d
  {
    DistinctByCount(d);
    if k !in d {
      SubsetCount(ElementSet(d), UpTo(n) - {k});
    }
  }

  function ElementSet(d: seq<nat>): (s: set<nat>)
    ensures forall x :: x in s <==> x in d
  {
    if d == [] then {} else ElementSet(d[..|d| - 1]) + {d[|d| - 1]}
  }

  function UpTo(n: nat): (s: set<nat>)
    ensures |s| == n && forall x: nat :: x in s <==> x < n
  {
    if n == 0 then {} else UpTo(n - 1) + {n - 1}
  }

  /** A list without repetitions is one with as many elements as entries. */
  lemma {:induction false} DistinctByCount(d: seq<nat>)
    ensures |ElementSet(d)| <= |d|
    ensures |ElementSet(d)| == |d| <==> Distinct(d)
  {
    if d != [] {
      var rest := d[..|d| - 1];
      DistinctByCount(rest);
      DistinctSnoc(rest, d[|d| - 1]);
      assert d == rest + [d[|d| - 1]];
      if d[|d| - 1] in rest {
        assert ElementSet(d) == ElementSet(rest);
      }
    }
  }

  lemma DistinctSnoc(d: seq<nat>, x: nat)
    ensures Distinct(d + [x]) <==> Distinct(d) && x !in d
  {
    var e := d + [x];
    if Distinct(e) {
      forall i, j | 0 <= i < j < |d| ensures d[i] != d[j] { assert e[i] != e[j]; }
      forall i | 0 <= i < |d| ensures d[i] != x { assert e[i] != e[|d|]; }
    }
  }

  lemma {:induction false} SubsetCount(a: set<nat>, b: set<nat>)
    requires a <= b
    ensures |a| <= |b|
  {
    if a != {} {
      var x :| x in a;
      SubsetCount(a - {x}, b - {x});
    }
  }

  // ------------------------------------------------ what each operation computes

  function StepAt(steps: seq<int>, k: nat): int {
    if k < |steps| then steps[k] else 1
  }

  /** Elements of `start, start + step, ..` below `end`; a span of one element is kept as it is. */
  function SliceExtent(start: int, end: int, step: int): nat
    requires step >= 1
  {
    var span := if end > start then end - start else 0;
    if span == 1 then 1 else span / step + if span % step != 0 then 1 else 0
  }

  function SliceStride(start: int, end: int, step: int, stride: int): int {
    if end - start == 1 then 0 else stride * step
  }

  function SliceCoord(start: int, step: int, i: int): int {
    start + i * step
  }

  /** The arguments `slice` takes; only the sizes and the upper bounds are checked by the source. */
  predicate SliceFits(shape: seq<nat>, start: seq<int>, end: seq<int>, steps: seq<int>) {
    && SliceChecks(shape, start, end, steps)
    && SliceDemands(start, steps)
  }

  predicate SliceChecks(shape: seq<nat>, start: seq<int>, end: seq<int>, steps: seq<int>) {
    && |start| == |shape| && |end| == |shape| && (steps == [] || |steps| == |shape|)
    && forall k :: 0 <= k < |shape| ==> end[k] <= shape[k]
  }

  predicate SliceDemands(start: seq<int>, steps: seq<int>) {
    && (forall k :: 0 <= k < |start| ==> start[k] >= 0)
    && forall k :: 0 <= k < |steps| ==> steps[k] >= 1
  }

  function SliceLayout(l: Layout, start: seq<int>, end: seq<int>, steps: seq<int>): (r: Layout)
    requires l.Wf() && SliceFits(l.shape, start, end, steps)
    ensures r.Wf() && |r.shape| == |l.shape|
  {
    Layout(
      seq(|l.shape|, k requires 0 <= k < |l.shape| => SliceExtent(start[k], end[k], StepAt(steps, k))),
      seq(|l.shape|, k requires 0 <= k < |l.shape| => SliceStride(start[k], end[k], StepAt(steps, k), l.strides[k])),
      l.At(start))
  }

  predicate TransposeChecks(shape: seq<nat>, perm: seq<nat>) {
    |perm| == |shape| && Distinct(perm)
  }

  predicate TransposeFits(shape: seq<nat>, perm: seq<nat>) {
    TransposeChecks(shape, perm) && Below(perm, |shape|)
  }

  function TransposeLayout(l: Layout, perm: seq<nat>): (r: Layout)
    requires l.Wf() && TransposeFits(l.shape, perm)
    ensures r.Wf()
  {
    Layout(Gather(l.shape, perm), Gather(l.strides, perm), l.offset)
  }

  predicate ReverseFits(shape: seq<nat>, axes: seq<nat>) {
    Below(axes, |shape|)
  }

  /** What reversing the axes adds to the offset, axis by axis. */
  function ReverseShift(l: Layout, axes: seq<nat>): (c: seq<int>)
    requires l.Wf()
    ensures |c| == |l.shape|
  {
    seq(|l.shape|, k requires 0 <= k < |l.shape| => if k in axes then l.strides[k] * (l.shape[k] as int - 1) else 0)
  }

  /** The layout that counts the listed axes from the end. */
  function ReverseLayout(l: Layout, axes: seq<nat>): (r: Layout)
    requires l.Wf()
    ensures r.Wf()
  {
    Layout(
      l.shape,
      seq(|l.shape|, k requires 0 <= k < |l.shape| => if k in axes then -l.strides[k] else l.strides[k]),
      l.offset + Sum(ReverseShift(l, axes)))
  }

  /** How often an axis is listed. */
  function Times(axes: seq<nat>, k: nat): nat {
    multiset(axes)[k]
  }

  /** A stride turned a number of times. */
  function Turned(times: nat, stride: int): int {
    if times % 2 == 1 then -stride else stride
  }

  /** What that many reversals of an axis add to the offset. */
  function ShiftOf(times: nat, stride: int, n: nat): int {
    times * (stride * (n - 1))
  }

  /** The same when every mention of an axis adds its part again. */
  function ReverseShifts(l: Layout, axes: seq<nat>): (c: seq<int>)
    requires l.Wf()
    ensures |c| == |l.shape|
  {
    seq(|l.shape|, k requires 0 <= k < |l.shape| => ShiftOf(Times(axes, k), l.strides[k], l.shape[k]))
  }

  /** What `reverse` computes: every mention of an axis turns its stride and moves the offset. */
  function ReverseRun(l: Layout, axes: seq<nat>): (r: Layout)
    requires l.Wf()
    ensures r.Wf()
  {
    Layout(
      l.shape,
      seq(|l.shape|, k requires 0 <= k < |l.shape| => Turned(Times(axes, k), l.strides[k])),
      l.offset + Sum(ReverseShifts(l, axes)))
  }

  /** Axes listed an even number of times do not move the address, and the repeated parts of the offset cancel. */
  predicate RepeatsHarmless(l: Layout, axes: seq<nat>)
    requires l.Wf()
  {
    && (forall k :: 0 <= k < |l.shape| && k in axes && Times(axes, k) % 2 == 0 ==>
          l.shape[k] <= 1 || l.strides[k] == 0)
    && Sum(ReverseShifts(l, axes)) == Sum(ReverseShift(l, axes))
  }

  /** The axes of the result that the old axes become; without `dims` the trailing ones. */
  function BroadcastAxes(shape: seq<nat>, to: seq<nat>, dims: seq<nat>): (d: seq<nat>)
    requires dims == [] ==> |shape| <= |to|
  {
    if dims != [] then dims else seq(|shape|, k requires 0 <= k < |shape| => |to| - |shape| + k)
  }

  /** Old axes go to distinct new axes, of the same length or stretched from length 1. */
  predicate BroadcastFits(shape: seq<nat>, to: seq<nat>, dims: seq<nat>) {
    && (dims == [] ==> |shape| <= |to|)
    && var d := BroadcastAxes(shape, to, dims);
      && |d| == |shape| && Distinct(d) && Below(d, |to|)
      && forall k :: 0 <= k < |shape| ==> shape[k] == to[d[k]] || shape[k] == 1
  }

  function BroadcastLayout(l: Layout, to: seq<nat>, dims: seq<nat>): (r: Layout)
    requires l.Wf() && BroadcastFits(l.shape, to, dims)
    ensures r.Wf()
  {
    Layout(to, Scatter(l.strides, BroadcastAxes(l.shape, to, dims), |to|), l.offset)
  }

  /** Every stretched axis has stride 0. */
  predicate StretchedAreZero(l: Layout, to: seq<nat>, dims: seq<nat>)
    requires l.Wf() && BroadcastFits(l.shape, to, dims)
  {
    forall k :: 0 <= k < |l.shape| && l.shape[k] != to[BroadcastAxes(l.shape, to, dims)[k]] ==> l.strides[k] == 0
  }

  // ------------------------------------------------------ what a view shows

  predicate Fits(op: ViewOp, shape: seq<nat>) {
    match op
    case Slice(start, end, steps) => SliceFits(shape, start, end, steps)
    case Transpose(perm) => TransposeFits(shape, perm)
    case Reverse(axes) => ReverseFits(shape, axes)
    case Broadcast(to, dims) => BroadcastFits(shape, to, dims)
    case Reshape(to) => Numel(shape) == Numel(to)
  }

  function NewShape(op: ViewOp, shape: seq<nat>): seq<nat>
    requires Fits(op, shape)
  {
    match op
    case Slice(start, end, steps) =>
      seq(|shape|, k requires 0 <= k < |shape| => SliceExtent(start[k], end[k], StepAt(steps, k)))
    case Transpose(perm) => Gather(shape, perm)
    case Reverse(axes) => shape
    case Broadcast(to, dims) => to
    case Reshape(to) => to
  }

  /** The index of the old array that an index of the new one stands for. */
  function BaseIndex(op: ViewOp, shape: seq<nat>, idx: seq<int>): (base: seq<int>)
    requires Fits(op, shape) && InBounds(idx, NewShape(op, shape))
    ensures |base| == |shape|
  {
    match op
    case Slice(start, end, steps) =>
      seq(|shape|, k requires 0 <= k < |shape| => SliceCoord(start[k], StepAt(steps, k), idx[k]))
    case Transpose(perm) => Scatter(idx, perm, |shape|)
    case Reverse(axes) =>
      seq(|shape|, k requires 0 <= k < |shape| => if k in axes then shape[k] - 1 - idx[k] else idx[k])
    case Broadcast(to, dims) =>
      var d := BroadcastAxes(shape, to, dims);
      seq(|shape|, k requires 0 <= k < |shape| => if shape[k] == to[d[k]] then idx[d[k]] else 0)
    case Reshape(to) =>
      FlattenInverse(idx, to);
      Unflatten(Flatten(idx, to), shape)
  }

  /** The new layout has the old element at `idx`. */
  ghost predicate ReadsAt(l': Layout, op: ViewOp, l: Layout, idx: seq<int>)
    requires l.Wf() && l'.Wf() && Fits(op, l.shape) && l'.shape == NewShape(op, l.shape) && InBounds(idx, l'.shape)
  {
    var base := BaseIndex(op, l.shape, idx);
    InBounds(base, l.shape) && l'.At(idx) == l.At(base)
  }

  /** Both indices select the same place on every axis that moves the address. */
  ghost predicate SameTerms(i: seq<int>, j: seq<int>, s: seq<int>)
    requires |i| == |j| == |s|
  {
    TermsOf(i, s) == TermsOf(j, s)
  }

  /** Indices the old layout cannot tell apart axis by axis, the new one cannot either. */
  ghost predicate KeepsTerms(l': Layout, op: ViewOp, l: Layout, i: seq<int>, j: seq<int>)
    requires l.Wf() && l'.Wf() && Fits(op, l.shape) && l'.shape == NewShape(op, l.shape) && InBounds(i, l'.shape)
    requires InBounds(j, l'.shape)
  {
    SameTerms(BaseIndex(op, l.shape, i), BaseIndex(op, l.shape, j), l.strides) ==> SameTerms(i, j, l'.strides)
  }

  /** `l'` is the view of `l` that the operation promises. */
  ghost predicate IsView(l': Layout, op: ViewOp, l: Layout) {
    && l.Wf() && l'.Wf() && Fits(op, l.shape) && l'.shape == NewShape(op, l.shape)
    && (forall idx :: InBounds(idx, l'.shape) ==> ReadsAt(l', op, l, idx))
    && (forall i, j :: InBounds(i, l'.shape) && InBounds(j, l'.shape) ==> KeepsTerms(l', op, l, i, j))
  }

  lemma SameTermsAt(i: seq<int>, j: seq<int>, s: seq<int>)
    requires |i| == |j| == |s|
    ensures SameTerms(i, j, s) <==> forall k :: 0 <= k < |s| ==> SameTermAt(i, j, s, k)
  {
    forall k | 0 <= k < |s| ensures (TermsOf(i, s)[k] == TermsOf(j, s)[k]) == SameTermAt(i, j, s, k) {
      TermsAt(i, s, k);
      TermsAt(j, s, k);
      SameProduct(i[k], j[k], s[k]);
    }
    if SameTerms(i, j, s) {
      forall k | 0 <= k < |s| ensures SameTermAt(i, j, s, k) {
        assert TermsOf(i, s)[k] == TermsOf(j, s)[k];
      }
    }
  }

  lemma SameProduct(i: int, j: int, s: int)
    ensures i * s == j * s <==> s == 0 || i == j
  {
    if i * s == j * s && s != 0 { CancelFactor(i, j, s); }
  }

  ghost predicate SameTermAt(i: seq<int>, j: seq<int>, s: seq<int>, k: nat)
    requires |i| == |j| == |s| > k
  {
    s[k] == 0 || i[k] == j[k]
  }

  // slice

  lemma SliceAxis(start: int, end: int, step: int, stride: int, n: nat, i: int)
    requires step >= 1 && 0 <= start && end <= n && 0 <= i < SliceExtent(start, end, step)
    ensures 0 <= SliceCoord(start, step, i) < n
    ensures SliceCoord(start, step, i) * stride == i * SliceStride(start, end, step, stride) + start * stride
  {
    var span := end - start;
    if span == 1 {
      assert i == 0;
    } else {
      StepsInside(i, span, step);
      assert (start + i * step) * stride == start * stride + i * step * stride;
      assert i * step * stride == i * (stride * step);
    }
  }

  lemma SliceApart(start: int, end: int, step: int, stride: int, i: int, j: int)
    requires step >= 1
    ensures stride == 0 || SliceCoord(start, step, i) == SliceCoord(start, step, j) ==>
            SliceStride(start, end, step, stride) == 0 || i == j
  {
    SameProduct(i, j, step);
    assert 0 * step == 0;
  }

  lemma StepsInside(i: int, span: int, step: int)
    requires span > 0 && step >= 1 && 0 <= i < span / step + if span % step != 0 then 1 else 0
    ensures 0 <= i * step < span
  {
    var q, r := span / step, span % step;
    DivBounds(span, step);
    MulLe(0, i, step);
    if i < q {
      MulLe(i + 1, q, step);
      assert (i + 1) * step == i * step + step;
    } else {
      assert i * step == q * step;
    }
  }

  lemma SliceReads(l: Layout, start: seq<int>, end: seq<int>, steps: seq<int>, idx: seq<int>)
    requires l.Wf() && SliceFits(l.shape, start, end, steps)
    requires InBounds(idx, SliceLayout(l, start, end, steps).shape)
    ensures ReadsAt(SliceLayout(l, start, end, steps), Slice(start, end, steps), l, idx)
  {
    var l' := SliceLayout(l, start, end, steps);
    var base := BaseIndex(Slice(start, end, steps), l.shape, idx);
    var c := TermsOf(start, l.strides);
    forall k | 0 <= k < |base| ensures 0 <= base[k] < l.shape[k] && ShiftedAt(base, l.strides, idx, l'.strides, c, k) {
      SliceAxis(start[k], end[k], StepAt(steps, k), l.strides[k], l.shape[k], idx[k]);
      TermsAt(start, l.strides, k);
    }
    DotShifted(base, l.strides, idx, l'.strides, c);
    DotIsSum(start, l.strides);
  }

  lemma SliceKeeps(l: Layout, start: seq<int>, end: seq<int>, steps: seq<int>, i: seq<int>, j: seq<int>)
    requires l.Wf() && SliceFits(l.shape, start, end, steps)
    requires InBounds(i, SliceLayout(l, start, end, steps).shape)
    requires InBounds(j, SliceLayout(l, start, end, steps).shape)
    ensures KeepsTerms(SliceLayout(l, start, end, steps), Slice(start, end, steps), l, i, j)
  {
    var op, l' := Slice(start, end, steps), SliceLayout(l, start, end, steps);
    var a, b := BaseIndex(op, l.shape, i), BaseIndex(op, l.shape, j);
    SameTermsAt(a, b, l.strides);
    SameTermsAt(i, j, l'.strides);
    forall k | 0 <= k < |i| && SameTermAt(a, b, l.strides, k) ensures SameTermAt(i, j, l'.strides, k) {
      SliceApart(start[k], end[k], StepAt(steps, k), l.strides[k], i[k], j[k]);
    }
  }

  /** Element `i` of `start, start + step, ..` comes before `end`. */
  predicate SliceInside(start: int, end: int, step: int, i: nat) {
    start + i * step < end
  }

  /** The extent counts exactly the elements before the end. */
  lemma SliceExtentIff(start: int, end: int, step: int, i: nat)
    requires step >= 1
    ensures i < SliceExtent(start, end, step) <==> SliceInside(start, end, step, i)
  {
    var span := if end > start then end - start else 0;
    if span == 1 {
      MulLe(1, step, i);
    } else if span > 0 && i < SliceExtent(start, end, step) {
      StepsInside(i, span, step);
    } else if span > 0 {
      StepsOutside(i, span, step);
    } else {
      DivModUnique(0, step, 0, 0);
      MulLe(0, i, step);
    }
  }

  lemma StepsOutside(i: nat, span: int, step: int)
    requires span > 0 && step >= 1 && i >= span / step + if span % step != 0 then 1 else 0
    ensures i * step >= span
  {
    DivBounds(span, step);
    MulLe(span / step + if span % step != 0 then 1 else 0, i, step);
    assert (span / step + 1) * step == span / step * step + step;
  }

  /** The shape of a slice has room for exactly the elements before the end, on every axis. */
  ghost predicate SliceComplete(shape: seq<nat>, start: seq<int>, end: seq<int>, steps: seq<int>) {
    && |shape| == |start| == |end| && (steps == [] || |steps| == |shape|)
    && forall k :: 0 <= k < |shape| ==> AxisComplete(shape[k], start[k], end[k], if steps == [] then 1 else steps[k])
  }

  ghost predicate AxisComplete(n: nat, start: int, end: int, step: int) {
    forall i: nat :: i < n <==> SliceInside(start, end, step, i)
  }

  /** `slice` shows the elements `start + i * step`, all of them before the end. */
  lemma SliceIsView(l: Layout, start: seq<int>, end: seq<int>, steps: seq<int>)
    requires l.Wf() && SliceFits(l.shape, start, end, steps)
    ensures IsView(SliceLayout(l, start, end, steps), Slice(start, end, steps), l)
    ensures SliceComplete(SliceLayout(l, start, end, steps).shape, start, end, steps)
  {
    forall k | 0 <= k < |l.shape|
      ensures AxisComplete(SliceExtent(start[k], end[k], StepAt(steps, k)), start[k], end[k], StepAt(steps, k))
    {
      forall i: nat
        ensures i < SliceExtent(start[k], end[k], StepAt(steps, k)) <==>
                SliceInside(start[k], end[k], StepAt(steps, k), i)
      {
        SliceExtentIff(start[k], end[k], StepAt(steps, k), i);
      }
    }
    var op, l' := Slice(start, end, steps), SliceLayout(l, start, end, steps);
    forall idx | InBounds(idx, l'.shape) ensures ReadsAt(l', op, l, idx) {
      SliceReads(l, start, end, steps, idx);
    }
    forall i, j | InBounds(i, l'.shape) && InBounds(j, l'.shape) ensures KeepsTerms(l', op, l, i, j) {
      SliceKeeps(l, start, end, steps, i, j);
    }
  }

  /** The element of the array that index `idx` of a slice shows. */
  lemma SliceShows(l: Layout, start: seq<int>, end: seq<int>, steps: seq<int>, idx: seq<int>, base: seq<int>)
    requires l.Wf() && SliceFits(l.shape, start, end, steps) && InBounds(idx, SliceLayout(l, start, end, steps).shape)
    requires |base| == |idx|
    requires forall k :: 0 <= k < |base| ==> base[k] == start[k] + idx[k] * if steps == [] then 1 else steps[k]
    ensures InBounds(base, l.shape) && SliceLayout(l, start, end, steps).At(idx) == l.At(base)
  {
    SliceReads(l, start, end, steps, idx);
    assert base == BaseIndex(Slice(start, end, steps), l.shape, idx);
  }

  /** The slice from the first to the last element is the array itself. */
  lemma WholeSlice(l: Layout)
    requires l.Wf()
    ensures var l' := SliceLayout(l, Zeros(|l.shape|), l.shape, []);
      l'.shape == l.shape && forall idx :: InBounds(idx, l.shape) ==> l'.At(idx) == l.At(idx)
  {
    var zero := Zeros(|l.shape|);
    var l' := SliceLayout(l, zero, l.shape, []);
    forall k | 0 <= k < |l.shape| ensures l'.shape[k] == l.shape[k] {
      DivModUnique(l.shape[k], 1, l.shape[k], 0);
    }
    forall idx | InBounds(idx, l.shape) ensures l'.At(idx) == l.At(idx) {
      SliceShows(l, zero, l.shape, [], idx, idx);
    }
  }

  // transpose

  lemma TransposeReads(l: Layout, perm: seq<nat>, idx: seq<int>)
    requires l.Wf() && TransposeFits(l.shape, perm) && InBounds(idx, TransposeLayout(l, perm).shape)
    ensures ReadsAt(TransposeLayout(l, perm), Transpose(perm), l, idx)
  {
    var n := |l.shape|;
    var base := Scatter(idx, perm, n);
    ScatterAt(idx, perm, n);
    forall k | 0 <= k < n ensures 0 <= base[k] < l.shape[k] {
      PermutationHitsAll(perm, n, k);
      var i :| 0 <= i < |perm| && perm[i] == k;
      assert base[perm[i]] == idx[i];
    }
    ScatterDot(idx, perm, n, l.strides);
  }

  lemma TransposeKeeps(l: Layout, perm: seq<nat>, i: seq<int>, j: seq<int>)
    requires l.Wf() && TransposeFits(l.shape, perm) && InBounds(i, TransposeLayout(l, perm).shape)
    requires InBounds(j, TransposeLayout(l, perm).shape)
    ensures KeepsTerms(TransposeLayout(l, perm), Transpose(perm), l, i, j)
  {
    var l', n := TransposeLayout(l, perm), |l.shape|;
    var a, b := Scatter(i, perm, n), Scatter(j, perm, n);
    ScatterAt(i, perm, n);
    ScatterAt(j, perm, n);
    SameTermsAt(a, b, l.strides);
    SameTermsAt(i, j, l'.strides);
    forall k | 0 <= k < n && SameTermAt(a, b, l.strides, perm[k]) ensures SameTermAt(i, j, l'.strides, k) {
      assert a[perm[k]] == i[k] && b[perm[k]] == j[k] && l'.strides[k] == l.strides[perm[k]];
    }
  }

  /** `transpose` permutes the index. */
  lemma TransposeIsView(l: Layout, perm: seq<nat>)
    requires l.Wf() && TransposeFits(l.shape, perm)
    ensures IsView(TransposeLayout(l, perm), Transpose(perm), l)
  {
    var op, l' := Transpose(perm), TransposeLayout(l, perm);
    forall idx | InBounds(idx, l'.shape) ensures ReadsAt(l', op, l, idx) {
      TransposeReads(l, perm, idx);
    }
    forall i, j | InBounds(i, l'.shape) && InBounds(j, l'.shape) ensures KeepsTerms(l', op, l, i, j) {
      TransposeKeeps(l, perm, i, j);
    }
  }

  /** Index `idx` of a transpose shows the element whose index has `idx[k]` on axis `perm[k]`. */
  lemma TransposeShows(l: Layout, perm: seq<nat>, idx: seq<int>, base: seq<int>)
    requires l.Wf() && TransposeFits(l.shape, perm) && |idx| == |base| == |l.shape|
    requires forall k :: 0 <= k < |perm| ==> idx[k] == base[perm[k]]
    ensures InBounds(base, l.shape) <==> InBounds(idx, TransposeLayout(l, perm).shape)
    ensures InBounds(base, l.shape) ==> TransposeLayout(l, perm).At(idx) == l.At(base)
  {
    var n, shape := |l.shape|, TransposeLayout(l, perm).shape;
    ScatterAt(idx, perm, n);
    forall k | 0 <= k < n ensures base[k] == Scatter(idx, perm, n)[k] {
      PermutationHitsAll(perm, n, k);
      var i :| 0 <= i < |perm| && perm[i] == k;
      assert Scatter(idx, perm, n)[perm[i]] == idx[i];
    }
    assert base == Scatter(idx, perm, n);
    assert InBounds(base, l.shape) ==> InBounds(idx, shape);
    if InBounds(idx, shape) { TransposeReads(l, perm, idx); }
  }

  // reverse

  lemma ReverseAxis(i: int, n: int, stride: int)
    ensures (n - 1 - i) * stride == i * -stride + stride * (n - 1)
  {
  }

  lemma ReverseReads(l: Layout, axes: seq<nat>, idx: seq<int>)
    requires l.Wf() && ReverseFits(l.shape, axes) && InBounds(idx, l.shape)
    ensures ReadsAt(ReverseLayout(l, axes), Reverse(axes), l, idx)
  {
    var l', c := ReverseLayout(l, axes), ReverseShift(l, axes);
    var base := BaseIndex(Reverse(axes), l.shape, idx);
    forall k | 0 <= k < |base| ensures ShiftedAt(base, l.strides, idx, l'.strides, c, k) {
      ReverseAxis(idx[k], l.shape[k], l.strides[k]);
    }
    DotShifted(base, l.strides, idx, l'.strides, c);
  }

  /** Without repetition there is nothing to cancel. */
  lemma DistinctHarmless(l: Layout, axes: seq<nat>)
    requires l.Wf() && Distinct(axes)
    ensures ReverseRun(l, axes) == ReverseLayout(l, axes) && RepeatsHarmless(l, axes)
  {
    forall k | 0 <= k < |l.shape| ensures Times(axes, k) == if k in axes then 1 else 0 {
      DistinctTimes(axes, k);
    }
    assert ReverseShifts(l, axes) == ReverseShift(l, axes);
    assert ReverseRun(l, axes).strides == ReverseLayout(l, axes).strides;
  }

  lemma {:induction false} DistinctTimes(axes: seq<nat>, k: nat)
    requires Distinct(axes)
    ensures Times(axes, k) == if k in axes then 1 else 0
  {
    if axes != [] {
      var rest, a := axes[..|axes| - 1], axes[|axes| - 1];
      assert axes == rest + [a];
      DistinctSnoc(rest, a);
      DistinctTimes(rest, k);
    }
  }

  /** Harmless repetitions leave the addresses and the moving axes as they should be. */
  lemma HarmlessReads(l: Layout, axes: seq<nat>, idx: seq<int>)
    requires l.Wf() && ReverseFits(l.shape, axes) && InBounds(idx, l.shape) && RepeatsHarmless(l, axes)
    ensures ReadsAt(ReverseRun(l, axes), Reverse(axes), l, idx)
  {
    var l', c := ReverseRun(l, axes), ReverseShift(l, axes);
    var base := BaseIndex(Reverse(axes), l.shape, idx);
    forall k | 0 <= k < |base| ensures ShiftedAt(base, l.strides, idx, l'.strides, c, k) {
      ReverseAxis(idx[k], l.shape[k], l.strides[k]);
      assert k in axes <==> Times(axes, k) > 0;
    }
    DotShifted(base, l.strides, idx, l'.strides, c);
  }

  lemma RunKeeps(l: Layout, axes: seq<nat>, i: seq<int>, j: seq<int>)
    requires l.Wf() && ReverseFits(l.shape, axes) && InBounds(i, l.shape) && InBounds(j, l.shape)
    ensures KeepsTerms(ReverseRun(l, axes), Reverse(axes), l, i, j)
  {
    var op, l' := Reverse(axes), ReverseRun(l, axes);
    var a, b := BaseIndex(op, l.shape, i), BaseIndex(op, l.shape, j);
    SameTermsAt(a, b, l.strides);
    SameTermsAt(i, j, l'.strides);
    forall k | 0 <= k < |i| && SameTermAt(a, b, l.strides, k) ensures SameTermAt(i, j, l'.strides, k) {
      assert l'.strides[k] == 0 <==> l.strides[k] == 0;
    }
  }

  /** Reversed along distinct axes, an index shows the element counted from the end of those axes. */
  lemma ReverseShows(l: Layout, axes: seq<nat>, idx: seq<int>, base: seq<int>)
    requires l.Wf() && ReverseFits(l.shape, axes) && Distinct(axes) && InBounds(idx, l.shape) && |base| == |idx|
    requires forall k :: 0 <= k < |base| ==> base[k] == if k in axes then l.shape[k] - 1 - idx[k] else idx[k]
    ensures ReverseRun(l, axes).shape == l.shape && InBounds(base, l.shape)
    ensures ReverseRun(l, axes).At(idx) == l.At(base)
  {
    DistinctHarmless(l, axes);
    ReverseReads(l, axes, idx);
    assert base == BaseIndex(Reverse(axes), l.shape, idx);
  }

  /** The element at index 0 is in place only if the offsets agree. */
  lemma FirstReversed(l: Layout, axes: seq<nat>)
    requires l.Wf() && ReverseFits(l.shape, axes) && Numel(l.shape) > 0
    ensures InBounds(Zeros(|l.shape|), l.shape)
    ensures ReadsAt(ReverseRun(l, axes), Reverse(axes), l, Zeros(|l.shape|)) ==>
              Sum(ReverseShifts(l, axes)) == Sum(ReverseShift(l, axes))
  {
    var zero := Zeros(|l.shape|);
    NumelPositive(l.shape);
    ReverseReads(l, axes, zero);
    DotZeros(zero, ReverseRun(l, axes).strides);
    DotZeros(zero, ReverseLayout(l, axes).strides);
  }

  /** The next element along axis `k` is in place only if the strides agree. */
  lemma NextReversed(l: Layout, axes: seq<nat>, k: nat)
    requires l.Wf() && ReverseFits(l.shape, axes) && Numel(l.shape) > 0 && k < |l.shape| && l.shape[k] > 1
    requires Sum(ReverseShifts(l, axes)) == Sum(ReverseShift(l, axes))
    ensures InBounds(Zeros(|l.shape|)[k := 1], l.shape)
    ensures ReadsAt(ReverseRun(l, axes), Reverse(axes), l, Zeros(|l.shape|)[k := 1]) ==>
              ReverseRun(l, axes).strides[k] == ReverseLayout(l, axes).strides[k]
  {
    var zero, run, right := Zeros(|l.shape|), ReverseRun(l, axes), ReverseLayout(l, axes);
    NumelPositive(l.shape);
    ReverseReads(l, axes, zero[k := 1]);
    DotUpdate(zero, run.strides, k, 1);
    DotUpdate(zero, right.strides, k, 1);
    DotZeros(zero, run.strides);
    DotZeros(zero, right.strides);
    assert 0 * run.strides[k] == 0 == 0 * right.strides[k];
  }

  /** `reverse` shows the right elements exactly when repeated axes are harmless. */
  lemma ReverseIffHarmless(l: Layout, axes: seq<nat>)
    requires l.Wf() && ReverseFits(l.shape, axes) && Numel(l.shape) > 0
    ensures IsView(ReverseRun(l, axes), Reverse(axes), l) <==> RepeatsHarmless(l, axes)
  {
    var op, l' := Reverse(axes), ReverseRun(l, axes);
    if RepeatsHarmless(l, axes) {
      forall idx | InBounds(idx, l'.shape) ensures ReadsAt(l', op, l, idx) {
        HarmlessReads(l, axes, idx);
      }
      forall i, j | InBounds(i, l'.shape) && InBounds(j, l'.shape) ensures KeepsTerms(l', op, l, i, j) {
        RunKeeps(l, axes, i, j);
      }
    } else if IsView(l', op, l) {
      FirstReversed(l, axes);
      forall k | 0 <= k < |l.shape| && k in axes && Times(axes, k) % 2 == 0
        ensures l.shape[k] <= 1 || l.strides[k] == 0
      {
        if l.shape[k] > 1 {
          NextReversed(l, axes, k);
        }
      }
      assert false;
    }
  }

  /** Two elements, reversed along the same axis twice: the first element of the result lies outside the two. */
  lemma ReverseTwiceLeavesTheArray()
    ensures var l, axes := Layout([2], [1], 0), [0, 0];
      && ReverseFits(l.shape, axes) && !IsView(ReverseRun(l, axes), Reverse(axes), l)
      && ReverseRun(l, axes).At([0]) == 2
      && forall idx :: InBounds(idx, l.shape) ==> l.At(idx) < 2
  {
    var l, axes: seq<nat> := Layout([2], [1], 0), [0, 0];
    assert Times(axes, 0) == 2;
    assert !RepeatsHarmless(l, axes);
    assert Numel([2]) == 2 * Numel([2][1..]) && Numel([2][1..]) == 1;
    ReverseIffHarmless(l, axes);
    OneTerm(ReverseShifts(l, axes));
    var r := ReverseRun(l, axes);
    assert r.offset == 2 && r.strides == [1];
    assert Dot([0], [1]) == 0 * 1 + Dot([0][1..], [1][1..]);
    forall idx | InBounds(idx, l.shape) ensures l.At(idx) < 2 {
      assert Dot(idx, [1]) == idx[0] * 1 + Dot(idx[1..], [1][1..]);
    }
  }

  lemma OneTerm(c: seq<int>)
    requires |c| == 1
    ensures Sum(c) == c[0]
  {
    assert Sum(c) == c[0] + Sum(c[1..]);
  }

  // broadcast

  lemma BroadcastReads(l: Layout, to: seq<nat>, dims: seq<nat>, idx: seq<int>)
    requires l.Wf() && BroadcastFits(l.shape, to, dims) && StretchedAreZero(l, to, dims) && InBounds(idx, to)
    ensures ReadsAt(BroadcastLayout(l, to, dims), Broadcast(to, dims), l, idx)
  {
    var d, n := BroadcastAxes(l.shape, to, dims), |l.shape|;
    var base, picked, c := BaseIndex(Broadcast(to, dims), l.shape, idx), Gather(idx, d), Zeros(n);
    forall k | 0 <= k < n ensures 0 <= base[k] < l.shape[k] && ShiftedAt(base, l.strides, picked, l.strides, c, k) {
      assert l.shape[k] != to[d[k]] ==> l.strides[k] == 0;
      assert picked[k] * 0 == 0;
    }
    DotShifted(base, l.strides, picked, l.strides, c);
    ZeroSum(c);
    ScatterDot(l.strides, d, |to|, idx);
    DotComm(idx, Scatter(l.strides, d, |to|));
    DotComm(picked, l.strides);
  }

  lemma BroadcastKeeps(l: Layout, to: seq<nat>, dims: seq<nat>, i: seq<int>, j: seq<int>)
    requires l.Wf() && BroadcastFits(l.shape, to, dims) && StretchedAreZero(l, to, dims) && InBounds(i, to)
    requires InBounds(j, to)
    ensures KeepsTerms(BroadcastLayout(l, to, dims), Broadcast(to, dims), l, i, j)
  {
    var op, l', d := Broadcast(to, dims), BroadcastLayout(l, to, dims), BroadcastAxes(l.shape, to, dims);
    var a, b := BaseIndex(op, l.shape, i), BaseIndex(op, l.shape, j);
    ScatterAt(l.strides, d, |to|);
    SameTermsAt(a, b, l.strides);
    SameTermsAt(i, j, l'.strides);
    if SameTerms(a, b, l.strides) {
      forall m | 0 <= m < |to| ensures SameTermAt(i, j, l'.strides, m) {
        if m in d {
          var k :| 0 <= k < |d| && d[k] == m;
          assert SameTermAt(a, b, l.strides, k) && l'.strides[d[k]] == l.strides[k];
        }
      }
    }
  }

  /** `broadcast_to` repeats the stretched axes, provided their strides are 0. */
  lemma BroadcastIsView(l: Layout, to: seq<nat>, dims: seq<nat>)
    requires l.Wf() && BroadcastFits(l.shape, to, dims) && StretchedAreZero(l, to, dims)
    ensures IsView(BroadcastLayout(l, to, dims), Broadcast(to, dims), l)
  {
    var op, l' := Broadcast(to, dims), BroadcastLayout(l, to, dims);
    forall idx | InBounds(idx, l'.shape) ensures ReadsAt(l', op, l, idx) {
      BroadcastReads(l, to, dims, idx);
    }
    forall i, j | InBounds(i, l'.shape) && InBounds(j, l'.shape) ensures KeepsTerms(l', op, l, i, j) {
      BroadcastKeeps(l, to, dims, i, j);
    }
  }

  /**
   * A broadcast index shows the element with the same places on the old axes and 0 on axes of size 1. Without
   * `dims` the old axes are the last ones of the new shape.
   */
  lemma BroadcastShows(l: Layout, to: seq<nat>, dims: seq<nat>, idx: seq<int>, base: seq<int>)
    requires l.Wf() && BroadcastFits(l.shape, to, dims) && StretchedAreZero(l, to, dims) && InBounds(idx, to)
    requires |base| == |l.shape|
    requires forall k :: 0 <= k < |base| ==>
             base[k] == if l.shape[k] == 1 then 0 else idx[if dims == [] then |to| - |l.shape| + k else dims[k]]
    ensures InBounds(base, l.shape) && BroadcastLayout(l, to, dims).At(idx) == l.At(base)
  {
    BroadcastReads(l, to, dims, idx);
    assert base == BaseIndex(Broadcast(to, dims), l.shape, idx);
  }

  lemma StretchedReads(l: Layout, to: seq<nat>, dims: seq<nat>, k: nat)
    requires l.Wf() && BroadcastFits(l.shape, to, dims) && Numel(to) > 0 && k < |l.shape|
    requires l.shape[k] != to[BroadcastAxes(l.shape, to, dims)[k]] && l.strides[k] != 0
    ensures exists idx :: InBounds(idx, to) && !ReadsAt(BroadcastLayout(l, to, dims), Broadcast(to, dims), l, idx)
  {
    var d, l' := BroadcastAxes(l.shape, to, dims), BroadcastLayout(l, to, dims);
    var zero := Zeros(|to|);
    var idx := zero[d[k] := 1];
    NumelPositive(to);
    assert to[d[k]] > 0;
    assert InBounds(idx, to);
    var base := BaseIndex(Broadcast(to, dims), l.shape, idx);
    assert forall m :: 0 <= m < |d| && m != k ==> d[m] != d[k];
    DotZeros(base, l.strides);
    DotUpdate(zero, l'.strides, d[k], 1);
    DotZeros(zero, l'.strides);
    assert 0 * l'.strides[d[k]] == 0;
    ScatterAt(l.strides, d, |to|);
    assert !ReadsAt(l', Broadcast(to, dims), l, idx);
  }

  /** `broadcast_to` shows the right elements exactly when every stretched axis has stride 0. */
  lemma BroadcastIffStretchedAreZero(l: Layout, to: seq<nat>, dims: seq<nat>)
    requires l.Wf() && BroadcastFits(l.shape, to, dims) && Numel(to) > 0
    ensures IsView(BroadcastLayout(l, to, dims), Broadcast(to, dims), l) <==> StretchedAreZero(l, to, dims)
  {
    if StretchedAreZero(l, to, dims) {
      BroadcastIsView(l, to, dims);
    } else {
      var k :| 0 <= k < |l.shape| && l.shape[k] != to[BroadcastAxes(l.shape, to, dims)[k]] && l.strides[k] != 0;
      StretchedReads(l, to, dims, k);
    }
  }

  /** Axes of size 1 have stride 0, so that they can be stretched. */
  predicate UnitStridesZero(l: Layout)
    requires l.Wf()
  {
    forall k :: 0 <= k < |l.shape| ==> l.shape[k] == 1 ==> l.strides[k] == 0
  }

  /** The slices that leave one element of a longer span: their stride is not cleared. */
  predicate LeavesStride(l: Layout, start: seq<int>, end: seq<int>, steps: seq<int>, k: nat)
    requires l.Wf() && SliceFits(l.shape, start, end, steps) && k < |l.shape|
  {
    1 < end[k] - start[k] <= StepAt(steps, k) && l.strides[k] != 0
  }

  lemma ExtentOne(start: int, end: int, step: int, stride: int)
    requires step >= 1
    ensures (SliceExtent(start, end, step) == 1 ==> SliceStride(start, end, step, stride) == 0) <==>
            !(1 < end - start <= step && stride != 0)
  {
    var span := if end > start then end - start else 0;
    if span > 1 {
      SameProduct(stride, 0, step);
      DivBounds(span, step);
      if span < step {
        DivModUnique(span, step, 0, span);
      } else if span == step {
        DivModUnique(span, step, 1, 0);
      } else {
        var q := span / step;
        if q <= 1 { MulLe(q, 1, step); }
        assert q >= 1 by { if q < 1 { MulLe(q, 0, step); } }
      }
    } else if span == 0 {
      DivModUnique(0, step, 0, 0);
    }
  }

  /** A slice can be broadcast along its axes of size 1 unless it left a stride there. */
  lemma SliceUnitStrides(l: Layout, start: seq<int>, end: seq<int>, steps: seq<int>)
    requires l.Wf() && SliceFits(l.shape, start, end, steps)
    ensures UnitStridesZero(SliceLayout(l, start, end, steps)) <==>
            forall k :: 0 <= k < |l.shape| ==> !LeavesStride(l, start, end, steps, k)
  {
    var l' := SliceLayout(l, start, end, steps);
    forall k | 0 <= k < |l.shape|
      ensures (l'.shape[k] == 1 ==> l'.strides[k] == 0) <==> !LeavesStride(l, start, end, steps, k)
    {
      ExtentOne(start[k], end[k], StepAt(steps, k), l.strides[k]);
    }
  }

  /** Three elements sliced with step 3, then stretched to two: the second element lies outside the three. */
  lemma SliceThenBroadcastLeavesTheArray()
    ensures var l := Layout([3], [1], 0);
      var one := SliceLayout(l, [0], [3], [3]);
      && BroadcastFits(one.shape, [2], [])
      && BroadcastLayout(one, [2], []).At([1]) == 3
      && forall idx :: InBounds(idx, l.shape) ==> l.At(idx) < 3
  {
    var l := Layout([3], [1], 0);
    var one := SliceLayout(l, [0], [3], [3]);
    assert one.shape == [1] && one.strides == [3];
    assert l.At([0]) == 0;
    var two := BroadcastLayout(one, [2], []);
    assert BroadcastAxes([1], [2], []) == [0];
    assert Distinct([0]) && Below([0], 1);
    assert two.strides == [3];
    assert Dot([1], [3]) == 3;
    forall idx | InBounds(idx, l.shape) ensures l.At(idx) < 3 {
      assert Dot(idx[1..], [1][1..]) == 0;
      assert Dot(idx, [1]) == idx[0];
    }
  }

  // reshape

  /** Strides that give every position its old address make a view. */
  lemma ReshapeIsView(l: Layout, to: seq<nat>, strides: seq<int>)
    requires l.Wf() && |strides| == |to| && SameLayout(l.shape, l.strides, to, strides)
    ensures IsView(Layout(to, strides, l.offset), Reshape(to), l)
  {
    var op, l' := Reshape(to), Layout(to, strides, l.offset);
    forall idx | InBounds(idx, to) ensures ReadsAt(l', op, l, idx) {
      FlattenInverse(idx, to);
      var p := Flatten(idx, to);
      UnflattenInBounds(p, l.shape);
      assert SameAt(l.shape, l.strides, to, strides, p);
    }
    forall i, j | InBounds(i, to) && InBounds(j, to) ensures KeepsTerms(l', op, l, i, j) {
      FlattenInverse(i, to);
      FlattenInverse(j, to);
      assert CoarserAt(l.shape, l.strides, to, strides, Flatten(i, to), Flatten(j, to));
    }
  }

  // ------------------------------------------------------------- view chains

  /** Indices with the same address agree on every axis that moves the address. */
  ghost predicate NoClash(l: Layout)
    requires l.Wf()
  {
    forall i, j :: InBounds(i, l.shape) && InBounds(j, l.shape) ==> NoClashAt(l, i, j)
  }

  ghost predicate NoClashAt(l: Layout, i: seq<int>, j: seq<int>)
    requires l.Wf() && |i| == |j| == |l.shape|
  {
    l.At(i) == l.At(j) ==> SameTerms(i, j, l.strides)
  }

  lemma ViewKeepsNoClash(l': Layout, op: ViewOp, l: Layout)
    requires IsView(l', op, l) && NoClash(l)
    ensures NoClash(l')
  {
    forall i, j | InBounds(i, l'.shape) && InBounds(j, l'.shape) ensures NoClashAt(l', i, j) {
      assert ReadsAt(l', op, l, i) && ReadsAt(l', op, l, j) && KeepsTerms(l', op, l, i, j);
      assert NoClashAt(l, BaseIndex(op, l.shape, i), BaseIndex(op, l.shape, j));
    }
  }

  /** A freshly allocated array has no clashes. */
  lemma CompactNoClash(shape: seq<nat>, offset: int)
    ensures NoClash(Layout(shape, CompactStrides(shape), offset))
  {
    var l := Layout(shape, CompactStrides(shape), offset);
    forall i, j | InBounds(i, shape) && InBounds(j, shape) ensures NoClashAt(l, i, j) {
      CompactDot(i, shape);
      CompactDot(j, shape);
      FlattenInverse(i, shape);
      FlattenInverse(j, shape);
    }
  }

  /** Without stride 0 on longer axes, distinct indices have distinct addresses. */
  predicate NoZeroStride(l: Layout)
    requires l.Wf()
  {
    forall k :: 0 <= k < |l.shape| ==> l.shape[k] == 1 || l.strides[k] != 0
  }

  lemma AddressesDistinct(l: Layout, i: seq<int>, j: seq<int>)
    requires l.Wf() && NoClash(l) && NoZeroStride(l) && InBounds(i, l.shape) && InBounds(j, l.shape)
    ensures l.At(i) == l.At(j) ==> i == j
  {
    if l.At(i) == l.At(j) {
      assert NoClashAt(l, i, j);
      SameTermsAt(i, j, l.strides);
      forall k | 0 <= k < |i| ensures i[k] == j[k] {
        assert SameTermAt(i, j, l.strides, k);
      }
    }
  }

  /** Each layout is a view of the one before. */
  ghost predicate Chain(ls: seq<Layout>, ops: seq<ViewOp>) {
    |ls| == |ops| + 1 && forall k :: 0 <= k < |ops| ==> ChainLink(ls, ops, k)
  }

  ghost predicate ChainLink(ls: seq<Layout>, ops: seq<ViewOp>, k: nat)
    requires |ls| == |ops| + 1 && k < |ops|
  {
    IsView(ls[k + 1], ops[k], ls[k])
  }

  /** The index of the first array that an index of the last one stands for: the index maps, composed. */
  ghost function ChainIndex(ls: seq<Layout>, ops: seq<ViewOp>, idx: seq<int>): (base: seq<int>)
    requires Chain(ls, ops) && InBounds(idx, ls[|ops|].shape)
    ensures InBounds(base, ls[0].shape)
    decreases |ops|
  {
    if ops == [] then idx
    else
      var last := |ops| - 1;
      assert ChainLink(ls, ops, last) && ReadsAt(ls[|ops|], ops[last], ls[last], idx);
      ShorterChain(ls, ops);
      ChainIndex(ls[..|ops|], ops[..last], BaseIndex(ops[last], ls[last].shape, idx))
  }

  lemma ShorterChain(ls: seq<Layout>, ops: seq<ViewOp>)
    requires Chain(ls, ops) && ops != []
    ensures Chain(ls[..|ops|], ops[..|ops| - 1])
  {
    var n := |ops| - 1;
    var ls', ops' := ls[..n + 1], ops[..n];
    forall k | 0 <= k < n ensures ChainLink(ls', ops', k) {
      assert ChainLink(ls, ops, k);
    }
  }

  /** What each operation computes when it does not copy; `reshape` keeps the shape or clears its unit axes. */
  ghost predicate Computes(l': Layout, op: ViewOp, l: Layout) {
    && l.Wf() && l'.Wf()
    && match op
       case Slice(start, end, steps) => SliceFits(l.shape, start, end, steps) && l' == SliceLayout(l, start, end, steps)
       case Transpose(perm) => TransposeFits(l.shape, perm) && l' == TransposeLayout(l, perm)
       case Reverse(axes) => ReverseFits(l.shape, axes) && l' == ReverseRun(l, axes)
       case Broadcast(to, dims) => BroadcastFits(l.shape, to, dims) && l' == BroadcastLayout(l, to, dims)
       case Reshape(to) =>
         && l'.shape == to && l'.offset == l.offset && SameLayout(l.shape, l.strides, to, l'.strides)
         && (l' == l || UnitStridesZero(l'))
  }

  /** Each layout is what the code computes from the one before. */
  ghost predicate Computed(ls: seq<Layout>, ops: seq<ViewOp>) {
    |ls| == |ops| + 1 && forall k :: 0 <= k < |ops| ==> ComputedLink(ls, ops, k)
  }

  ghost predicate ComputedLink(ls: seq<Layout>, ops: seq<ViewOp>, k: nat)
    requires |ls| == |ops| + 1 && k < |ops|
  {
    Computes(ls[k + 1], ops[k], ls[k])
  }

  /** A step that has nothing to show, or stretches axes of stride 0 only and repeats reversed axes harmlessly. */
  ghost predicate StepClear(op: ViewOp, l: Layout) {
    match op
    case Reverse(axes) => l.Wf() && ReverseFits(l.shape, axes) && (Numel(l.shape) == 0 || RepeatsHarmless(l, axes))
    case Broadcast(to, dims) =>
      l.Wf() && BroadcastFits(l.shape, to, dims) && (Numel(to) == 0 || StretchedAreZero(l, to, dims))
    case _ => true
  }

  /** A slice that does not keep one element of a longer span, a reverse that names no axis twice, or another step. */
  predicate PlainStep(op: ViewOp, rank: nat) {
    match op
    case Reverse(axes) => Distinct(axes)
    case Slice(start, end, steps) =>
      |start| == |end| == rank && forall k :: 0 <= k < rank ==> !(1 < end[k] - start[k] <= StepAt(steps, k))
    case _ => true
  }

  /** A computed step is the promised view exactly when it is clear. */
  lemma ComputesViewIff(l': Layout, op: ViewOp, l: Layout)
    requires Computes(l', op, l)
    ensures IsView(l', op, l) <==> StepClear(op, l)
  {
    match op
    case Slice(start, end, steps) => SliceIsView(l, start, end, steps);
    case Transpose(perm) => TransposeIsView(l, perm);
    case Reverse(axes) =>
      if Numel(l.shape) > 0 { ReverseIffHarmless(l, axes); } else { NothingShown(l', op, l); }
    case Broadcast(to, dims) =>
      if Numel(to) > 0 { BroadcastIffStretchedAreZero(l, to, dims); } else { NothingShown(l', op, l); }
    case Reshape(to) => ReshapeIsView(l, to, l'.strides);
  }

  lemma NothingShown(l': Layout, op: ViewOp, l: Layout)
    requires l.Wf() && l'.Wf() && Fits(op, l.shape) && l'.shape == NewShape(op, l.shape) && Numel(l'.shape) == 0
    ensures IsView(l', op, l)
  {
    forall idx ensures !InBounds(idx, l'.shape) {
      if InBounds(idx, l'.shape) { FlattenInverse(idx, l'.shape); }
    }
  }

  /** A chain of computed steps is a chain of views exactly when every step is clear. */
  lemma ComputedChainIff(ls: seq<Layout>, ops: seq<ViewOp>)
    requires Computed(ls, ops)
    ensures Chain(ls, ops) <==> forall k :: 0 <= k < |ops| ==> StepClear(ops[k], ls[k])
  {
    forall k | 0 <= k < |ops| ensures ChainLink(ls, ops, k) <==> StepClear(ops[k], ls[k]) {
      assert ComputedLink(ls, ops, k);
      ComputesViewIff(ls[k + 1], ops[k], ls[k]);
    }
  }

  lemma CompactUnitStrides(shape: seq<nat>, offset: int)
    ensures UnitStridesZero(Layout(shape, CompactStrides(shape), offset))
  {
    CompactAt(shape);
  }

  /** Broadcasting keeps stride 0 on axes of size 1: old ones have it, new ones get it. */
  lemma BroadcastUnitStrides(l: Layout, to: seq<nat>, dims: seq<nat>)
    requires l.Wf() && BroadcastFits(l.shape, to, dims) && UnitStridesZero(l)
    ensures UnitStridesZero(BroadcastLayout(l, to, dims)) && StretchedAreZero(l, to, dims)
  {
    var d, l' := BroadcastAxes(l.shape, to, dims), BroadcastLayout(l, to, dims);
    ScatterAt(l.strides, d, |to|);
    forall k | 0 <= k < |to| && to[k] == 1 ensures l'.strides[k] == 0 {
      if k in d {
        var i :| 0 <= i < |d| && d[i] == k;
        assert l.shape[i] == 1;
      }
    }
  }

  /** Every step keeps stride 0 on axes of size 1 unless it is a slice that keeps one element of a longer span. */
  lemma StepUnitStrides(l': Layout, op: ViewOp, l: Layout)
    requires Computes(l', op, l) && UnitStridesZero(l) && PlainStep(op, |l.shape|)
    ensures UnitStridesZero(l') && StepClear(op, l)
  {
    match op
    case Slice(start, end, steps) => SliceUnitStrides(l, start, end, steps);
    case Transpose(perm) =>
    case Reverse(axes) => DistinctHarmless(l, axes);
    case Broadcast(to, dims) => BroadcastUnitStrides(l, to, dims);
    case Reshape(to) =>
  }

  /**
   * No slice of the chain keeps one element of a longer span, no reverse names an axis twice: seen from the
   * arguments, before any call.
   */
  ghost predicate PlainSteps(ls: seq<Layout>, ops: seq<ViewOp>)
    requires |ls| == |ops| + 1
  {
    forall k :: 0 <= k < |ops| ==> PlainStep(ops[k], |ls[k].shape|)
  }

  lemma {:induction false} ChainUnitStrides(ls: seq<Layout>, ops: seq<ViewOp>, n: nat)
    requires Computed(ls, ops) && PlainSteps(ls, ops) && ls[0].Wf() && UnitStridesZero(ls[0]) && n <= |ops|
    ensures ls[n].Wf() && UnitStridesZero(ls[n])
    ensures forall k :: 0 <= k < n ==> StepClear(ops[k], ls[k])
  {
    if n > 0 {
      ChainUnitStrides(ls, ops, n - 1);
      assert ComputedLink(ls, ops, n - 1);
      StepUnitStrides(ls[n], ops[n - 1], ls[n - 1]);
    }
  }

  lemma {:induction false} ViewsRead(ls: seq<Layout>, ops: seq<ViewOp>, idx: seq<int>)
    requires Chain(ls, ops) && ls[0].Wf() && InBounds(idx, ls[|ops|].shape)
    ensures ls[|ops|].Wf() && ls[|ops|].At(idx) == ls[0].At(ChainIndex(ls, ops, idx))
    decreases |ops|
  {
    if ops != [] {
      var last := |ops| - 1;
      assert ChainLink(ls, ops, last) && ReadsAt(ls[|ops|], ops[last], ls[last], idx);
      ShorterChain(ls, ops);
      ViewsRead(ls[..|ops|], ops[..last], BaseIndex(ops[last], ls[last].shape, idx));
    }
  }

  lemma {:induction false} ViewsNoClash(ls: seq<Layout>, ops: seq<ViewOp>)
    requires Chain(ls, ops) && ls[0].Wf() && NoClash(ls[0])
    ensures ls[|ops|].Wf() && NoClash(ls[|ops|])
    decreases |ops|
  {
    if ops != [] {
      var last := |ops| - 1;
      assert ChainLink(ls, ops, last);
      ShorterChain(ls, ops);
      ViewsNoClash(ls[..|ops|], ops[..last]);
      ViewKeepsNoClash(ls[|ops|], ops[last], ls[last]);
    }
  }

  /**
   * From a freshly allocated array, any chain of slices, transposes, reverses, broadcasts and no-copy reshapes
   * with plain steps reads the element at the composed index: at every index, an element of the array.
   */
  lemma ChainReads(ls: seq<Layout>, ops: seq<ViewOp>, idx: seq<int>)
    requires Computed(ls, ops) && PlainSteps(ls, ops) && ls[0].Wf() && UnitStridesZero(ls[0])
    requires InBounds(idx, ls[|ops|].shape)
    ensures Chain(ls, ops) && ls[|ops|].Wf() && InBounds(ChainIndex(ls, ops, idx), ls[0].shape)
    ensures ls[|ops|].At(idx) == ls[0].At(ChainIndex(ls, ops, idx))
  {
    ChainUnitStrides(ls, ops, |ops|);
    ComputedChainIff(ls, ops);
    ViewsRead(ls, ops, idx);
  }

  /** Along such a chain indices share an address only if they agree on every axis that moves it. */
  lemma ChainNoClash(ls: seq<Layout>, ops: seq<ViewOp>)
    requires Computed(ls, ops) && PlainSteps(ls, ops) && ls[0].Wf() && UnitStridesZero(ls[0]) && NoClash(ls[0])
    ensures ls[|ops|].Wf() && NoClash(ls[|ops|])
  {
    ChainUnitStrides(ls, ops, |ops|);
    ComputedChainIff(ls, ops);
    ViewsNoClash(ls, ops);
  }
}

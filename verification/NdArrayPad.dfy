/** Expanding a scalar and padding: `expand` and `pad`, `src/libspu/core/ndarray_ref.cc`. */
module NdArrayPad {
  import opened Arith
  import opened Shape
  import opened Reshape
  import opened Views
  import opened NdArray

  // ------------------------------------------------------------------------ expand

  /** `expand`: one element repeated, by copying what is already there until the buffer is full. */
  method Expand<T(0)>(a: NdArrayRef<T>, to: seq<nat>) returns (r: Outcome<NdArrayRef<T>>)
    requires a.Valid() && Numel(to) > 0
    ensures r.Rejected? <==> Numel(a.shape) != 1
    ensures r.Done? ==> fresh(r.value) && fresh(r.value.buf) && r.value.Valid()
    ensures r.Done? ==> r.value.L() == Layout(to, CompactStrides(to), 0)
    ensures r.Done? ==>
              r.value.buf.Length == Numel(to) && forall t :: 0 <= t < Numel(to) ==> r.value.buf[t] == a.Elements()[0]
  {
    if Numel(a.shape) != 1 {
      return Rejected;
    }
    var ret := NdArrayRef.Allocate(to);
    ScalarAt(a.buf[..], a.L());
    var buf := ret.buf;
    buf[0] := a.buf[a.offset];
    Replicate(buf);
    r := Done(ret);
  }

  /** The doubling loop. */
  method Replicate<T>(buf: array<T>)
    requires buf.Length > 0
    modifies buf
    ensures forall t :: 0 <= t < buf.Length ==> buf[t] == old(buf[0])
  {
    var copied := 1;
    while copied != buf.Length
      invariant 1 <= copied <= buf.Length && forall t :: 0 <= t < copied ==> buf[t] == old(buf[0])
      decreases buf.Length - copied
    {
      var size := if copied < buf.Length - copied then copied else buf.Length - copied;
      for i := 0 to size
        invariant forall t :: 0 <= t < copied + i ==> buf[t] == old(buf[0])
      {
        buf[copied + i] := buf[i];
      }
      copied := copied + size;
    }
  }

  // --------------------------------------------------------------------------- pad

  /** The arguments of `pad`: what is added below, above and between along every axis. */
  datatype Padding = Padding(low: seq<int>, high: seq<int>, interior: seq<int>) {
    predicate Sized(rank: nat) {
      |low| == |high| == |interior| == rank
    }
  }

  /** Where coordinate `i` goes along an axis: past the low edge, with gaps in between. */
  function TargetCoord(i: int, low: int, interior: int): int {
    low + i * (interior + 1)
  }

  /** The axis ends `high` places after the target of its last coordinate; an empty axis loses a gap instead. */
  function PaddedExtent(n: nat, low: int, high: int, interior: int): int {
    if n == 0 then low + high - interior else TargetCoord(n - 1, low, interior) + 1 + high
  }

  /** Gaps are not negative, and the result has elements. */
  predicate Paddable(shape: seq<nat>, pad: Padding) {
    pad.Sized(|shape|) && forall k :: 0 <= k < |shape| ==>
      pad.interior[k] >= 0 && PaddedExtent(shape[k], pad.low[k], pad.high[k], pad.interior[k]) > 0
  }

  function PaddedShape(shape: seq<nat>, pad: Padding): (r: seq<nat>)
    requires Paddable(shape, pad)
    ensures |r| == |shape| && forall k :: 0 <= k < |r| ==> r[k] > 0
  {
    seq(|shape|, k requires 0 <= k < |shape| => PaddedExtent(shape[k], pad.low[k], pad.high[k], pad.interior[k]))
  }

  /** Where an input index goes; the result may be out of bounds. */
  function TargetIndex(idx: seq<int>, pad: Padding): (t: seq<int>)
    requires pad.Sized(|idx|)
    ensures |t| == |idx|
  {
    seq(|idx|, k requires 0 <= k < |idx| => TargetCoord(idx[k], pad.low[k], pad.interior[k]))
  }

  ghost function Target(p: nat, shape: seq<nat>, pad: Padding): seq<int>
    requires pad.Sized(|shape|) && p < Numel(shape)
  {
    TargetIndex(Unflatten(p, shape), pad)
  }

  /** Position `t` of the result is where input position `p` goes. */
  ghost predicate Hits(p: nat, t: nat, shape: seq<nat>, pad: Padding, to: seq<nat>)
    requires pad.Sized(|shape|) && |to| == |shape| && p < Numel(shape) && t < Numel(to)
  {
    Unflatten(t, to) == Target(p, shape, pad)
  }

  lemma TargetsDistinct(p: nat, q: nat, shape: seq<nat>, pad: Padding)
    requires Paddable(shape, pad) && p < Numel(shape) && q < Numel(shape)
    requires Target(p, shape, pad) == Target(q, shape, pad)
    ensures p == q
  {
    var i, j := Unflatten(p, shape), Unflatten(q, shape);
    UnflattenInBounds(p, shape);
    UnflattenInBounds(q, shape);
    forall k | 0 <= k < |i| ensures i[k] == j[k] {
      assert TargetIndex(i, pad)[k] == TargetIndex(j, pad)[k];
      CancelFactor(i[k], j[k], pad.interior[k] + 1);
    }
    assert i == j;
  }

  /** Along one axis: every target is inside if no edge is cut; the first or the last is outside if one is. */
  lemma TargetInside(i: nat, n: nat, low: int, high: int, interior: int)
    requires i < n && interior >= 0
    ensures low >= 0 && high >= 0 ==> 0 <= TargetCoord(i, low, interior) < PaddedExtent(n, low, high, interior)
    ensures low < 0 ==> TargetCoord(0, low, interior) < 0
    ensures high < 0 ==> TargetCoord(n - 1, low, interior) >= PaddedExtent(n, low, high, interior)
  {
    MulLe(i, n - 1, interior + 1);
    MulLe(0, i, interior + 1);
  }

  /** No input is lost if and only if no edge is cut. */
  lemma AllSurviveIff(shape: seq<nat>, pad: Padding)
    requires Paddable(shape, pad) && Numel(shape) > 0
    ensures (forall p: nat :: p < Numel(shape) ==> InBounds(Target(p, shape, pad), PaddedShape(shape, pad))) <==>
            forall k :: 0 <= k < |shape| ==> pad.low[k] >= 0 && pad.high[k] >= 0
  {
    NumelPositive(shape);
    if forall k :: 0 <= k < |shape| ==> pad.low[k] >= 0 && pad.high[k] >= 0 {
      forall p: nat | p < Numel(shape) ensures InBounds(Target(p, shape, pad), PaddedShape(shape, pad)) {
        UnflattenInBounds(p, shape);
        UncutKeeps(Unflatten(p, shape), shape, pad);
      }
    } else {
      var k :| 0 <= k < |shape| && (pad.low[k] < 0 || pad.high[k] < 0);
      CornerLost(shape, pad, k);
    }
  }

  lemma UncutKeeps(idx: seq<int>, shape: seq<nat>, pad: Padding)
    requires Paddable(shape, pad) && InBounds(idx, shape)
    requires forall k :: 0 <= k < |shape| ==> pad.low[k] >= 0 && pad.high[k] >= 0
    ensures InBounds(TargetIndex(idx, pad), PaddedShape(shape, pad))
  {
    var to, target := PaddedShape(shape, pad), TargetIndex(idx, pad);
    forall k | 0 <= k < |shape| ensures 0 <= target[k] < to[k] {
      TargetInside(idx[k], shape[k], pad.low[k], pad.high[k], pad.interior[k]);
    }
  }

  lemma CornerLost(shape: seq<nat>, pad: Padding, k: nat)
    requires Paddable(shape, pad) && k < |shape| && (pad.low[k] < 0 || pad.high[k] < 0)
    requires forall d :: 0 <= d < |shape| ==> shape[d] > 0
    ensures exists p: nat :: p < Numel(shape) && !InBounds(Target(p, shape, pad), PaddedShape(shape, pad))
  {
    var corner := seq(|shape|, d requires 0 <= d < |shape| => if pad.low[k] < 0 then 0 else shape[d] - 1);
    CoordLost(corner, shape, pad, k);
    assert InBounds(corner, shape);
    FlattenInverse(corner, shape);
    assert !InBounds(Target(Flatten(corner, shape), shape, pad), PaddedShape(shape, pad));
  }

  lemma CoordLost(idx: seq<int>, shape: seq<nat>, pad: Padding, k: nat)
    requires Paddable(shape, pad) && k < |shape| == |idx| && shape[k] > 0
    requires if pad.low[k] < 0 then idx[k] == 0 else pad.high[k] < 0 && idx[k] == shape[k] - 1
    ensures !InBounds(TargetIndex(idx, pad), PaddedShape(shape, pad))
  {
    TargetInside(0, shape[k], pad.low[k], pad.high[k], pad.interior[k]);
    assert PaddedShape(shape, pad)[k] == PaddedExtent(shape[k], pad.low[k], pad.high[k], pad.interior[k]);
    assert TargetIndex(idx, pad)[k] == TargetCoord(idx[k], pad.low[k], pad.interior[k]);
  }

  /** The buffer holds the inputs done so far at their targets, and the padding value elsewhere. */
  ghost predicate PaddedSoFar<T>(b: seq<T>, vals: seq<T>, fill: T, shape: seq<nat>, pad: Padding, to: seq<nat>,
                                 done: set<nat>)
  {
    && Paddable(shape, pad) && to == PaddedShape(shape, pad) && |vals| == Numel(shape) && |b| == Numel(to)
    && (forall p :: p in done ==> p < Numel(shape))
    && (forall t: nat :: t < Numel(to) ==> PaddedAt(b, vals, fill, shape, pad, to, done, t))
  }

  ghost predicate PaddedAt<T>(b: seq<T>, vals: seq<T>, fill: T, shape: seq<nat>, pad: Padding, to: seq<nat>,
                              done: set<nat>, t: nat)
    requires pad.Sized(|shape|) && |to| == |shape| && |vals| == Numel(shape) && |b| == Numel(to) > t
    requires forall p :: p in done ==> p < Numel(shape)
  {
    && (forall p :: p in done && Hits(p, t, shape, pad, to) ==> b[t] == vals[p])
    && ((forall p :: p in done ==> !Hits(p, t, shape, pad, to)) ==> b[t] == fill)
  }

  /** The buffer after a write that is skipped when the target is out of bounds. */
  ghost function Stored<T>(b: seq<T>, to: seq<nat>, target: seq<int>, x: T): (r: seq<T>)
    requires |b| == Numel(to)
    ensures |r| == |b|
  {
    if InBounds(target, to) then
      FlattenInverse(target, to);
      b[Flatten(target, to) := x]
    else b
  }

  /** One more input has been written, or its target is out of bounds. */
  lemma OneMoreInput<T>(b: seq<T>, vals: seq<T>, fill: T, shape: seq<nat>, pad: Padding, to: seq<nat>, done: set<nat>,
                        p: nat)
    requires PaddedSoFar(b, vals, fill, shape, pad, to, done) && p < Numel(shape)
    ensures PaddedSoFar(Stored(b, to, Target(p, shape, pad), vals[p]), vals, fill, shape, pad, to, done + {p})
  {
    var target, more := Target(p, shape, pad), done + {p};
    var now := Stored(b, to, target, vals[p]);
    if InBounds(target, to) { FlattenInverse(target, to); }
    forall t: nat | t < Numel(to) ensures PaddedAt(now, vals, fill, shape, pad, to, more, t) {
      assert PaddedAt(b, vals, fill, shape, pad, to, done, t);
      InputAt(b, now, vals, fill, shape, pad, to, done, p, t);
    }
  }

  lemma InputAt<T>(b: seq<T>, now: seq<T>, vals: seq<T>, fill: T, shape: seq<nat>, pad: Padding, to: seq<nat>,
                   done: set<nat>, p: nat, t: nat)
    requires Paddable(shape, pad) && to == PaddedShape(shape, pad) && |vals| == Numel(shape) && |b| == Numel(to) > t
    requires p < Numel(shape)
    requires (forall q :: q in done ==> q < Numel(shape)) && PaddedAt(b, vals, fill, shape, pad, to, done, t)
    requires InBounds(Target(p, shape, pad), to) ==>
             0 <= Flatten(Target(p, shape, pad), to) < Numel(to)
             && Unflatten(Flatten(Target(p, shape, pad), to), to) == Target(p, shape, pad)
    requires now == if InBounds(Target(p, shape, pad), to) then b[Flatten(Target(p, shape, pad), to) := vals[p]] else b
    ensures PaddedAt(now, vals, fill, shape, pad, to, done + {p}, t)
  {
    var target := Target(p, shape, pad);
    UnflattenInBounds(t, to);
    if Hits(p, t, shape, pad, to) {
      forall q | q in done && Hits(q, t, shape, pad, to) ensures q == p {
        TargetsDistinct(p, q, shape, pad);
      }
    } else {
      assert InBounds(target, to) ==> t != Flatten(target, to);
    }
  }

  /** The target of an index, abandoned at the first coordinate that is out of bounds. */
  method TargetOf(idx: seq<int>, pad: Padding, to: seq<nat>) returns (valid: bool, target: seq<int>)
    requires pad.Sized(|idx|) && |to| == |idx|
    ensures valid <==> InBounds(TargetIndex(idx, pad), to)
    ensures valid ==> target == TargetIndex(idx, pad)
  {
    target := seq(|idx|, _ => 0);
    for i := 0 to |idx|
      invariant |target| == |idx|
      invariant forall k :: 0 <= k < i ==> target[k] == TargetIndex(idx, pad)[k] && 0 <= target[k] < to[k]
    {
      var x := pad.low[i] + idx[i] * (pad.interior[i] + 1);
      assert x == TargetCoord(idx[i], pad.low[i], pad.interior[i]);
      target := target[i := x];
      if x < 0 || x >= to[i] {
        assert TargetIndex(idx, pad)[i] == x;
        return false, target;
      }
    }
    assert target == TargetIndex(idx, pad);
    valid := true;
  }

  /** One parallel task of `pad`: the input positions `begin..end`. */
  method PadChunk<T(0)>(result: NdArrayRef<T>, input: NdArrayRef<T>, pad: Padding, begin: nat, end: nat, ghost fill: T,
                        ghost done: set<nat>)
    returns (ghost more: set<nat>)
    requires result.Valid() && input.Valid() && result.buf != input.buf && begin < end <= Numel(input.shape)
    requires result.L() == Layout(result.shape, CompactStrides(result.shape), 0)
    requires result.buf.Length == Numel(result.shape)
    requires PaddedSoFar(result.buf[..], input.Elements(), fill, input.shape, pad, result.shape, done)
    modifies result.buf
    ensures PaddedSoFar(result.buf[..], input.Elements(), fill, input.shape, pad, result.shape, more)
    ensures forall p :: p in more <==> p in done || begin <= p < end
  {
    var unflatten := UnflattenIndex(begin, input.shape);
    UnflattenInBounds(begin, input.shape);
    more := done;
    for idx := begin to end
      invariant InBounds(unflatten, input.shape)
                && Flatten(unflatten, input.shape) == if idx < Numel(input.shape) then idx else idx - 1
      invariant PaddedSoFar(result.buf[..], input.Elements(), fill, input.shape, pad, result.shape, more)
      invariant forall p :: p in more <==> p in done || begin <= p < idx
    {
      FlattenInverse(unflatten, input.shape);
      PadOne(result, input, pad, unflatten, idx, fill, more);
      more := more + {idx};
      var ok, next := BumpIndices(input.shape, unflatten);
      unflatten := next;
    }
  }

  method PadOne<T(0)>(result: NdArrayRef<T>, input: NdArrayRef<T>, pad: Padding, unflatten: seq<int>, ghost idx: nat,
                      ghost fill: T, ghost done: set<nat>)
    requires result.Valid() && input.Valid() && result.buf != input.buf && idx < Numel(input.shape)
    requires unflatten == Unflatten(idx, input.shape)
    requires result.L() == Layout(result.shape, CompactStrides(result.shape), 0)
    requires result.buf.Length == Numel(result.shape)
    requires PaddedSoFar(result.buf[..], input.Elements(), fill, input.shape, pad, result.shape, done)
    modifies result.buf
    ensures PaddedSoFar(result.buf[..], input.Elements(), fill, input.shape, pad, result.shape, done + {idx})
  {
    OneMoreInput(result.buf[..], input.Elements(), fill, input.shape, pad, result.shape, done, idx);
    var valid, target := TargetOf(unflatten, pad, result.shape);
    if valid {
      ContentsAt(input.buf[..], input.L(), idx);
      CompactAddress(target, result.shape);
      result.buf[result.L().At(target)] := input.buf[input.L().At(unflatten)];
    }
  }

  lemma CompactAddress(idx: seq<int>, shape: seq<nat>)
    requires InBounds(idx, shape)
    ensures 0 <= Layout(shape, CompactStrides(shape), 0).At(idx) == Flatten(idx, shape) < Numel(shape)
  {
    CompactDot(idx, shape);
    FlattenInverse(idx, shape);
  }

  /** `deducePadShape`, for arguments of the right size: the result ends `high` places after the last target. */
  method DeducePadShape(shape: seq<nat>, pad: Padding) returns (r: seq<nat>)
    requires Paddable(shape, pad)
    ensures r == PaddedShape(shape, pad)
    ensures forall k :: 0 <= k < |r| && shape[k] > 0 ==>
              r[k] == TargetCoord(shape[k] - 1, pad.low[k], pad.interior[k]) + 1 + pad.high[k]
  {
    r := [];
    for i := 0 to |shape|
      invariant |r| == i && forall k :: 0 <= k < i ==> r[k] == PaddedShape(shape, pad)[k]
    {
      assert PaddedShape(shape, pad)[i] == PaddedExtent(shape[i], pad.low[i], pad.high[i], pad.interior[i]);
      ExtentFormula(shape[i], pad.low[i], pad.high[i], pad.interior[i]);
      r := r + [pad.low[i] + pad.high[i] + pad.interior[i] * (shape[i] as int - 1) + shape[i]];
    }
  }

  lemma ExtentFormula(n: nat, low: int, high: int, interior: int)
    ensures PaddedExtent(n, low, high, interior) == low + high + interior * (n as int - 1) + n
  {
    if n > 0 { assert (n - 1) * (interior + 1) == interior * (n - 1) + (n - 1); }
  }

  /** The tasks of the parallel loop: not empty, inside the input, and together all of it. */
  ghost predicate Covers(chunks: seq<(nat, nat)>, numel: nat) {
    && (forall c :: 0 <= c < |chunks| ==> chunks[c].0 < chunks[c].1 <= numel)
    && (forall p: nat :: p < numel ==> CoveredBy(chunks, |chunks|, p))
  }

  ghost predicate CoveredBy(chunks: seq<(nat, nat)>, n: nat, p: nat)
    requires n <= |chunks|
  {
    exists c :: 0 <= c < n && chunks[c].0 <= p < chunks[c].1
  }

  /** Every surviving input is at its target, and every other place holds the padding value. */
  ghost predicate IsPadded<T>(b: seq<T>, vals: seq<T>, fill: T, shape: seq<nat>, pad: Padding) {
    && Paddable(shape, pad) && |vals| == Numel(shape) && |b| == Numel(PaddedShape(shape, pad))
    && forall t: nat :: t < |b| ==> IsPaddedAt(b, vals, fill, shape, pad, t)
  }

  ghost predicate IsPaddedAt<T>(b: seq<T>, vals: seq<T>, fill: T, shape: seq<nat>, pad: Padding, t: nat)
    requires Paddable(shape, pad) && |vals| == Numel(shape) && |b| == Numel(PaddedShape(shape, pad)) > t
  {
    var to := PaddedShape(shape, pad);
    && (forall p: nat :: p < Numel(shape) && Hits(p, t, shape, pad, to) ==> b[t] == vals[p])
    && ((forall p: nat :: p < Numel(shape) ==> !Hits(p, t, shape, pad, to)) ==> b[t] == fill)
  }

  /** In coordinates: input `idx` stands at `low + idx * (interior + 1)` where that is inside the result. */
  lemma PaddedShows<T>(b: seq<T>, vals: seq<T>, fill: T, shape: seq<nat>, pad: Padding, idx: seq<int>, t: seq<int>)
    requires IsPadded(b, vals, fill, shape, pad) && InBounds(idx, shape) && |t| == |shape|
    requires forall k :: 0 <= k < |t| ==> t[k] == pad.low[k] + idx[k] * (pad.interior[k] + 1)
    ensures forall k :: 0 <= k < |shape| ==>
              PaddedShape(shape, pad)[k] == pad.low[k] + pad.high[k] + pad.interior[k] * (shape[k] - 1) + shape[k]
    ensures InBounds(t, PaddedShape(shape, pad)) ==>
              && 0 <= Flatten(idx, shape) < |vals| && 0 <= Flatten(t, PaddedShape(shape, pad)) < |b|
              && b[Flatten(t, PaddedShape(shape, pad))] == vals[Flatten(idx, shape)]
  {
    var to := PaddedShape(shape, pad);
    forall k | 0 <= k < |shape|
      ensures to[k] == pad.low[k] + pad.high[k] + pad.interior[k] * (shape[k] - 1) + shape[k]
    {
      ExtentFormula(shape[k], pad.low[k], pad.high[k], pad.interior[k]);
    }
    if InBounds(t, to) {
      FlattenInverse(idx, shape);
      FlattenInverse(t, to);
      var p, q := Flatten(idx, shape), Flatten(t, to);
      assert t == TargetIndex(idx, pad);
      assert Hits(p, q, shape, pad, to) && IsPaddedAt(b, vals, fill, shape, pad, q);
    }
  }

  lemma AllDone<T>(b: seq<T>, vals: seq<T>, fill: T, shape: seq<nat>, pad: Padding, done: set<nat>)
    requires Paddable(shape, pad) && PaddedSoFar(b, vals, fill, shape, pad, PaddedShape(shape, pad), done)
    requires forall p: nat :: p < Numel(shape) ==> p in done
    ensures IsPadded(b, vals, fill, shape, pad)
  {
    forall t: nat | t < |b| ensures IsPaddedAt(b, vals, fill, shape, pad, t) {
      assert PaddedAt(b, vals, fill, shape, pad, PaddedShape(shape, pad), done, t);
    }
  }

  /** `pad`, with the tasks of its parallel loop in any order. */
  method Pad<T(0)>(input: NdArrayRef<T>, value: NdArrayRef<T>, pad: Padding, chunks: seq<(nat, nat)>)
    returns (r: Outcome<NdArrayRef<T>>)
    requires input.Valid() && value.Valid() && Covers(chunks, Numel(input.shape))
    requires pad.Sized(|input.shape|) ==> Paddable(input.shape, pad)
    ensures r.Rejected? <==> !pad.Sized(|input.shape|) || Numel(value.shape) != 1
    ensures r.Done? ==> fresh(r.value) && fresh(r.value.buf) && r.value.Valid()
    ensures r.Done? ==> r.value.shape == PaddedShape(input.shape, pad)
    ensures r.Done? ==> IsPadded(r.value.Elements(), input.Elements(), value.Elements()[0], input.shape, pad)
  {
    if |pad.low| != |input.shape| || |pad.high| != |input.shape| || |pad.interior| != |input.shape| {
      return Rejected;
    }
    var to := DeducePadShape(input.shape, pad);
    NumelPositive(to);
    r := Expand(value, to);
    if r.Rejected? {
      return;
    }
    ghost var fill := value.Elements()[0];
    FillAll(r.value, input, pad, chunks, fill);
    CompactContents(r.value.buf[..], to);
  }

  method FillAll<T(0)>(result: NdArrayRef<T>, input: NdArrayRef<T>, pad: Padding, chunks: seq<(nat, nat)>,
                       ghost fill: T)
    requires result.Valid() && input.Valid() && result.buf != input.buf && Covers(chunks, Numel(input.shape))
    requires Paddable(input.shape, pad) && result.shape == PaddedShape(input.shape, pad)
    requires result.L() == Layout(result.shape, CompactStrides(result.shape), 0)
    requires result.buf.Length == Numel(result.shape)
    requires forall t :: 0 <= t < result.buf.Length ==> result.buf[t] == fill
    modifies result.buf
    ensures IsPadded(result.buf[..], input.Elements(), fill, input.shape, pad)
  {
    ghost var done: set<nat> := {};
    for c := 0 to |chunks|
      invariant PaddedSoFar(result.buf[..], input.Elements(), fill, input.shape, pad, result.shape, done)
      invariant forall p: nat :: CoveredBy(chunks, c, p) ==> p in done
    {
      done := PadChunk(result, input, pad, chunks[c].0, chunks[c].1, fill, done);
    }
    AllDone(result.buf[..], input.Elements(), fill, input.shape, pad, done);
  }
}

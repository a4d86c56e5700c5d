/** Operations that fill a new array: `concatenate`, `expand`, `pad`, `pack` and `unpack`;
    `src/libspu/core/ndarray_ref.cc`, `src/libspu/core/ndarray_ref.h`. */
module NdArrayOps {
  import opened Arith
  import opened Shape
  import opened Reshape
  import opened Views
  import opened Copying
  import opened NdArray

  // ------------------------------------------------------------------- concatenate

  /** An array by its shape and its elements in row-major order. */
  datatype Piece<T> = Piece(shape: seq<nat>, vals: seq<T>)

  ghost predicate AxisInside<T>(pieces: seq<Piece<T>>, axis: nat) {
    forall k :: 0 <= k < |pieces| ==> axis < |pieces[k].shape|
  }

  ghost predicate Fitting<T>(pieces: seq<Piece<T>>, shape: seq<nat>, axis: nat) {
    axis < |shape| && forall k :: 0 <= k < |pieces| ==> FittingAt(pieces, shape, axis, k)
  }

  /** Same extents as the result except along the axis. */
  ghost predicate FittingAt<T>(pieces: seq<Piece<T>>, shape: seq<nat>, axis: nat, k: nat)
    requires k < |pieces| && axis < |shape|
  {
    && |pieces[k].shape| == |shape| && |pieces[k].vals| == Numel(pieces[k].shape)
    && forall d :: 0 <= d < |shape| && d != axis ==> pieces[k].shape[d] == shape[d]
  }

  /** Total extent of the first `n` pieces along the axis. */
  ghost function Extent<T>(pieces: seq<Piece<T>>, axis: nat, n: nat): nat
    requires n <= |pieces| && AxisInside(pieces, axis)
  {
    if n == 0 then 0 else Extent(pieces, axis, n - 1) + pieces[n - 1].shape[axis]
  }

  /** The piece that coordinate `x` falls into. */
  ghost function PieceOf<T>(pieces: seq<Piece<T>>, axis: nat, n: nat, x: nat): (k: nat)
    requires n <= |pieces| && AxisInside(pieces, axis) && x < Extent(pieces, axis, n)
    ensures k < n && Extent(pieces, axis, k) <= x < Extent(pieces, axis, k + 1)
  {
    if x >= Extent(pieces, axis, n - 1) then n - 1 else PieceOf(pieces, axis, n - 1, x)
  }

  /** Position `p` holds the element of the piece its coordinate falls into, counted from that piece's start. */
  ghost predicate CellAt<T>(now: seq<T>, shape: seq<nat>, axis: nat, pieces: seq<Piece<T>>, n: nat, p: nat)
    requires Fitting(pieces, shape, axis) && n <= |pieces| && |now| == Numel(shape) && p < |now|
    requires AxisInside(pieces, axis)
  {
    var x := Unflatten(p, shape)[axis];
    0 <= x < Extent(pieces, axis, n) ==> CellIs(now[p], shape, axis, pieces, PieceOf(pieces, axis, n, x), p)
  }

  /** The value is the element of piece `k` for position `p`. */
  ghost predicate CellIs<T>(value: T, shape: seq<nat>, axis: nat, pieces: seq<Piece<T>>, k: nat, p: nat)
    requires axis < |shape| && AxisInside(pieces, axis) && k < |pieces| && p < Numel(shape)
  {
    var idx := Unflatten(p, shape);
    var own := idx[axis := idx[axis] - Extent(pieces, axis, k)];
    FittingAt(pieces, shape, axis, k) && InBounds(own, pieces[k].shape)
    && 0 <= Flatten(own, pieces[k].shape) < |pieces[k].vals| && value == pieces[k].vals[Flatten(own, pieces[k].shape)]
  }

  ghost predicate Filled<T>(now: seq<T>, shape: seq<nat>, axis: nat, pieces: seq<Piece<T>>, n: nat) {
    && Fitting(pieces, shape, axis) && n <= |pieces| && |now| == Numel(shape)
    && AxisInside(pieces, axis)
    && forall p: nat :: p < Numel(shape) ==> CellAt(now, shape, axis, pieces, n, p)
  }

  lemma FittingInside<T>(pieces: seq<Piece<T>>, shape: seq<nat>, axis: nat)
    requires Fitting(pieces, shape, axis)
    ensures AxisInside(pieces, axis)
  {
    forall k | 0 <= k < |pieces| ensures axis < |pieces[k].shape| {
      assert FittingAt(pieces, shape, axis, k);
    }
  }

  function StartAt(rank: nat, axis: nat, off: nat): (s: seq<int>)
    requires axis < rank
    ensures |s| == rank
  {
    Zeros(rank)[axis := off]
  }

  /** Writing one more piece behind the ones already there. */
  lemma OneMorePiece<T>(now: seq<T>, was: seq<T>, shape: seq<nat>, axis: nat, pieces: seq<Piece<T>>, n: nat)
    requires n < |pieces| && Filled(was, shape, axis, pieces, n) && AxisInside(pieces, axis)
    requires Updated(now, was, shape, pieces[n].vals, StartAt(|shape|, axis, Extent(pieces, axis, n)), pieces[n].shape)
    ensures Filled(now, shape, axis, pieces, n + 1)
  {
    var m := n + 1;
    forall p: nat | p < Numel(shape) ensures CellAt(now, shape, axis, pieces, m, p) {
      assert CellAt(was, shape, axis, pieces, n, p);
      assert UpdatedAt(now, was, shape, pieces[n].vals, StartAt(|shape|, axis, Extent(pieces, axis, n)),
                       pieces[n].shape, p);
      PieceCell(now, was, shape, axis, pieces, n, p);
    }
  }

  lemma PieceCell<T>(now: seq<T>, was: seq<T>, shape: seq<nat>, axis: nat, pieces: seq<Piece<T>>, n: nat, p: nat)
    requires n < |pieces| && Fitting(pieces, shape, axis) && AxisInside(pieces, axis)
    requires |now| == |was| == Numel(shape) > p
    requires |pieces[n].vals| == Numel(pieces[n].shape) && CellAt(was, shape, axis, pieces, n, p)
    requires UpdatedAt(now, was, shape, pieces[n].vals, StartAt(|shape|, axis, Extent(pieces, axis, n)),
                       pieces[n].shape, p)
    ensures CellAt(now, shape, axis, pieces, n + 1, p)
  {
    var idx, off, size := Unflatten(p, shape), Extent(pieces, axis, n), pieces[n].shape;
    var start := StartAt(|shape|, axis, off);
    UnflattenInBounds(p, shape);
    assert FittingAt(pieces, shape, axis, n);
    PieceWindow(idx, shape, axis, off, size);
    if off <= idx[axis] < off + size[axis] {
      OffsetsInBounds(idx, start, size);
      assert CellIs(now[p], shape, axis, pieces, n, p);
    }
  }

  /** The window of a piece is the cells whose coordinate falls into it. */
  lemma PieceWindow(idx: seq<int>, shape: seq<nat>, axis: nat, off: nat, size: seq<nat>)
    requires InBounds(idx, shape) && axis < |shape| == |size|
    requires forall d :: 0 <= d < |shape| && d != axis ==> size[d] == shape[d]
    ensures InWindow(idx, StartAt(|shape|, axis, off), size) <==> off <= idx[axis] < off + size[axis]
    ensures Offsets(idx, StartAt(|shape|, axis, off)) == idx[axis := idx[axis] - off]
  {
  }

  lemma {:induction false} ExtentGrows<T>(pieces: seq<Piece<T>>, axis: nat, k: nat, n: nat)
    requires k <= n <= |pieces| && AxisInside(pieces, axis)
    ensures Extent(pieces, axis, k) <= Extent(pieces, axis, n)
    decreases n
  {
    if k < n { ExtentGrows(pieces, axis, k, n - 1); }
  }

  /** Copies one array into its place in the result. */
  method CopyPiece<T(0)>(r: NdArrayRef<T>, x: NdArrayRef<T>, start: seq<int>)
    requires r.Valid() && x.Valid() && x.buf != r.buf && WindowFits(r.shape, start, x.shape)
    requires r.L() == Layout(r.shape, CompactStrides(r.shape), 0)
    modifies r.buf
    ensures Updated(r.Elements(), old(r.Elements()), r.shape, x.Elements(), start, x.shape)
  {
    var window := r.Slice(start, WindowEnd(start, x.shape), Ones(|start|));
    CompactNoClash(r.shape, 0);
    if Numel(r.shape) > 0 { CompactNoZeroStride(r.shape); }
    WindowHasExtent(r.L(), start, x.shape);
    WindowWritten(r.buf[..], r.L(), start, x.shape, x.Elements());
    StartAtZero(x.shape);
    assert x.Elements()[0..][..Numel(x.shape)] == x.Elements();
    CopySlice(x, Zeros(|x.shape|), window.value, Zeros(|x.shape|), Numel(x.shape));
  }

  /** What the pieces are: the arrays, in order. */
  ghost predicate ArePieces<T(0)>(xs: seq<NdArrayRef<T>>, pieces: seq<Piece<T>>)
    reads xs, set x | x in xs :: x.buf
  {
    |xs| == |pieces| && forall k :: 0 <= k < |xs| ==> IsPiece(xs[k], pieces[k])
  }

  ghost predicate IsPiece<T(0)>(x: NdArrayRef<T>, piece: Piece<T>)
    reads x, x.buf
  {
    x.Valid() && piece == Piece(x.shape, x.Elements())
  }

  /** `concatenate`: every cell of the result is filled from the piece it belongs to. */
  method Concatenate<T(0)>(xs: seq<NdArrayRef<T>>, axis: nat, ghost pieces: seq<Piece<T>>) returns (r: NdArrayRef<T>)
    requires xs != [] && axis < |xs[0].shape| && ArePieces(xs, pieces) && Fitting(pieces, xs[0].shape, axis)
    ensures fresh(r) && fresh(r.buf) && r.Valid() && AxisInside(pieces, axis)
    ensures r.shape == xs[0].shape[axis := Extent(pieces, axis, |pieces|)]
    ensures Filled(r.Elements(), r.shape, axis, pieces, |pieces|)
  {
    FittingInside(pieces, xs[0].shape, axis);
    var resultShape := ResultShape(xs, axis, pieces);
    r := NdArrayRef.Allocate(resultShape);
    FittingResult(pieces, xs[0].shape, axis, resultShape);
    NothingFilled(r.Elements(), r.shape, axis, pieces);
    FillPieces(r, xs, axis, pieces);
  }

  method ResultShape<T(0)>(xs: seq<NdArrayRef<T>>, axis: nat, ghost pieces: seq<Piece<T>>) returns (shape: seq<nat>)
    requires xs != [] && axis < |xs[0].shape| && ArePieces(xs, pieces) && AxisInside(pieces, axis)
    ensures shape == xs[0].shape[axis := Extent(pieces, axis, |pieces|)]
  {
    shape := xs[0].shape;
    for k := 1 to |xs|
      invariant shape == xs[0].shape[axis := Extent(pieces, axis, k)]
    {
      shape := shape[axis := shape[axis] + xs[k].shape[axis]];
    }
  }

  /** The result array, with the first `n` pieces in place. */
  ghost predicate FilledBy<T(0)>(r: NdArrayRef<T>, axis: nat, pieces: seq<Piece<T>>, n: nat)
    reads r, r.buf
  {
    && r.Valid() && r.L() == Layout(r.shape, CompactStrides(r.shape), 0)
    && Filled(r.Elements(), r.shape, axis, pieces, n) && r.shape[axis] == Extent(pieces, axis, |pieces|)
  }

  method FillPieces<T(0)>(r: NdArrayRef<T>, xs: seq<NdArrayRef<T>>, axis: nat, ghost pieces: seq<Piece<T>>)
    requires ArePieces(xs, pieces) && FilledBy(r, axis, pieces, 0) && forall k :: 0 <= k < |xs| ==> xs[k].buf != r.buf
    modifies r.buf
    ensures FilledBy(r, axis, pieces, |pieces|)
  {
    var off := 0;
    for k := 0 to |xs|
      invariant FilledBy(r, axis, pieces, k) && off == Extent(pieces, axis, k)
      invariant OtherPieces(r, xs, pieces, k)
    {
      off := FillNext(r, xs, axis, off, pieces, k);
    }
  }

  /** One pass of the loop of `concatenate`. */
  method FillNext<T(0)>(r: NdArrayRef<T>, xs: seq<NdArrayRef<T>>, axis: nat, off: nat, ghost pieces: seq<Piece<T>>,
                        k: nat) returns (next: nat)
    requires OtherPieces(r, xs, pieces, k) && k < |xs|
    requires FilledBy(r, axis, pieces, k) && off == Extent(pieces, axis, k)
    modifies r.buf
    ensures FilledBy(r, axis, pieces, k + 1) && next == Extent(pieces, axis, k + 1)
    ensures OtherPieces(r, xs, pieces, k + 1)
  {
    assert OtherPiece(r, xs[k], pieces[k]);
    next := FillPiece(r, xs[k], axis, off, pieces, k);
  }

  /** The pieces still to be copied. */
  ghost predicate OtherPieces<T(0)>(r: NdArrayRef<T>, xs: seq<NdArrayRef<T>>, pieces: seq<Piece<T>>, k: nat)
    reads r, xs, set x | x in xs :: x.buf
  {
    |xs| == |pieces| && forall j :: k <= j < |xs| ==> OtherPiece(r, xs[j], pieces[j])
  }

  /** A piece to copy from, in another buffer than the result. */
  ghost predicate OtherPiece<T(0)>(r: NdArrayRef<T>, x: NdArrayRef<T>, piece: Piece<T>)
    reads r, x, x.buf
  {
    x.buf != r.buf && IsPiece(x, piece)
  }

  method FillPiece<T(0)>(r: NdArrayRef<T>, x: NdArrayRef<T>, axis: nat, off: nat, ghost pieces: seq<Piece<T>>,
                         ghost k: nat) returns (next: nat)
    requires FilledBy(r, axis, pieces, k) && off == Extent(pieces, axis, k)
    requires k < |pieces| && OtherPiece(r, x, pieces[k])
    modifies r.buf
    ensures FilledBy(r, axis, pieces, k + 1) && next == Extent(pieces, axis, k + 1)
  {
    ghost var was := r.Elements();
    PieceFits(pieces, axis, r.shape, k);
    CopyPiece(r, x, StartAt(|r.shape|, axis, off));
    OneMorePiece(r.Elements(), was, r.shape, axis, pieces, k);
    next := off + x.shape[axis];
  }

  lemma FittingResult<T>(pieces: seq<Piece<T>>, shape: seq<nat>, axis: nat, result: seq<nat>)
    requires Fitting(pieces, shape, axis) && |result| == |shape|
    requires forall d :: 0 <= d < |shape| && d != axis ==> result[d] == shape[d]
    ensures Fitting(pieces, result, axis)
  {
    forall k | 0 <= k < |pieces| ensures FittingAt(pieces, result, axis, k) {
      assert FittingAt(pieces, shape, axis, k);
    }
  }

  lemma NothingFilled<T>(now: seq<T>, shape: seq<nat>, axis: nat, pieces: seq<Piece<T>>)
    requires Fitting(pieces, shape, axis) && |now| == Numel(shape)
    ensures Filled(now, shape, axis, pieces, 0)
  {
    FittingInside(pieces, shape, axis);
  }

  lemma PieceFits<T>(pieces: seq<Piece<T>>, axis: nat, shape: seq<nat>, k: nat)
    requires k < |pieces| && Fitting(pieces, shape, axis) && AxisInside(pieces, axis)
    requires shape[axis] == Extent(pieces, axis, |pieces|)
    ensures WindowFits(shape, StartAt(|shape|, axis, Extent(pieces, axis, k)), pieces[k].shape)
  {
    assert FittingAt(pieces, shape, axis, k);
    ExtentGrows(pieces, axis, k + 1, |pieces|);
  }

  // ----------------------------------------------------------------- pack and unpack

  /** The elements of the first `n` pieces, one after the other. */
  ghost function Flat<T>(pieces: seq<Piece<T>>, n: nat): seq<T>
    requires n <= |pieces|
  {
    if n == 0 then [] else Flat(pieces, n - 1) + pieces[n - 1].vals
  }

  /** Addresses of a compact view from `off` on. */
  lemma CompactFrom(shape: seq<nat>, off: nat, n: nat)
    requires off + Numel(shape) <= n
    ensures InBuffer(Layout(shape, CompactStrides(shape), off), n) && NoClash(Layout(shape, CompactStrides(shape), off))
    ensures forall p: nat :: p < Numel(shape) ==> Addr(Layout(shape, CompactStrides(shape), off), p) == off + p
  {
    var l := Layout(shape, CompactStrides(shape), off);
    CompactNoClash(shape, off);
    forall p: nat | p < Numel(shape) ensures AddrIn(l, n, p) && Addr(l, p) == off + p {
      UnflattenInBounds(p, shape);
      CompactDot(Unflatten(p, shape), shape);
    }
  }

  lemma CompactWritten<T>(b: seq<T>, shape: seq<nat>, off: nat, vals: seq<T>, n: nat)
    requires off + Numel(shape) <= |b| && n <= Numel(shape) && n <= |vals|
    ensures InBuffer(Layout(shape, CompactStrides(shape), off), |b|)
    ensures Written(b, Layout(shape, CompactStrides(shape), off), 0, vals, n) == b[..off] + vals[..n] + b[off + n..]
  {
    CompactFrom(shape, off, |b|);
    RunWritten(b, Layout(shape, CompactStrides(shape), off), off, vals, n);
  }

  /** Writing to neighbouring addresses in order. */
  lemma RunWritten<T>(b: seq<T>, l: Layout, off: nat, vals: seq<T>, n: nat)
    requires InBuffer(l, |b|) && n <= Numel(l.shape) && n <= |vals| && off + n <= |b|
    requires forall p: nat :: p < n ==> Addr(l, p) == off + p
    ensures Written(b, l, 0, vals, n) == Patched(b, off, vals, n)
  {
    forall j | 0 <= j < n ensures Places(l, 0, n, |b|)[j] == off + j {
      PlaceAt(l, 0, n, |b|, j);
    }
    WriteRun(b, Places(l, 0, n, |b|), off, vals, n);
  }

  lemma CompactReads<T>(b: seq<T>, shape: seq<nat>, off: nat)
    requires off + Numel(shape) <= |b|
    ensures InBuffer(Layout(shape, CompactStrides(shape), off), |b|)
    ensures Contents(b, Layout(shape, CompactStrides(shape), off)) == b[off..off + Numel(shape)]
  {
    CompactFrom(shape, off, |b|);
    var l := Layout(shape, CompactStrides(shape), off);
    forall p: nat | p < Numel(shape) ensures Contents(b, l)[p] == b[off..off + Numel(shape)][p] {
      ContentsAt(b, l, p);
    }
  }

  /** The packed buffer, with the first `n` pieces in place. */
  ghost predicate PackedTo<T(0)>(buf: array<T>, pieces: seq<Piece<T>>, n: nat, off: nat)
    reads buf
  {
    n <= |pieces| && off <= buf.Length && buf[..off] == Flat(pieces, n)
  }

  /** `pack`: all arrays one after the other in a new flat array. */
  method Pack<T(0)>(xs: seq<NdArrayRef<T>>, ghost pieces: seq<Piece<T>>)
    returns (result: NdArrayRef<T>, info: seq<seq<nat>>)
    requires xs != [] && ArePieces(xs, pieces)
    ensures fresh(result) && fresh(result.buf) && result.Valid() && result.L() == PartLayout(result.shape, 0)
    ensures |info| == |xs| && forall k :: 0 <= k < |xs| ==> info[k] == xs[k].shape
    ensures result.shape == [|Flat(pieces, |pieces|)|] && result.buf[..] == Flat(pieces, |pieces|)
  {
    var total := 0;
    info := [];
    for k := 0 to |xs|
      invariant total == |Flat(pieces, k)| && |info| == k && forall j :: 0 <= j < k ==> info[j] == xs[j].shape
    {
      total := total + Numel(xs[k].shape);
      info := info + [xs[k].shape];
    }
    SingleNumel(total);
    result := NdArrayRef.Allocate([total]);
    PackAll(result.buf, xs, pieces);
  }

  method PackAll<T(0)>(buf: array<T>, xs: seq<NdArrayRef<T>>, ghost pieces: seq<Piece<T>>)
    requires ArePieces(xs, pieces) && buf.Length == |Flat(pieces, |pieces|)|
    requires forall k :: 0 <= k < |xs| ==> xs[k].buf != buf
    modifies buf
    ensures buf[..] == Flat(pieces, |pieces|)
  {
    var offset := 0;
    for k := 0 to |xs|
      modifies buf
      invariant PackedTo(buf, pieces, k, offset)
    {
      assert old(xs[k].Valid() && pieces[k] == Piece(xs[k].shape, xs[k].Elements())) && xs[k].buf != buf;
      offset := PackOne(buf, xs[k], offset, pieces, k);
    }
  }

  method PackOne<T(0)>(buf: array<T>, x: NdArrayRef<T>, offset: nat, ghost pieces: seq<Piece<T>>, ghost k: nat)
    returns (next: nat)
    requires k < |pieces| && x.Valid() && x.buf != buf && pieces[k] == Piece(x.shape, x.Elements())
    requires PackedTo(buf, pieces, k, offset) && buf.Length == |Flat(pieces, |pieces|)|
    modifies buf
    ensures PackedTo(buf, pieces, k + 1, next)
  {
    FlatGrows(pieces, k + 1, |pieces|);
    CompactFrom(x.shape, offset, buf.Length);
    var strides := MakeCompactStrides(x.shape);
    var slice := new NdArrayRef(buf, x.shape, strides, offset);
    CompactWritten(buf[..], x.shape, offset, x.Elements(), Numel(x.shape));
    StartAtZero(x.shape);
    assert x.Elements()[0..][..Numel(x.shape)] == x.Elements();
    CopySlice(x, Zeros(|x.shape|), slice, Zeros(|x.shape|), Numel(x.shape));
    next := offset + Numel(x.shape);
  }

  lemma {:induction false} FlatGrows<T>(pieces: seq<Piece<T>>, k: nat, n: nat)
    requires k <= n <= |pieces|
    ensures |Flat(pieces, k)| <= |Flat(pieces, n)|
    decreases n
  {
    if k < n { FlatGrows(pieces, k, n - 1); }
  }

  function Total(shapes: seq<seq<nat>>, n: nat): nat
    requires n <= |shapes|
  {
    if n == 0 then 0 else Total(shapes, n - 1) + Numel(shapes[n - 1])
  }

  /** The view of a packed buffer that `unpack` makes for a shape. */
  function PartLayout(shape: seq<nat>, offset: nat): (l: Layout)
    ensures l.Wf()
  {
    Layout(shape, CompactStrides(shape), offset)
  }

  lemma {:induction false} TotalGrows(info: seq<seq<nat>>, k: nat, n: nat)
    requires k <= n <= |info|
    ensures Total(info, k) <= Total(info, n)
    ensures k < n ==> Total(info, k) + Numel(info[k]) <= Total(info, n)
    decreases n
  {
    if k < n { TotalGrows(info, k, n - 1); }
  }

  /** The part that holds position `p`. */
  lemma {:induction false} PartOf(info: seq<seq<nat>>, n: nat, p: nat) returns (k: nat)
    requires n <= |info| && p < Total(info, n)
    ensures k < n && Total(info, k) <= p < Total(info, k) + Numel(info[k])
  {
    if p < Total(info, n - 1) { k := PartOf(info, n - 1, p); } else { k := n - 1; }
  }

  /** Every element lies at the address that is its position: what `unpack` takes for granted. */
  ghost predicate Consecutive(l: Layout)
    requires l.Wf()
  {
    forall p: nat :: p < Numel(l.shape) ==> Addr(l, p) == p
  }

  /** The compact view at `lo` shows the stretch of the array that begins there. */
  ghost predicate StretchShows<T>(b: seq<T>, l: Layout, shape: seq<nat>, lo: nat)
    requires InBuffer(l, |b|) && lo + Numel(shape) <= Numel(l.shape) <= |b|
  {
    CompactFrom(shape, lo, |b|);
    Contents(b, PartLayout(shape, lo)) == Contents(b, l)[lo..lo + Numel(shape)]
  }

  /** Part `k` shows the elements of the array from where the parts before it end. */
  ghost predicate PartShows<T>(b: seq<T>, l: Layout, info: seq<seq<nat>>, k: nat)
    requires InBuffer(l, |b|) && Numel(l.shape) == Total(info, |info|) <= |b| && k < |info|
  {
    TotalGrows(info, k, |info|);
    StretchShows(b, l, info[k], Total(info, k))
  }

  lemma StretchIff<T>(b: seq<T>, l: Layout, shape: seq<nat>, lo: nat, hi: nat)
    requires InBuffer(l, |b|) && hi == lo + Numel(shape) <= Numel(l.shape) <= |b|
    ensures StretchShows(b, l, shape, lo) <==> b[lo..hi] == Contents(b, l)[lo..hi]
  {
    CompactReads(b, shape, lo);
    var part := Contents(b, PartLayout(shape, lo));
    assert part == b[lo..hi];
  }

  lemma ConsecutiveShows<T>(b: seq<T>, l: Layout, info: seq<seq<nat>>, k: nat)
    requires InBuffer(l, |b|) && Numel(l.shape) == Total(info, |info|) <= |b| && k < |info| && Consecutive(l)
    ensures PartShows(b, l, info, k)
  {
    var lo, hi := Total(info, k), Total(info, k) + Numel(info[k]);
    TotalGrows(info, k, |info|);
    ConsecutiveContents(b, l);
    TakeThenSlice(b, Numel(l.shape), lo, hi);
    StretchIff(b, l, info[k], lo, hi);
  }

  lemma TakeThenSlice<T>(b: seq<T>, n: nat, lo: nat, hi: nat)
    requires lo <= hi <= n <= |b|
    ensures b[..n][lo..hi] == b[lo..hi]
  {
  }

  lemma ConsecutiveContents<T>(b: seq<T>, l: Layout)
    requires InBuffer(l, |b|) && Numel(l.shape) <= |b| && Consecutive(l)
    ensures Contents(b, l) == b[..Numel(l.shape)]
  {
    var c := Contents(b, l);
    forall p: nat | p < |c| ensures c[p] == b[p] {
      ContentsAt(b, l, p);
      assert Addr(l, p) == p;
    }
  }

  ghost predicate PartsShow(b: seq<int>, n: nat, l: Layout, info: seq<seq<nat>>)
    requires InBuffer(l, n) && Numel(l.shape) == Total(info, |info|) <= n
  {
    |b| == n ==> forall k: nat :: k < |info| ==> PartShows(b, l, info, k)
  }

  /** The parts show the array, whatever the buffer holds, exactly when positions are addresses. */
  lemma UnpackRightIff(l: Layout, n: nat, info: seq<seq<nat>>)
    requires InBuffer(l, n) && Numel(l.shape) == Total(info, |info|) <= n
    ensures (forall b: seq<int> :: PartsShow(b, n, l, info)) <==> Consecutive(l)
  {
    if Consecutive(l) {
      forall b: seq<int> ensures PartsShow(b, n, l, info) {
        if |b| == n {
          forall k: nat | k < |info| ensures PartShows(b, l, info, k) {
            ConsecutiveShows(b, l, info, k);
          }
        }
      }
    } else if forall b: seq<int> :: PartsShow(b, n, l, info) {
      assert PartsShow(Numbered(n), n, l, info);
      NumberedParts(l, n, info);
    }
  }

  /** Parts that show a buffer of different elements rightly are consecutive. */
  lemma NumberedParts(l: Layout, n: nat, info: seq<seq<nat>>)
    requires InBuffer(l, n) && Numel(l.shape) == Total(info, |info|) <= n && PartsShow(Numbered(n), n, l, info)
    ensures Consecutive(l)
  {
    var b := Numbered(n);
    forall p: nat | p < Numel(l.shape) ensures Addr(l, p) == p {
      var k := PartOf(info, |info|, p);
      var lo, hi := Total(info, k), Total(info, k) + Numel(info[k]);
      assert PartShows(b, l, info, k);
      TotalGrows(info, k, |info|);
      StretchIff(b, l, info[k], lo, hi);
      AddressShown(b, l, lo, hi, p);
    }
  }

  lemma AddressShown(b: seq<int>, l: Layout, lo: nat, hi: nat, p: nat)
    requires InBuffer(l, |b|) && lo <= p < hi <= Numel(l.shape) <= |b| && b[lo..hi] == Contents(b, l)[lo..hi]
    requires forall i :: 0 <= i < |b| ==> b[i] == i
    ensures Addr(l, p) == p
  {
    SameStretch(b, Contents(b, l), lo, hi, p);
    ContentsAt(b, l, p);
  }

  lemma SameStretch<T>(a: seq<T>, b: seq<T>, lo: nat, hi: nat, p: nat)
    requires lo <= p < hi <= |a| && hi <= |b| && a[lo..hi] == b[lo..hi]
    ensures a[p] == b[p]
  {
    assert a[lo..hi][p - lo] == b[lo..hi][p - lo];
  }

  /** The third and fourth of four elements, unpacked: the part shows the first two. */
  lemma UnpackIgnoresTheOffset()
    ensures var b, l, info := [10, 20, 30, 40], Layout([2], [1], 2), [[2]];
      InBuffer(l, 4) && Contents(b, l) == [30, 40] &&
      InBuffer(PartLayout([2], 0), 4) && Contents(b, PartLayout([2], Total(info, 0))) == [10, 20]
  {
    var b: seq<int> := [10, 20, 30, 40];
    var l := Layout([2], [1], 2);
    CompactFrom([2], 2, 4);
    CompactReads(b, [2], 2);
    CompactReads(b, [2], 0);
    assert Numel([2]) == 2 by { SingleNumel(2); }
    assert CompactStrides([2]) == [1];
  }

  /** `unpack`: one compact view of the buffer for every shape, the first at address 0 whatever the array's own
      layout. */
  method Unpack<T(0)>(v: NdArrayRef<T>, info: seq<seq<nat>>) returns (r: Outcome<seq<NdArrayRef<T>>>)
    requires v.Valid() && (Numel(v.shape) == Total(info, |info|) ==> Total(info, |info|) <= v.buf.Length)
    ensures r.Rejected? <==> Numel(v.shape) != Total(info, |info|)
    ensures r.Done? ==> |r.value| == |info| && forall k :: 0 <= k < |info| ==> PartIs(r.value[k], v.buf, info, k)
    ensures r.Done? && Consecutive(v.L()) ==> forall k :: 0 <= k < |info| ==>
              PartIs(r.value[k], v.buf, info, k) && PartShows(v.buf[..], v.L(), info, k)
  {
    var total := 0;
    for k := 0 to |info|
      invariant total == Total(info, k)
    {
      total := total + Numel(info[k]);
    }
    if Numel(v.shape) != total {
      return Rejected;
    }
    var parts: seq<NdArrayRef<T>>, offset := [], 0;
    for k := 0 to |info|
      invariant offset == Total(info, k) && |parts| == k
      invariant forall j :: 0 <= j < k ==> PartIs(parts[j], v.buf, info, j)
    {
      TotalGrows(info, k, |info|);
      CompactFrom(info[k], offset, v.buf.Length);
      var strides := MakeCompactStrides(info[k]);
      var part := new NdArrayRef(v.buf, info[k], strides, offset);
      parts := parts + [part];
      offset := offset + Numel(info[k]);
    }
    if Consecutive(v.L()) {
      forall k | 0 <= k < |info| ensures PartShows(v.buf[..], v.L(), info, k) {
        ConsecutiveShows(v.buf[..], v.L(), info, k);
      }
    }
    r := Done(parts);
  }

  ghost predicate PartIs<T(0)>(part: NdArrayRef<T>, buf: array<T>, info: seq<seq<nat>>, k: nat)
    reads part
  {
    k < |info| && part.Valid() && part.buf == buf && part.L() == PartLayout(info[k], Total(info, k))
  }

  /** Packing and unpacking gives back every array: shape and elements. */
  method PackUnpack<T(0)>(xs: seq<NdArrayRef<T>>, ghost pieces: seq<Piece<T>>) returns (parts: seq<NdArrayRef<T>>)
    requires xs != [] && ArePieces(xs, pieces)
    ensures |parts| == |xs|
    ensures forall k :: 0 <= k < |xs| ==>
              && parts[k].Valid() && fresh(parts[k].buf) && parts[k].shape == xs[k].shape
              && parts[k].Elements() == pieces[k].vals
  {
    var packed, info := Pack(xs, pieces);
    assert Shaped(pieces, info);
    FlatLength(pieces, info, |info|);
    SingleNumel(|Flat(pieces, |pieces|)|);
    var r := Unpack(packed, info);
    parts := r.value;
    forall k | 0 <= k < |xs|
      ensures parts[k].Valid() && parts[k].shape == xs[k].shape && parts[k].Elements() == pieces[k].vals
    {
      assert PartIs(parts[k], packed.buf, info, k);
      UnpackRestores(packed.buf[..], pieces, info, k);
    }
  }

  ghost predicate Shaped<T>(pieces: seq<Piece<T>>, info: seq<seq<nat>>) {
    && |pieces| == |info|
    && forall j :: 0 <= j < |pieces| ==> info[j] == pieces[j].shape && |pieces[j].vals| == Numel(info[j])
  }

  lemma {:induction false} FlatLength<T>(pieces: seq<Piece<T>>, info: seq<seq<nat>>, n: nat)
    requires Shaped(pieces, info) && n <= |pieces|
    ensures |Flat(pieces, n)| == Total(info, n)
  {
    if n > 0 { FlatLength(pieces, info, n - 1); }
  }

  /** What lies in the packed buffer at the place of piece `k`. */
  lemma {:induction false} FlatPart<T>(pieces: seq<Piece<T>>, info: seq<seq<nat>>, k: nat, n: nat)
    requires Shaped(pieces, info) && k < n <= |pieces|
    ensures |Flat(pieces, n)| == Total(info, n) && Total(info, k) + Numel(info[k]) <= Total(info, n)
    ensures Flat(pieces, n)[Total(info, k)..Total(info, k) + Numel(info[k])] == pieces[k].vals
    decreases n
  {
    FlatLength(pieces, info, n - 1);
    if k < n - 1 {
      FlatPart(pieces, info, k, n - 1);
      SamePart(Flat(pieces, n - 1), pieces[n - 1].vals, Total(info, k), Total(info, k) + Numel(info[k]));
    } else {
      LastPart(Flat(pieces, k), pieces[k].vals);
    }
  }

  lemma LastPart<T>(a: seq<T>, b: seq<T>)
    ensures (a + b)[|a|..|a| + |b|] == b
  {
  }

  lemma SamePart<T>(a: seq<T>, b: seq<T>, lo: nat, hi: nat)
    requires lo <= hi <= |a|
    ensures (a + b)[lo..hi] == a[lo..hi]
  {
  }

  /** `unpack` after `pack` restores every array: its view of the packed buffer shows the packed elements. */
  lemma UnpackRestores<T>(buf: seq<T>, pieces: seq<Piece<T>>, info: seq<seq<nat>>, k: nat)
    requires Shaped(pieces, info) && k < |pieces| && buf == Flat(pieces, |pieces|)
    ensures var l := PartLayout(info[k], Total(info, k)); InBuffer(l, |buf|) && Contents(buf, l) == pieces[k].vals
  {
    FlatPart(pieces, info, k, |pieces|);
    CompactReads(buf, info[k], Total(info, k));
  }
}

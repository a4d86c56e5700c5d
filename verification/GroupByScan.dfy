/** Segmented scan and aggregates: `spu/ops/groupby/aggregation.py`. */
module GroupByScan {
  import opened Arith

  datatype Op = Add | Max | Min

  function Apply(op: Op, a: int, b: int): int {
    match op
    case Add => a + b
    case Max => if a >= b then a else b
    case Min => if a <= b then a else b
  }

  /** The operation column by column. */
  function Zip(op: Op, x: seq<int>, y: seq<int>): (z: seq<int>)
    requires |x| == |y|
    ensures |z| == |x| && forall k :: 0 <= k < |x| ==> z[k] == Apply(op, x[k], y[k])
  {
    seq(|x|, k requires 0 <= k < |x| => Apply(op, x[k], y[k]))
  }

  lemma ZipAssociative(op: Op, x: seq<int>, y: seq<int>, z: seq<int>)
    requires |x| == |y| == |z|
    ensures Zip(op, Zip(op, x, y), z) == Zip(op, x, Zip(op, y, z))
  {
  }

  lemma ZipCommutative(op: Op, x: seq<int>, y: seq<int>)
    requires |x| == |y|
    ensures Zip(op, x, y) == Zip(op, y, x)
  {
  }

  lemma ZipExchange(op: Op, a: seq<int>, x: seq<int>, y: seq<int>)
    requires |a| == |x| == |y|
    ensures Zip(op, Zip(op, a, x), y) == Zip(op, Zip(op, a, y), x)
  {
    ZipAssociative(op, a, x, y);
    ZipAssociative(op, a, y, x);
    ZipCommutative(op, x, y);
  }

  // --------------------------------------------------------------- aggregates

  /** All entries are lists of `w` numbers. */
  predicate Wide(rows: seq<seq<int>>, w: nat) {
    forall k :: 0 <= k < |rows| ==> |rows[k]| == w
  }

  /** The aggregate of a non-empty list, in order. */
  function Aggregate(op: Op, rows: seq<seq<int>>, w: nat): (r: seq<int>)
    requires rows != [] && Wide(rows, w)
    ensures |r| == w
  {
    var last := |rows| - 1;
    if last == 0 then rows[0] else Zip(op, Aggregate(op, rows[..last], w), rows[last])
  }

  /** Sum of a column. */
  ghost function ColumnSum(rows: seq<seq<int>>, c: nat): int
    requires forall k :: 0 <= k < |rows| ==> c < |rows[k]|
  {
    if rows == [] then 0 else ColumnSum(rows[..|rows| - 1], c) + rows[|rows| - 1][c]
  }

  ghost predicate InColumn(rows: seq<seq<int>>, c: nat, v: int)
    requires forall k :: 0 <= k < |rows| ==> c < |rows[k]|
  {
    exists k :: 0 <= k < |rows| && rows[k][c] == v
  }

  /** `v` is the sum, the largest or the smallest entry of a column. */
  ghost predicate ColumnIs(op: Op, rows: seq<seq<int>>, c: nat, v: int)
    requires forall k :: 0 <= k < |rows| ==> c < |rows[k]|
  {
    match op
    case Add => v == ColumnSum(rows, c)
    case Max => InColumn(rows, c, v) && forall k :: 0 <= k < |rows| ==> rows[k][c] <= v
    case Min => InColumn(rows, c, v) && forall k :: 0 <= k < |rows| ==> v <= rows[k][c]
  }

  /** What the aggregate is, column by column. */
  lemma {:induction false} AggregateMeans(op: Op, rows: seq<seq<int>>, w: nat, c: nat)
    requires rows != [] && Wide(rows, w) && c < w
    ensures ColumnIs(op, rows, c, Aggregate(op, rows, w)[c])
  {
    var last := |rows| - 1;
    if last == 0 {
      assert rows[0][c] == Aggregate(op, rows, w)[c] && rows[..0] == [];
    } else {
      AggregateMeans(op, rows[..last], w, c);
      ColumnSnoc(op, rows, c, Aggregate(op, rows[..last], w)[c], Aggregate(op, rows, w)[c]);
    }
  }

  lemma ColumnSnoc(op: Op, rows: seq<seq<int>>, c: nat, before: int, v: int)
    requires |rows| >= 2 && forall k :: 0 <= k < |rows| ==> c < |rows[k]|
    requires ColumnIs(op, rows[..|rows| - 1], c, before) && v == Apply(op, before, rows[|rows| - 1][c])
    ensures ColumnIs(op, rows, c, v)
  {
    var last := |rows| - 1;
    if op != Add {
      var k :| 0 <= k < last && rows[..last][k][c] == before;
      assert rows[k][c] == before && rows[last][c] == rows[last][c];
      assert InColumn(rows, c, v);
      assert forall k :: 0 <= k < last ==> rows[k] == rows[..last][k];
    }
  }

  function Without<T>(rows: seq<T>, j: nat): seq<T>
    requires j < |rows|
  {
    rows[..j] + rows[j + 1..]
  }

  lemma AggregateSnoc(op: Op, rows: seq<seq<int>>, y: seq<int>, w: nat)
    requires rows != [] && Wide(rows, w) && |y| == w
    ensures Wide(rows + [y], w) && Aggregate(op, rows + [y], w) == Zip(op, Aggregate(op, rows, w), y)
  {
    assert (rows + [y])[..|rows|] == rows;
  }

  lemma WithoutSnoc<T>(rows: seq<T>, y: T, j: nat)
    requires j <= |rows|
    ensures Without(rows + [y], j) == if j == |rows| then rows else Without(rows, j) + [y]
  {
  }

  /** Any entry can be taken last. */
  lemma {:induction false} AggregateLast(op: Op, rows: seq<seq<int>>, w: nat, j: nat)
    requires Wide(rows, w) && j < |rows| && |rows| >= 2
    ensures Wide(Without(rows, j), w)
    ensures Aggregate(op, rows, w) == Zip(op, Aggregate(op, Without(rows, j), w), rows[j])
    decreases |rows|
  {
    var last := |rows| - 1;
    var front, y := rows[..last], rows[last];
    assert rows == front + [y];
    WithoutSnoc(front, y, j);
    AggregateSnoc(op, front, y, w);
    if j < last {
      if last == 1 {
        ZipCommutative(op, rows[0], y);
        assert Without(front, 0) == [];
      } else {
        AggregateLast(op, front, w, j);
        AggregateSnoc(op, Without(front, j), y, w);
        ZipExchange(op, Aggregate(op, Without(front, j), w), rows[j], y);
      }
    }
  }

  /** The aggregate does not depend on the order of the entries. */
  lemma {:induction false} AggregatePermuted(op: Op, a: seq<seq<int>>, b: seq<seq<int>>, w: nat)
    requires a != [] && Wide(a, w) && multiset(a) == multiset(b)
    ensures |a| == |b| && Wide(b, w) && Aggregate(op, a, w) == Aggregate(op, b, w)
    decreases |a|
  {
    SameSize(a, b);
    PermutedWide(a, b, w);
    var last := |a| - 1;
    var j := FindLast(a, b);
    if last > 0 {
      AggregatePermuted(op, a[..last], Without(b, j), w);
      AggregateLast(op, b, w, j);
    }
  }

  /** The last entry of one list, found in a permutation of it. */
  lemma FindLast<T>(a: seq<T>, b: seq<T>) returns (j: nat)
    requires a != [] && multiset(a) == multiset(b)
    ensures j < |b| && b[j] == a[|a| - 1] && multiset(Without(b, j)) == multiset(a[..|a| - 1])
  {
    var last := |a| - 1;
    assert a == a[..last] + [a[last]];
    assert a[last] in multiset(b);
    j :| 0 <= j < |b| && b[j] == a[last];
    SplitAt(b, j);
    assert multiset(a) == multiset(a[..last]) + multiset{a[last]};
    CancelOne(multiset(Without(b, j)), multiset(a[..last]), a[last]);
  }

  lemma CancelOne<T>(m: multiset<T>, n: multiset<T>, x: T)
    requires m + multiset{x} == n + multiset{x}
    ensures m == n
  {
    assert m == m + multiset{x} - multiset{x};
    assert n == n + multiset{x} - multiset{x};
  }

  lemma SplitAt<T>(b: seq<T>, j: nat)
    requires j < |b|
    ensures multiset(b) == multiset(Without(b, j)) + multiset{b[j]}
  {
    assert b == b[..j] + [b[j]] + b[j + 1..];
    assert multiset(Without(b, j)) == multiset(b[..j]) + multiset(b[j + 1..]);
  }

  lemma SameSize<T>(a: seq<T>, b: seq<T>)
    requires multiset(a) == multiset(b)
    ensures |a| == |b|
  {
    assert |a| == |multiset(a)| == |multiset(b)| == |b|;
  }

  lemma PermutedWide(a: seq<seq<int>>, b: seq<seq<int>>, w: nat)
    requires Wide(a, w) && multiset(a) == multiset(b)
    ensures Wide(b, w)
  {
    forall k | 0 <= k < |b| ensures |b[k]| == w {
      assert b[k] in multiset(a);
    }
  }

  // ------------------------------------------------------------ segmented scan

  /** A row of the scanned matrix: the mask column and the others. */
  datatype Row = Row(mask: int, vals: seq<int>)

  predicate Rows(x: seq<Row>, w: nat) {
    forall k :: 0 <= k < |x| ==> |x[k].vals| == w && (x[k].mask == 0 || x[k].mask == 1)
  }

  /** `segment_aware_ops` on two rows. */
  function Combine(op: Op, a: Row, b: Row): (r: Row)
    requires |a.vals| == |b.vals|
    ensures |r.vals| == |a.vals|
  {
    Row(a.mask * b.mask, if b.mask == 1 then Zip(op, a.vals, b.vals) else b.vals)
  }

  predicate ZeroOrOne(m: int) {
    m == 0 || m == 1
  }

  /**
   * Three rows may be bracketed either way unless both later masks are -1; then the first row has to
   * change nothing in the third.
   */
  lemma AssociativeIff(op: Op, a: Row, b: Row, c: Row)
    requires |a.vals| == |b.vals| == |c.vals|
    ensures Combine(op, Combine(op, a, b), c) == Combine(op, a, Combine(op, b, c)) <==>
            !(b.mask == -1 && c.mask == -1) || Zip(op, a.vals, c.vals) == c.vals
  {
    ZipAssociative(op, a.vals, b.vals, c.vals);
    MulAssoc(a.mask, b.mask, c.mask);
    UnitProduct(b.mask, c.mask);
  }

  lemma UnitProduct(x: int, y: int)
    ensures x * y == 1 <==> x == y == 1 || x == y == -1
  {
    if x * y == 1 {
      if x >= 2 {
        if y >= 1 { MulLe(1, y, x); } else { MulLe(y, 0, x); }
      } else if x <= -2 {
        if y >= 0 { MulLe(0, y, -x); } else { MulLe(y, -1, -x); }
      }
    }
  }

  /** The masks of `groupby_agg` are 0 and 1, and stay so: there every bracketing is right. */
  lemma CombineAssociative(op: Op, a: Row, b: Row, c: Row)
    requires |a.vals| == |b.vals| == |c.vals| && ZeroOrOne(a.mask) && ZeroOrOne(b.mask) && ZeroOrOne(c.mask)
    ensures Combine(op, Combine(op, a, b), c) == Combine(op, a, Combine(op, b, c))
    ensures ZeroOrOne(Combine(op, a, b).mask)
  {
    AssociativeIff(op, a, b, c);
    MaskProduct(a.mask, b.mask);
  }

  lemma MaskProduct(a: int, b: int)
    requires ZeroOrOne(a) && ZeroOrOne(b)
    ensures ZeroOrOne(a * b)
  {
  }

  /** Rows combined from left to right. */
  function Fold(op: Op, x: seq<Row>, w: nat): (r: Row)
    requires x != [] && Rows(x, w)
    ensures |r.vals| == w && ZeroOrOne(r.mask)
  {
    var last := |x| - 1;
    if last == 0 then x[0]
    else
      MaskProduct(Fold(op, x[..last], w).mask, x[last].mask);
      Combine(op, Fold(op, x[..last], w), x[last])
  }

  lemma FoldSnoc(op: Op, x: seq<Row>, w: nat, i: nat)
    requires Rows(x, w) && 0 < i < |x|
    ensures Fold(op, x[..i + 1], w) == Combine(op, Fold(op, x[..i], w), x[i])
  {
    assert x[..i + 1][..i] == x[..i];
  }

  /** A way to bracket a list of rows. */
  datatype Brackets = One | Two(left: Brackets, right: Brackets)

  function Leaves(t: Brackets): (n: nat)
    ensures n > 0
  {
    match t
    case One => 1
    case Two(l, r) => Leaves(l) + Leaves(r)
  }

  /** Rows combined as the brackets say. */
  function Bracketed(op: Op, t: Brackets, x: seq<Row>, w: nat): (r: Row)
    requires |x| == Leaves(t) && Rows(x, w)
    ensures |r.vals| == w
  {
    match t
    case One => x[0]
    case Two(l, r) => Combine(op, Bracketed(op, l, x[..Leaves(l)], w), Bracketed(op, r, x[Leaves(l)..], w))
  }

  lemma {:induction false} FoldAppend(op: Op, x: seq<Row>, y: seq<Row>, w: nat)
    requires x != [] && y != [] && Rows(x, w) && Rows(y, w)
    ensures Rows(x + y, w) && Fold(op, x + y, w) == Combine(op, Fold(op, x, w), Fold(op, y, w))
    decreases |y|
  {
    var last := |y| - 1;
    assert (x + y)[..|x + y| - 1] == x + y[..last] && (x + y)[|x + y| - 1] == y[last];
    if last == 0 {
      assert x + y[..last] == x;
    } else {
      FoldAppend(op, x, y[..last], w);
      CombineAssociative(op, Fold(op, x, w), Fold(op, y[..last], w), y[last]);
    }
  }

  /** Every bracketing gives the sequential result. */
  lemma {:induction false} BracketsDoNotMatter(op: Op, t: Brackets, x: seq<Row>, w: nat)
    requires |x| == Leaves(t) && Rows(x, w)
    ensures Bracketed(op, t, x, w) == Fold(op, x, w)
    decreases t
  {
    match t
    case One =>
    case Two(l, r) =>
      var a, b := x[..Leaves(l)], x[Leaves(l)..];
      BracketsDoNotMatter(op, l, a, w);
      BracketsDoNotMatter(op, r, b, w);
      FoldAppend(op, a, b, w);
      assert a + b == x;
  }

  /** What an associative scan returns: every prefix combined, each in a way of its own. */
  ghost predicate IsScan(op: Op, x: seq<Row>, w: nat, y: seq<Row>)
    requires Rows(x, w)
  {
    |y| == |x| && forall i :: 0 <= i < |x| ==> ScannedAt(op, x, w, y[i], i)
  }

  ghost predicate ScannedAt(op: Op, x: seq<Row>, w: nat, row: Row, i: nat)
    requires Rows(x, w) && i < |x|
  {
    exists t :: Leaves(t) == i + 1 && row == Bracketed(op, t, x[..i + 1], w)
  }

  /** Any associative scan computes the sequential prefixes. */
  lemma ScanIsFold(op: Op, x: seq<Row>, w: nat, y: seq<Row>, i: nat)
    requires Rows(x, w) && IsScan(op, x, w, y) && i < |x|
    ensures y[i] == Fold(op, x[..i + 1], w)
  {
    assert ScannedAt(op, x, w, y[i], i);
    var t :| Leaves(t) == i + 1 && y[i] == Bracketed(op, t, x[..i + 1], w);
    BracketsDoNotMatter(op, t, x[..i + 1], w);
  }
}

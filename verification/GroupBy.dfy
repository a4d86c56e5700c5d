/** The group-by pipeline: `spu/ops/groupby/segmentation.py`, `aggregation.py`, `shuffle.py` and `postprocess.py`. */
module GroupBy {
  import opened GroupByScan

  /** A row of the input: its key columns and its target columns. */
  datatype Record = Record(key: seq<int>, vals: seq<int>)

  predicate Table(rows: seq<Record>, kw: nat, w: nat) {
    forall i :: 0 <= i < |rows| ==> |rows[i].key| == kw && |rows[i].vals| == w
  }

  // ------------------------------------------------------------- order of keys

  /** The first differing column decides. */
  predicate Less(a: seq<int>, b: seq<int>)
    requires |a| == |b|
  {
    a != [] && (a[0] < b[0] || (a[0] == b[0] && Less(a[1..], b[1..])))
  }

  lemma {:induction false} LessOrder(a: seq<int>, b: seq<int>, c: seq<int>)
    requires |a| == |b| == |c|
    ensures !(Less(a, b) && Less(b, a)) && (Less(a, b) || Less(b, a) || a == b)
    ensures Less(a, b) && Less(b, c) ==> Less(a, c)
    ensures !Less(a, a)
  {
    if a != [] {
      LessOrder(a[1..], b[1..], c[1..]);
      assert a == [a[0]] + a[1..] && b == [b[0]] + b[1..];
    }
  }

  /** The first column in which two keys differ orders them. */
  lemma {:induction false} LessMeans(a: seq<int>, b: seq<int>)
    requires |a| == |b|
    ensures Less(a, b) <==> exists c :: FirstSmaller(a, b, c)
  {
    if a != [] {
      if a[0] < b[0] {
        assert FirstSmaller(a, b, 0);
      } else {
        LessMeans(a[1..], b[1..]);
        forall c | FirstSmaller(a, b, c) ensures a[0] == b[0] && FirstSmaller(a[1..], b[1..], c - 1) {
        }
        if a[0] == b[0] && Less(a, b) {
          var c :| FirstSmaller(a[1..], b[1..], c);
          assert FirstSmaller(a, b, c + 1);
        }
      }
    }
  }

  ghost predicate FirstSmaller(a: seq<int>, b: seq<int>, c: int)
    requires |a| == |b|
  {
    0 <= c < |a| && a[c] < b[c] && forall d :: 0 <= d < c ==> a[d] == b[d]
  }

  /** Nondecreasing keys. */
  ghost predicate Sorted(rows: seq<Record>, kw: nat, w: nat)
    requires Table(rows, kw, w)
  {
    forall i, j :: 0 <= i < j < |rows| ==> !Less(rows[j].key, rows[i].key)
  }

  // ----------------------------------------------------------------- segmentation

  /** `jnp.roll(x, -1)` and `jnp.roll(x, 1)` at a place. */
  function Next<T>(x: seq<T>, i: nat): T
    requires i < |x|
  {
    if i + 1 == |x| then x[0] else x[i + 1]
  }

  function Previous<T>(x: seq<T>, i: nat): T
    requires i < |x|
  {
    if i == 0 then x[|x| - 1] else x[i - 1]
  }

  predicate EqualColumns(a: seq<int>, b: seq<int>)
    requires |a| == |b|
  {
    forall c :: 0 <= c < |a| ==> a[c] - b[c] == 0
  }

  /** `get_segment_marks`: 1 at the last row of every run of equal keys. */
  function EndMarks(rows: seq<Record>, kw: nat, w: nat): (end: seq<int>)
    requires Table(rows, kw, w)
    ensures |end| == |rows|
  {
    seq(|rows|, i requires 0 <= i < |rows| =>
      if i == |rows| - 1 then 1 else if EqualColumns(rows[i].key, Next(rows, i).key) then 0 else 1)
  }

  lemma EndMarkAt(rows: seq<Record>, kw: nat, w: nat, i: nat)
    requires Table(rows, kw, w) && i < |rows|
    ensures EndMarks(rows, kw, w)[i] == if i == |rows| - 1 || rows[i].key != rows[i + 1].key then 1 else 0
  {
    if i < |rows| - 1 {
      assert EqualColumns(rows[i].key, rows[i + 1].key) <==> rows[i].key == rows[i + 1].key;
    }
  }

  /** Sum of the first `n` marks. */
  function Marked(end: seq<int>, n: nat): int
    requires n <= |end|
  {
    if n == 0 then 0 else Marked(end, n - 1) + end[n - 1]
  }

  /** `segment_ids`: the accumulated marks minus the mark itself. */
  function SegmentIds(end: seq<int>): (ids: seq<int>)
    ensures |ids| == |end|
  {
    seq(|end|, i requires 0 <= i < |end| => Marked(end, i + 1) - end[i])
  }

  // ------------------------------------------------------------------ aggregation

  /** The scanned matrix: the group mask in front of the target columns. */
  function Masked(rows: seq<Record>, end: seq<int>): (x: seq<Row>)
    requires |end| == |rows|
    ensures |x| == |rows|
  {
    seq(|rows|, i requires 0 <= i < |rows| => Row(1 - Previous(end, i), rows[i].vals))
  }

  function Times(c: int, x: seq<int>): (r: seq<int>)
    ensures |r| == |x|
  {
    seq(|x|, k requires 0 <= k < |x| => c * x[k])
  }

  /** `groupby_agg` on the result `y` of the associative scan. */
  function MaskedScan(end: seq<int>, y: seq<Row>): (g: seq<seq<int>>)
    requires |y| == |end|
    ensures |g| == |end|
  {
    seq(|end|, i requires 0 <= i < |end| => Times(end[i], y[i].vals))
  }

  /** Target columns of the rows with a key, in order. */
  function Select(rows: seq<Record>, k: seq<int>): seq<seq<int>> {
    if rows == [] then []
    else
      var last := |rows| - 1;
      Select(rows[..last], k) + if rows[last].key == k then [rows[last].vals] else []
  }

  lemma {:induction false} SelectWide(rows: seq<Record>, k: seq<int>, kw: nat, w: nat)
    requires Table(rows, kw, w)
    ensures Wide(Select(rows, k), w)
    ensures Select(rows, k) == [] <==> forall i :: 0 <= i < |rows| ==> rows[i].key != k
  {
    if rows != [] {
      var last := |rows| - 1;
      SelectWide(rows[..last], k, kw, w);
      assert rows == rows[..last] + [rows[last]];
      NoneSnoc(rows[..last], rows[last], k);
    }
  }

  lemma NoneSnoc(rows: seq<Record>, r: Record, k: seq<int>)
    ensures (forall i :: 0 <= i < |rows + [r]| ==> (rows + [r])[i].key != k) <==>
            (forall i :: 0 <= i < |rows| ==> rows[i].key != k) && r.key != k
  {
    var s := rows + [r];
    assert s[|rows|] == r && forall i :: 0 <= i < |rows| ==> s[i] == rows[i];
  }

  lemma MaskedRows(rows: seq<Record>, kw: nat, w: nat)
    requires Table(rows, kw, w)
    ensures Rows(Masked(rows, EndMarks(rows, kw, w)), w)
  {
    var end := EndMarks(rows, kw, w);
    var x := Masked(rows, end);
    forall i | 0 <= i < |x| ensures |x[i].vals| == w && (x[i].mask == 0 || x[i].mask == 1) {
      EndMarkAt(rows, kw, w, if i == 0 then |rows| - 1 else i - 1);
    }
  }

  /** The matrix `groupby_agg` scans. */
  function GroupRows(rows: seq<Record>, kw: nat, w: nat): (x: seq<Row>)
    requires Table(rows, kw, w)
    ensures |x| == |rows| && Rows(x, w)
  {
    MaskedRows(rows, kw, w);
    Masked(rows, EndMarks(rows, kw, w))
  }

  /** A row continues the group before it exactly when it has the same key. */
  lemma GroupRowAt(rows: seq<Record>, kw: nat, w: nat, i: nat)
    requires Table(rows, kw, w) && 0 < i < |rows|
    ensures GroupRows(rows, kw, w)[i] == Row(if rows[i - 1].key == rows[i].key then 1 else 0, rows[i].vals)
  {
    EndMarkAt(rows, kw, w, i - 1);
  }

  lemma SelectSnoc(rows: seq<Record>, k: seq<int>, i: nat)
    requires i < |rows|
    ensures Select(rows[..i + 1], k) == Select(rows[..i], k) + if rows[i].key == k then [rows[i].vals] else []
  {
    assert rows[..i + 1][..i] == rows[..i];
  }

  /** The scan so far is the aggregate, so far, of the key of the current row. */
  lemma {:induction false} PrefixAggregate(op: Op, rows: seq<Record>, kw: nat, w: nat, i: nat)
    requires Table(rows, kw, w) && Sorted(rows, kw, w) && i < |rows|
    ensures var s := Select(rows[..i + 1], rows[i].key);
      s != [] && Wide(s, w) && Fold(op, GroupRows(rows, kw, w)[..i + 1], w).vals == Aggregate(op, s, w)
    decreases i
  {
    var x, k := GroupRows(rows, kw, w), rows[i].key;
    SelectWide(rows[..i], k, kw, w);
    SelectSnoc(rows, k, i);
    if i == 0 {
      assert rows[..0] == [] && x[..1] == [x[0]];
    } else {
      FoldSnoc(op, x, w, i);
      GroupRowAt(rows, kw, w, i);
      if rows[i - 1].key == k {
        PrefixAggregate(op, rows, kw, w, i - 1);
        AggregateSnoc(op, Select(rows[..i], k), rows[i].vals, w);
      } else {
        NewKey(rows, kw, w, i);
      }
    }
  }

  /** A key different from the one before has not occurred earlier. */
  lemma NewKey(rows: seq<Record>, kw: nat, w: nat, i: nat)
    requires Table(rows, kw, w) && Sorted(rows, kw, w) && 0 < i < |rows| && rows[i - 1].key != rows[i].key
    ensures Select(rows[..i], rows[i].key) == []
  {
    SelectWide(rows[..i], rows[i].key, kw, w);
    forall j | 0 <= j < i ensures rows[..i][j].key != rows[i].key {
      LessOrder(rows[i - 1].key, rows[i].key, rows[i].key);
    }
  }

  /** After the last row of a key no further row has it. */
  lemma {:induction false} NoLaterRow(rows: seq<Record>, kw: nat, w: nat, i: nat, n: nat)
    requires Table(rows, kw, w) && Sorted(rows, kw, w) && i < n <= |rows|
    requires i == |rows| - 1 || rows[i].key != rows[i + 1].key
    ensures Select(rows[..n], rows[i].key) == Select(rows[..i + 1], rows[i].key)
    decreases n
  {
    if n > i + 1 {
      NoLaterRow(rows, kw, w, i, n - 1);
      assert rows[..n][..n - 1] == rows[..n - 1];
      LessOrder(rows[i].key, rows[i + 1].key, rows[n - 1].key);
      assert !Less(rows[i + 1].key, rows[i].key);
    }
  }

  /** `groupby_agg` puts the aggregate of a key at its last row and zeros everywhere else. */
  lemma AggregatesAtEnds(op: Op, rows: seq<Record>, kw: nat, w: nat, y: seq<Row>, i: nat)
    requires Table(rows, kw, w) && Sorted(rows, kw, w) && i < |rows|
    requires IsScan(op, GroupRows(rows, kw, w), w, y)
    ensures var s, g, end := Select(rows, rows[i].key), MaskedScan(EndMarks(rows, kw, w), y), EndMarks(rows, kw, w);
      s != [] && Wide(s, w) && g[i] == if end[i] == 1 then Aggregate(op, s, w) else Times(0, y[i].vals)
    ensures EndMarks(rows, kw, w)[i] == 1 ==>
            Summarises(op, rows, kw, w, rows[i].key, MaskedScan(EndMarks(rows, kw, w), y)[i])
  {
    var end, k := EndMarks(rows, kw, w), rows[i].key;
    EndMarkAt(rows, kw, w, i);
    ScanIsFold(op, GroupRows(rows, kw, w), w, y, i);
    PrefixAggregate(op, rows, kw, w, i);
    SelectWide(rows, k, kw, w);
    if end[i] == 1 {
      NoLaterRow(rows, kw, w, i, |rows|);
      assert rows[..|rows|] == rows;
      assert Times(1, y[i].vals) == y[i].vals;
      KeyRowMeans(op, rows, kw, w, k, y[i].vals);
    }
  }

  // ------------------------------------------------------- shuffle and post-process

  /** What is opened for a row: its masked segment id, its end mark and its masked aggregate. */
  datatype Line = Line(id: int, end: int, vals: seq<int>)

  /** The lines `shuffle_matrix` sorts by the random order. */
  function Lines(end: seq<int>, g: seq<seq<int>>): (r: seq<Line>)
    requires |g| == |end|
    ensures |r| == |end|
  {
    seq(|end|, i requires 0 <= i < |end| => Line(end[i] * SegmentIds(end)[i], end[i], g[i]))
  }

  /** The filter of `groupby_agg_postprocess`. */
  function Filter(lines: seq<Line>): seq<Line> {
    if lines == [] then []
    else
      var last := |lines| - 1;
      Filter(lines[..last]) + if lines[last].end == 1 then [lines[last]] else []
  }

  ghost predicate IdsSorted(lines: seq<Line>) {
    forall i, j :: 0 <= i < j < |lines| ==> lines[i].id <= lines[j].id
  }

  lemma {:induction false} FilterCount(lines: seq<Line>, x: Line)
    ensures multiset(Filter(lines))[x] == if x.end == 1 then multiset(lines)[x] else 0
  {
    if lines != [] {
      var last := |lines| - 1;
      FilterCount(lines[..last], x);
      assert lines == lines[..last] + [lines[last]];
    }
  }

  lemma FilterPermuted(a: seq<Line>, b: seq<Line>)
    requires multiset(a) == multiset(b)
    ensures multiset(Filter(a)) == multiset(Filter(b))
  {
    forall x ensures multiset(Filter(a))[x] == multiset(Filter(b))[x] {
      FilterCount(a, x);
      FilterCount(b, x);
    }
  }

  ghost predicate Numbered(q: seq<Line>, from: int) {
    forall j :: 0 <= j < |q| ==> q[j].id == from + j
  }

  /** Sorting lines whose ids are consecutive gives them back in that order. */
  lemma {:induction false} SortedIsNumbered(p: seq<Line>, q: seq<Line>, from: int)
    requires multiset(p) == multiset(q) && IdsSorted(p) && Numbered(q, from)
    ensures p == q
    decreases |q|
  {
    SameSize(p, q);
    if q != [] {
      var last := |q| - 1;
      LargestLast(p, q, from);
      DropLast(p, q);
      SortedIsNumbered(p[..last], q[..last], from);
      assert p == p[..last] + [p[last]] && q == q[..last] + [q[last]];
    }
  }

  lemma LargestLast(p: seq<Line>, q: seq<Line>, from: int)
    requires |p| == |q| > 0 && multiset(p) == multiset(q) && IdsSorted(p) && Numbered(q, from)
    ensures p[|p| - 1] == q[|q| - 1]
  {
    var last := |q| - 1;
    assert p[last] in multiset(q) && q[last] in multiset(p);
    var i :| 0 <= i < |q| && q[i] == p[last];
    var j :| 0 <= j < |p| && p[j] == q[last];
    assert p[j].id <= p[last].id;
  }

  lemma DropLast<T>(p: seq<T>, q: seq<T>)
    requires |p| == |q| > 0 && multiset(p) == multiset(q) && p[|p| - 1] == q[|q| - 1]
    ensures multiset(p[..|p| - 1]) == multiset(q[..|q| - 1])
  {
    var last := |p| - 1;
    assert p == p[..last] + [p[last]] && q == q[..last] + [q[last]];
    CancelOne(multiset(p[..last]), multiset(q[..last]), p[last]);
  }

  // --------------------------------------------------------------- one row per key

  /** The marked places among the first `n`, in order. */
  function Ends(end: seq<int>, n: nat): seq<nat>
    requires n <= |end|
  {
    if n == 0 then [] else Ends(end, n - 1) + if end[n - 1] == 1 then [n - 1] else []
  }

  ghost predicate EndAt(end: seq<int>, n: nat, e: seq<nat>, j: nat)
    requires n <= |end| && j < |e|
  {
    e[j] < n && end[e[j]] == 1 && Marked(end, e[j]) == j
  }

  predicate ZeroOne(end: seq<int>) {
    forall i :: 0 <= i < |end| ==> end[i] == 0 || end[i] == 1
  }

  /** The `j`-th marked place has segment id `j`. */
  lemma {:induction false} EndsNumbered(end: seq<int>, n: nat)
    requires n <= |end| && ZeroOne(end)
    ensures |Ends(end, n)| == Marked(end, n)
    ensures forall j :: 0 <= j < |Ends(end, n)| ==> EndAt(end, n, Ends(end, n), j)
  {
    if n > 0 {
      EndsNumbered(end, n - 1);
      var e, f := Ends(end, n - 1), Ends(end, n);
      forall j | 0 <= j < |f| ensures EndAt(end, n, f, j) {
        if j < |e| { assert EndAt(end, n - 1, e, j); }
      }
    }
  }

  lemma {:induction false} EndsIncrease(end: seq<int>, n: nat, i: nat, j: nat)
    requires n <= |end| && ZeroOne(end) && i < j < |Ends(end, n)|
    ensures Ends(end, n)[i] < Ends(end, n)[j] < n
  {
    EndsNumbered(end, n);
    assert EndAt(end, n, Ends(end, n), i) && EndAt(end, n, Ends(end, n), j);
    MarkedGrows(end, Ends(end, n)[j], Ends(end, n)[i]);
  }

  lemma {:induction false} MarkedGrows(end: seq<int>, i: nat, n: nat)
    requires n <= |end| && ZeroOne(end)
    ensures i <= n ==> Marked(end, i) <= Marked(end, n)
  {
    if i < n { MarkedGrows(end, i, n - 1); }
  }

  /** Keys of the last rows, in order. */
  function KeysAt(rows: seq<Record>, e: seq<nat>): (k: seq<seq<int>>)
    requires forall j :: 0 <= j < |e| ==> e[j] < |rows|
    ensures |k| == |e| && forall j :: 0 <= j < |e| ==> k[j] == rows[e[j]].key
  {
    seq(|e|, j requires 0 <= j < |e| => rows[e[j]].key)
  }

  /** The lines left by the filter are those of the marked places, numbered in order. */
  lemma {:induction false} FilterIsEnds(end: seq<int>, g: seq<seq<int>>, n: nat)
    requires |g| == |end| && ZeroOne(end) && n <= |end|
    ensures |Filter(Lines(end, g)[..n])| == |Ends(end, n)|
    ensures forall j :: 0 <= j < |Ends(end, n)| ==> FilteredAt(end, g, n, j)
  {
    var lines := Lines(end, g);
    if n > 0 {
      FilterIsEnds(end, g, n - 1);
      EndsNumbered(end, n - 1);
      assert lines[..n][..n - 1] == lines[..n - 1] && lines[..n][n - 1] == lines[n - 1];
      forall j | 0 <= j < |Ends(end, n)| ensures FilteredAt(end, g, n, j) {
        if j < |Ends(end, n - 1)| {
          assert FilteredAt(end, g, n - 1, j);
        } else {
          assert SegmentIds(end)[n - 1] == Marked(end, n) - end[n - 1] == Marked(end, n - 1);
        }
      }
    }
  }

  ghost predicate FilteredAt(end: seq<int>, g: seq<seq<int>>, n: nat, j: nat)
    requires |g| == |end| && n <= |end|
  {
    var f, e := Filter(Lines(end, g)[..n]), Ends(end, n);
    j < |f| && j < |e| && e[j] < |end| && f[j] == Line(j, 1, g[e[j]])
  }

  lemma {:induction false} EndsContain(end: seq<int>, n: nat, i: nat)
    requires n <= |end| && i < n && end[i] == 1
    ensures i in Ends(end, n)
  {
    if i < n - 1 { EndsContain(end, n - 1, i); }
  }

  /** `e` is the first marked place from `i` on. */
  ghost predicate NextEnd(end: seq<int>, i: nat, e: nat) {
    i <= e < |end| && end[e] == 1 && forall j :: i <= j < e ==> end[j] == 0
  }

  /** The last row of row `i`'s run of equal keys. */
  lemma {:induction false} LastOfKey(rows: seq<Record>, kw: nat, w: nat, i: nat) returns (e: nat)
    requires Table(rows, kw, w) && i < |rows|
    ensures NextEnd(EndMarks(rows, kw, w), i, e) && rows[e].key == rows[i].key
    decreases |rows| - i
  {
    EndMarkAt(rows, kw, w, i);
    if EndMarks(rows, kw, w)[i] == 1 {
      e := i;
    } else {
      e := LastOfKey(rows, kw, w, i + 1);
    }
  }

  /** Different last rows have different keys, in order. */
  lemma EndKeysIncrease(rows: seq<Record>, kw: nat, w: nat, i: nat, j: nat)
    requires Table(rows, kw, w) && Sorted(rows, kw, w) && i < j < |rows| && EndMarks(rows, kw, w)[i] == 1
    ensures Less(rows[i].key, rows[j].key)
  {
    EndMarkAt(rows, kw, w, i);
    KeysIncrease(rows, kw, w, i, j);
  }

  lemma KeysIncrease(rows: seq<Record>, kw: nat, w: nat, i: nat, j: nat)
    requires Table(rows, kw, w) && Sorted(rows, kw, w) && i < j < |rows| && rows[i].key != rows[i + 1].key
    ensures Less(rows[i].key, rows[j].key)
  {
    var a, b, c := rows[i].key, rows[i + 1].key, rows[j].key;
    assert !Less(b, a) && (j > i + 1 ==> !Less(c, b));
    NextThenLater(a, b, c);
  }

  lemma NextThenLater(a: seq<int>, b: seq<int>, c: seq<int>)
    requires |a| == |b| == |c| && a != b && !Less(b, a) && (b == c || !Less(c, b))
    ensures Less(a, c)
  {
    LessOrder(a, b, c);
    LessOrder(b, c, c);
  }

  // ------------------------------------------------------------------ main result

  predicate HasKey(rows: seq<Record>, k: seq<int>) {
    exists i :: 0 <= i < |rows| && rows[i].key == k
  }

  /** The distinct keys in increasing order. */
  ghost predicate AreKeys(rows: seq<Record>, kw: nat, keys: seq<seq<int>>) {
    && Wide(keys, kw)
    && (forall i, j :: 0 <= i < j < |keys| ==> Less(keys[i], keys[j]))
    && (forall k :: k in keys <==> HasKey(rows, k))
  }

  ghost predicate KeyRow(op: Op, rows: seq<Record>, w: nat, k: seq<int>, result: seq<int>) {
    var s := Select(rows, k);
    s != [] && Wide(s, w) && result == Aggregate(op, s, w)
  }

  /** The obvious group-by: the distinct keys in increasing order, each with the aggregate of its rows. */
  ghost predicate IsGroupBy(op: Op, rows: seq<Record>, kw: nat, w: nat, keys: seq<seq<int>>, result: seq<seq<int>>) {
    && |keys| == |result| && AreKeys(rows, kw, keys)
    && (forall j :: 0 <= j < |keys| ==> KeyRow(op, rows, w, keys[j], result[j]))
  }

  lemma {:induction false} SelectCount(rows: seq<Record>, k: seq<int>, x: seq<int>)
    ensures multiset(Select(rows, k))[x] == multiset(rows)[Record(k, x)]
  {
    if rows != [] {
      var last := |rows| - 1;
      SelectCount(rows[..last], k, x);
      assert rows == rows[..last] + [rows[last]];
      assert rows[last] == Record(rows[last].key, rows[last].vals);
    }
  }

  // ------------------------------------------------------- what a result means

  /** Some row with the key has the value in a column. */
  ghost predicate HasValue(rows: seq<Record>, k: seq<int>, c: nat, v: int) {
    exists i :: 0 <= i < |rows| && rows[i].key == k && c < |rows[i].vals| && rows[i].vals[c] == v
  }

  /** Sum of a column over the rows with the key. */
  ghost function KeySum(rows: seq<Record>, k: seq<int>, c: nat): int
    requires forall i :: 0 <= i < |rows| ==> c < |rows[i].vals|
  {
    if rows == [] then 0
    else
      var last := |rows| - 1;
      KeySum(rows[..last], k, c) + if rows[last].key == k then rows[last].vals[c] else 0
  }

  /** `v` is the sum, the largest or the smallest value of a column over the rows with the key. */
  ghost predicate KeyColumnIs(op: Op, rows: seq<Record>, k: seq<int>, c: nat, v: int)
    requires forall i :: 0 <= i < |rows| ==> c < |rows[i].vals|
  {
    match op
    case Add => v == KeySum(rows, k, c)
    case Max => HasValue(rows, k, c, v) && forall i :: 0 <= i < |rows| && rows[i].key == k ==> rows[i].vals[c] <= v
    case Min => HasValue(rows, k, c, v) && forall i :: 0 <= i < |rows| && rows[i].key == k ==> v <= rows[i].vals[c]
  }

  /** Every column of `result` is the sum, the largest or the smallest value over the rows with the key. */
  ghost predicate Summarises(op: Op, rows: seq<Record>, kw: nat, w: nat, k: seq<int>, result: seq<int>)
    requires Table(rows, kw, w)
  {
    |result| == w && forall c :: 0 <= c < w ==> KeyColumnIs(op, rows, k, c, result[c])
  }

  lemma SelectMembers(rows: seq<Record>, k: seq<int>, x: seq<int>)
    ensures x in Select(rows, k) <==> exists i :: 0 <= i < |rows| && rows[i].key == k && rows[i].vals == x
  {
    var s, r := Select(rows, k), Record(k, x);
    SelectCount(rows, k, x);
    assert x in s <==> x in multiset(s);
    assert r in rows <==> r in multiset(rows);
    if r in rows {
      var i :| 0 <= i < |rows| && rows[i] == r;
    }
    forall i | 0 <= i < |rows| && rows[i].key == k && rows[i].vals == x ensures r in rows {
      assert rows[i] == r;
    }
  }

  lemma {:induction false} SelectSum(rows: seq<Record>, kw: nat, w: nat, k: seq<int>, c: nat)
    requires Table(rows, kw, w) && c < w
    ensures Wide(Select(rows, k), w) && ColumnSum(Select(rows, k), c) == KeySum(rows, k, c)
  {
    SelectWide(rows, k, kw, w);
    if rows != [] {
      var last := |rows| - 1;
      SelectSum(rows[..last], kw, w, k, c);
      var s := Select(rows[..last], k);
      assert (s + [rows[last].vals])[..|s|] == s && s + [] == s;
    }
  }

  lemma SelectColumn(op: Op, rows: seq<Record>, kw: nat, w: nat, k: seq<int>, c: nat, v: int)
    requires Table(rows, kw, w) && c < w
    ensures Wide(Select(rows, k), w) && (ColumnIs(op, Select(rows, k), c, v) <==> KeyColumnIs(op, rows, k, c, v))
  {
    var s := Select(rows, k);
    SelectSum(rows, kw, w, k, c);
    forall j | 0 <= j < |s| ensures HasValue(rows, k, c, s[j][c]) {
      SelectMembers(rows, k, s[j]);
    }
    forall i | 0 <= i < |rows| && rows[i].key == k
      ensures exists j :: 0 <= j < |s| && s[j] == rows[i].vals
    {
      SelectMembers(rows, k, rows[i].vals);
    }
  }

  /** The aggregate of a key's rows is its sum, largest or smallest values, column by column. */
  lemma KeyRowMeans(op: Op, rows: seq<Record>, kw: nat, w: nat, k: seq<int>, result: seq<int>)
    requires Table(rows, kw, w)
    ensures KeyRow(op, rows, w, k, result) <==> HasKey(rows, k) && Summarises(op, rows, kw, w, k, result)
  {
    var s := Select(rows, k);
    SelectWide(rows, k, kw, w);
    if s != [] {
      forall c | 0 <= c < w ensures KeyColumnIs(op, rows, k, c, Aggregate(op, s, w)[c]) {
        AggregateMeans(op, s, w, c);
        SelectColumn(op, rows, kw, w, k, c, Aggregate(op, s, w)[c]);
      }
      if Summarises(op, rows, kw, w, k, result) {
        forall c | 0 <= c < w ensures result[c] == Aggregate(op, s, w)[c] {
          OneColumnValue(op, rows, k, c, result[c], Aggregate(op, s, w)[c]);
        }
        assert result == Aggregate(op, s, w);
      }
    }
  }

  lemma OneColumnValue(op: Op, rows: seq<Record>, k: seq<int>, c: nat, u: int, v: int)
    requires forall i :: 0 <= i < |rows| ==> c < |rows[i].vals|
    requires KeyColumnIs(op, rows, k, c, u) && KeyColumnIs(op, rows, k, c, v)
    ensures u == v
  {
  }

  /** Reordering the rows reorders the rows of each key. */
  lemma SelectPermuted(rows: seq<Record>, sorted: seq<Record>, k: seq<int>)
    requires multiset(rows) == multiset(sorted)
    ensures multiset(Select(rows, k)) == multiset(Select(sorted, k))
    ensures HasKey(rows, k) <==> HasKey(sorted, k)
  {
    forall x ensures multiset(Select(rows, k))[x] == multiset(Select(sorted, k))[x] {
      SelectCount(rows, k, x);
      SelectCount(sorted, k, x);
    }
    PermutedKey(rows, sorted, k);
    PermutedKey(sorted, rows, k);
  }

  lemma PermutedKey(a: seq<Record>, b: seq<Record>, k: seq<int>)
    requires multiset(a) == multiset(b)
    ensures HasKey(a, k) ==> HasKey(b, k)
  {
    if HasKey(a, k) {
      var i :| 0 <= i < |a| && a[i].key == k;
      assert a[i] in multiset(b);
      var j :| 0 <= j < |b| && b[j] == a[i];
    }
  }

  lemma PermutedTable(a: seq<Record>, b: seq<Record>, kw: nat, w: nat)
    requires multiset(a) == multiset(b) && Table(a, kw, w)
    ensures Table(b, kw, w)
  {
    forall j | 0 <= j < |b| ensures |b[j].key| == kw && |b[j].vals| == w {
      assert b[j] in multiset(a);
    }
  }

  /**
   * The whole pipeline: rows sorted by key, marked, scanned in any bracketing, shuffled by any
   * order, filtered and sorted by segment id are the obvious group-by of the original rows.
   */
  lemma GroupByCorrect(op: Op, rows: seq<Record>, kw: nat, w: nat, sorted: seq<Record>, y: seq<Row>,
                       shuffled: seq<Line>, final: seq<Line>)
    returns (keys: seq<seq<int>>)
    requires Table(rows, kw, w) && multiset(sorted) == multiset(rows)
    requires Table(sorted, kw, w) && Sorted(sorted, kw, w)
    requires IsScan(op, GroupRows(sorted, kw, w), w, y)
    requires multiset(shuffled) == multiset(Lines(EndMarks(sorted, kw, w), MaskedScan(EndMarks(sorted, kw, w), y)))
    requires multiset(final) == multiset(Filter(shuffled)) && IdsSorted(final)
    ensures IsGroupBy(op, rows, kw, w, keys, seq(|final|, j requires 0 <= j < |final| => final[j].vals))
    ensures forall j :: 0 <= j < |keys| ==> Summarises(op, rows, kw, w, keys[j], final[j].vals)
  {
    var end := EndMarks(sorted, kw, w);
    EndMarksZeroOne(sorted, kw, w);
    FinalLines(end, MaskedScan(end, y), shuffled, final);
    keys := EndKeys(rows, sorted, kw, w);
    forall j | 0 <= j < |keys| ensures KeyRow(op, rows, w, keys[j], final[j].vals) {
      EndRow(op, rows, kw, w, sorted, y, Ends(end, |end|)[j]);
    }
    forall j | 0 <= j < |keys| ensures Summarises(op, rows, kw, w, keys[j], final[j].vals) {
      KeyRowMeans(op, rows, kw, w, keys[j], final[j].vals);
    }
  }

  lemma EndKeys(rows: seq<Record>, sorted: seq<Record>, kw: nat, w: nat) returns (keys: seq<seq<int>>)
    requires Table(sorted, kw, w) && Sorted(sorted, kw, w) && multiset(sorted) == multiset(rows)
    ensures var end := EndMarks(sorted, kw, w);
      var e := Ends(end, |end|);
      (forall j :: 0 <= j < |e| ==> e[j] < |sorted| && end[e[j]] == 1) && keys == KeysAt(sorted, e)
          && AreKeys(rows, kw, keys)
  {
    var end := EndMarks(sorted, kw, w);
    var e := Ends(end, |end|);
    EndMarksZeroOne(sorted, kw, w);
    EndsNumbered(end, |end|);
    forall j | 0 <= j < |e| ensures e[j] < |sorted| && end[e[j]] == 1 {
      assert EndAt(end, |end|, e, j);
    }
    keys := KeysAt(sorted, e);
    forall i, j | 0 <= i < j < |keys| ensures Less(keys[i], keys[j]) {
      EndsIncrease(end, |end|, i, j);
      EndKeysIncrease(sorted, kw, w, e[i], e[j]);
    }
    forall k ensures k in keys <==> HasKey(rows, k) {
      KeysCover(rows, sorted, kw, w, k);
    }
  }

  /** The line of a marked row is the aggregate over the original rows with its key. */
  lemma EndRow(op: Op, rows: seq<Record>, kw: nat, w: nat, sorted: seq<Record>, y: seq<Row>, e: nat)
    requires Table(sorted, kw, w) && Sorted(sorted, kw, w) && multiset(sorted) == multiset(rows)
    requires IsScan(op, GroupRows(sorted, kw, w), w, y)
    requires e < |sorted| && EndMarks(sorted, kw, w)[e] == 1
    ensures KeyRow(op, rows, w, sorted[e].key, MaskedScan(EndMarks(sorted, kw, w), y)[e])
  {
    AggregatesAtEnds(op, sorted, kw, w, y, e);
    SelectPermuted(rows, sorted, sorted[e].key);
    AggregatePermuted(op, Select(sorted, sorted[e].key), Select(rows, sorted[e].key), w);
  }

  /**
   * With one group the source returns the last line after the shuffle. That is the group's result exactly
   * when the shuffle has put the marked line last, or the result is zero anyway.
   */
  lemma OneGroupIff(op: Op, rows: seq<Record>, kw: nat, w: nat, sorted: seq<Record>, y: seq<Row>,
                    shuffled: seq<Line>, k: seq<int>)
    requires Table(rows, kw, w) && multiset(sorted) == multiset(rows) && rows != []
    requires Table(sorted, kw, w) && Sorted(sorted, kw, w)
    requires IsScan(op, GroupRows(sorted, kw, w), w, y)
    requires multiset(shuffled) == multiset(Lines(EndMarks(sorted, kw, w), MaskedScan(EndMarks(sorted, kw, w), y)))
    requires forall i :: 0 <= i < |rows| ==> rows[i].key == k
    ensures shuffled != []
    ensures var last := shuffled[|shuffled| - 1];
      KeyRow(op, rows, w, k, last.vals) <==> last.end == 1 || KeyRow(op, rows, w, k, Zero(w))
  {
    var end := EndMarks(sorted, kw, w);
    var lines := Lines(end, MaskedScan(end, y));
    assert |rows| == |multiset(rows)| && |sorted| == |multiset(sorted)|;
    assert |shuffled| == |multiset(shuffled)| && |lines| == |multiset(lines)|;
    var last := shuffled[|shuffled| - 1];
    assert last in multiset(lines);
    var i :| 0 <= i < |lines| && lines[i] == last;
    assert sorted[i] in multiset(rows);
    var j :| 0 <= j < |rows| && rows[j] == sorted[i];
    LineIs(op, rows, kw, w, sorted, y, i);
  }

  /** An opened line holds the aggregate of its key, or zeros. */
  lemma LineIs(op: Op, rows: seq<Record>, kw: nat, w: nat, sorted: seq<Record>, y: seq<Row>, i: nat)
    requires Table(sorted, kw, w) && Sorted(sorted, kw, w) && multiset(sorted) == multiset(rows) && i < |sorted|
    requires IsScan(op, GroupRows(sorted, kw, w), w, y)
    ensures var end := EndMarks(sorted, kw, w);
      if end[i] == 1 then KeyRow(op, rows, w, sorted[i].key, MaskedScan(end, y)[i])
      else MaskedScan(end, y)[i] == Zero(w)
  {
    var end := EndMarks(sorted, kw, w);
    EndMarksZeroOne(sorted, kw, w);
    if end[i] == 1 {
      EndRow(op, rows, kw, w, sorted, y, i);
    } else {
      ScanIsFold(op, GroupRows(sorted, kw, w), w, y, i);
    }
  }

  /** Two rows of one group with the values 1 and 2, and a shuffle that exchanges them: 0 is returned for the sum 3. */
  lemma OneGroupGoesWrong(y: seq<Row>)
    requires IsScan(Add, GroupRows([Record([0], [1]), Record([0], [2])], 1, 1), 1, y)
    ensures var rows := [Record([0], [1]), Record([0], [2])];
      var lines := Lines(EndMarks(rows, 1, 1), MaskedScan(EndMarks(rows, 1, 1), y));
      |lines| == 2 && [lines[1], lines[0]][1].vals == [0] && KeyRow(Add, rows, 1, [0], [3])
  {
    var rows := [Record([0], [1]), Record([0], [2])];
    EndMarkAt(rows, 1, 1, 0);
    ScanIsFold(Add, GroupRows(rows, 1, 1), 1, y, 0);
    assert Select(rows[..1], [0]) == [[1]] by {
      assert rows[..1][..0] == [];
    }
    var s := Select(rows, [0]);
    assert s == [[1], [2]];
    assert s[..1] == [[1]];
  }

  lemma EndMarksZeroOne(rows: seq<Record>, kw: nat, w: nat)
    requires Table(rows, kw, w)
    ensures ZeroOne(EndMarks(rows, kw, w))
  {
  }

  /** After the shuffle, the filter and the sort, line `j` is that of the `j`-th marked place. */
  lemma FinalLines(end: seq<int>, g: seq<seq<int>>, shuffled: seq<Line>, final: seq<Line>)
    requires |g| == |end| && ZeroOne(end) && multiset(shuffled) == multiset(Lines(end, g))
    requires multiset(final) == multiset(Filter(shuffled)) && IdsSorted(final)
    ensures |final| == |Ends(end, |end|)|
    ensures forall j :: 0 <= j < |final| ==> Ends(end, |end|)[j] < |end| && final[j].vals == g[Ends(end, |end|)[j]]
  {
    var lines := Lines(end, g);
    FilterPermuted(shuffled, lines);
    FilterIsEnds(end, g, |end|);
    assert lines[..|end|] == lines;
    forall j | 0 <= j < |Filter(lines)| ensures Filter(lines)[j].id == 0 + j {
      assert FilteredAt(end, g, |end|, j);
    }
    SortedIsNumbered(final, Filter(lines), 0);
    forall j | 0 <= j < |final| ensures Ends(end, |end|)[j] < |end| && final[j].vals == g[Ends(end, |end|)[j]] {
      assert FilteredAt(end, g, |end|, j);
    }
  }

  /** The keys of the marked rows are all keys. */
  lemma KeysCover(rows: seq<Record>, sorted: seq<Record>, kw: nat, w: nat, k: seq<int>)
    requires Table(sorted, kw, w) && multiset(sorted) == multiset(rows)
    requires forall j :: 0 <= j < |Ends(EndMarks(sorted, kw, w), |sorted|)| ==>
             Ends(EndMarks(sorted, kw, w), |sorted|)[j] < |sorted|
    ensures k in KeysAt(sorted, Ends(EndMarks(sorted, kw, w), |sorted|)) <==> HasKey(rows, k)
  {
    var end := EndMarks(sorted, kw, w);
    var e := Ends(end, |sorted|);
    SelectPermuted(rows, sorted, k);
    if HasKey(sorted, k) {
      var i :| 0 <= i < |sorted| && sorted[i].key == k;
      var last := LastOfKey(sorted, kw, w, i);
      EndsContain(end, |sorted|, last);
      var j :| 0 <= j < |e| && e[j] == last;
      assert KeysAt(sorted, e)[j] == k;
    }
    if k in KeysAt(sorted, e) {
      var j :| 0 <= j < |e| && KeysAt(sorted, e)[j] == k;
      assert sorted[e[j]].key == k;
    }
  }

  // ------------------------------------------------------------------- variations

  lemma {:induction false} OnesSum(rows: seq<seq<int>>)
    requires rows != [] && forall i :: 0 <= i < |rows| ==> rows[i] == [1]
    ensures Wide(rows, 1) && Aggregate(Add, rows, 1) == [|rows|]
  {
    if |rows| > 1 {
      OnesSum(rows[..|rows| - 1]);
    }
  }

  /** The places of the rows with a key. */
  ghost function Places(rows: seq<Record>, k: seq<int>): set<nat> {
    set i | 0 <= i < |rows| && rows[i].key == k
  }

  lemma PlacesSnoc(rows: seq<Record>, k: seq<int>)
    requires rows != []
    ensures |Places(rows, k)| == |Places(rows[..|rows| - 1], k)| + if rows[|rows| - 1].key == k then 1 else 0
  {
    var last := |rows| - 1;
    assert Places(rows, k) == Places(rows[..last], k) + (if rows[last].key == k then {last} else {});
  }

  lemma {:induction false} SelectCounts(rows: seq<Record>, k: seq<int>)
    ensures |Select(rows, k)| == |Places(rows, k)|
  {
    if rows != [] {
      var last := |rows| - 1;
      SelectCounts(rows[..last], k);
      PlacesSnoc(rows, k);
    } else {
      assert Places(rows, k) == {};
    }
  }

  lemma {:induction false} SelectOnes(rows: seq<Record>, k: seq<int>)
    requires forall i :: 0 <= i < |rows| ==> rows[i].vals == [1]
    ensures forall j :: 0 <= j < |Select(rows, k)| ==> Select(rows, k)[j] == [1]
  {
    if rows != [] {
      SelectOnes(rows[..|rows| - 1], k);
    }
  }

  /** `groupby_count`: the result for a key is the number of rows that have it. */
  lemma CountsRows(rows: seq<Record>, k: seq<int>, result: seq<int>)
    requires forall i :: 0 <= i < |rows| ==> rows[i].vals == [1]
    ensures KeyRow(Add, rows, 1, k, result) <==> HasKey(rows, k) && result == [|Places(rows, k)|]
  {
    SelectCounts(rows, k);
    SelectOnes(rows, k);
    if HasKey(rows, k) {
      var i :| 0 <= i < |rows| && rows[i].key == k;
      assert i in Places(rows, k);
      OnesSum(Select(rows, k));
    } else {
      assert Places(rows, k) == {};
    }
  }

  function Reverse<T>(x: seq<T>): (r: seq<T>)
    ensures |r| == |x| && forall i :: 0 <= i < |x| ==> r[i] == x[|x| - 1 - i]
  {
    seq(|x|, i requires 0 <= i < |x| => x[|x| - 1 - i])
  }

  /** The matrix `groupby_transform` scans from the end: 0 starts a group there. */
  function TransformRows(end: seq<int>, g: seq<seq<int>>, w: nat): (x: seq<Row>)
    requires |g| == |end| && ZeroOne(end) && Wide(g, w)
    ensures |x| == |end| && Rows(x, w)
  {
    seq(|end|, i requires 0 <= i < |end| => Row(1 - end[|end| - 1 - i], g[|end| - 1 - i]))
  }

  lemma {:induction false} TransformFold(end: seq<int>, g: seq<seq<int>>, w: nat, i: nat, e: nat)
    requires |g| == |end| && ZeroOne(end) && Wide(g, w) && NextEnd(end, i, e)
    requires forall j :: 0 <= j < |end| && end[j] == 0 ==> g[j] == Times(0, g[j])
    ensures Fold(Add, TransformRows(end, g, w)[..|end| - i], w).vals == g[e]
    decreases e - i
  {
    var x, k := TransformRows(end, g, w), |end| - 1 - i;
    assert x[k] == Row(1 - end[i], g[i]) && x[..k + 1][k] == x[k];
    if i < e {
      TransformFold(end, g, w, i + 1, e);
      AddNothing(g[e], g[i]);
    }
    if k > 0 {
      FoldSnoc(Add, x, w, k);
      FoldedRow(Fold(Add, x[..k], w), x[k]);
    }
  }

  /** A row with mask 0 starts anew, one with mask 1 is added. */
  lemma FoldedRow(a: Row, b: Row)
    requires |a.vals| == |b.vals|
    ensures Combine(Add, a, b).vals == if b.mask == 1 then Zip(Add, a.vals, b.vals) else b.vals
  {
  }

  /** The reverse scan copies what stands at the end of a group to all its rows. */
  lemma TransformCopies(end: seq<int>, g: seq<seq<int>>, w: nat, z: seq<Row>, i: nat, e: nat)
    requires |g| == |end| && ZeroOne(end) && Wide(g, w)
    requires IsScan(Add, TransformRows(end, g, w), w, z) && NextEnd(end, i, e)
    requires forall j :: 0 <= j < |end| && end[j] == 0 ==> g[j] == Times(0, g[j])
    ensures Reverse(z)[i].vals == g[e]
  {
    ScanIsFold(Add, TransformRows(end, g, w), w, z, |end| - 1 - i);
    TransformFold(end, g, w, i, e);
  }

  lemma AggregatesWide(op: Op, rows: seq<Record>, kw: nat, w: nat, y: seq<Row>)
    requires Table(rows, kw, w) && IsScan(op, GroupRows(rows, kw, w), w, y)
    ensures Wide(MaskedScan(EndMarks(rows, kw, w), y), w)
  {
    forall j | 0 <= j < |y| ensures |y[j].vals| == w {
      ScanIsFold(op, GroupRows(rows, kw, w), w, y, j);
    }
  }

  /** The matrix `groupby_agg` returns from the scan `y`. */
  ghost function Aggregated(op: Op, rows: seq<Record>, kw: nat, w: nat, y: seq<Row>): (g: seq<seq<int>>)
    requires Table(rows, kw, w) && IsScan(op, GroupRows(rows, kw, w), w, y)
    ensures |g| == |EndMarks(rows, kw, w)| && ZeroOne(EndMarks(rows, kw, w)) && Wide(g, w)
  {
    EndMarksZeroOne(rows, kw, w);
    AggregatesWide(op, rows, kw, w, y);
    MaskedScan(EndMarks(rows, kw, w), y)
  }

  /** `groupby_agg` and then `groupby_transform` give every row the aggregate of all original rows with its key. */
  lemma TransformBroadcasts(op: Op, rows: seq<Record>, sorted: seq<Record>, kw: nat, w: nat, y: seq<Row>, z: seq<Row>,
                            i: nat)
    requires Table(sorted, kw, w) && Sorted(sorted, kw, w) && multiset(sorted) == multiset(rows) && i < |sorted|
    requires IsScan(op, GroupRows(sorted, kw, w), w, y)
    requires IsScan(Add, TransformRows(EndMarks(sorted, kw, w), Aggregated(op, sorted, kw, w, y), w), w, z)
    ensures KeyRow(op, rows, w, sorted[i].key, Reverse(z)[i].vals)
    ensures Table(rows, kw, w) && Summarises(op, rows, kw, w, sorted[i].key, Reverse(z)[i].vals)
  {
    var end, g := EndMarks(sorted, kw, w), Aggregated(op, sorted, kw, w, y);
    forall j | 0 <= j < |end| && end[j] == 0 ensures g[j] == Times(0, g[j]) {
      assert g[j] == Times(0, y[j].vals);
    }
    var e := LastOfKey(sorted, kw, w, i);
    TransformCopies(end, g, w, z, i, e);
    EndRow(op, rows, kw, w, sorted, y, e);
    PermutedTable(sorted, rows, kw, w);
    KeyRowMeans(op, rows, kw, w, sorted[i].key, Reverse(z)[i].vals);
  }

  lemma AddNothing(x: seq<int>, z: seq<int>)
    requires |x| == |z| && z == Times(0, z)
    ensures Zip(Add, x, z) == x
  {
    forall k | 0 <= k < |x| ensures Zip(Add, x, z)[k] == x[k] {
      assert Times(0, z)[k] == 0;
    }
  }

  // --------------------------------------------------------------- revealing the keys

  /** The rows `shuffle_cols` reveals, as a set: the key at marked rows and zeros elsewhere. */
  ghost predicate Revealed(rows: seq<Record>, kw: nat, w: nat, k: seq<int>)
    requires Table(rows, kw, w)
  {
    exists i :: 0 <= i < |rows| && k == Times(EndMarks(rows, kw, w)[i], rows[i].key)
  }

  ghost predicate Distinct(keys: seq<seq<int>>, kw: nat) {
    Wide(keys, kw) && forall i, j :: 0 <= i < j < |keys| ==> Less(keys[i], keys[j])
  }

  function Zero(kw: nat): seq<int> {
    seq(kw, _ => 0)
  }

  /** `view_key_postprocessing` of the sorted distinct rows: the first is dropped if there is one too many. */
  function ViewKeys(unique: seq<seq<int>>, groupNum: nat): seq<seq<int>> {
    if |unique| > groupNum then unique[1..] else unique
  }

  /** When the code shows the right keys: no padding row, or zero is a key, or zero comes before every key. */
  predicate PaddingHarmless(rows: seq<Record>, kw: nat, w: nat)
    requires Table(rows, kw, w)
  {
    || (forall i :: 0 <= i < |rows| ==> EndMarks(rows, kw, w)[i] == 1)
    || HasKey(rows, Zero(kw))
    || (forall i :: 0 <= i < |rows| ==> Less(Zero(kw), rows[i].key))
  }

  lemma RevealedIs(rows: seq<Record>, kw: nat, w: nat, k: seq<int>)
    requires Table(rows, kw, w)
    ensures Revealed(rows, kw, w, k) <==>
      HasKey(rows, k) || (k == Zero(kw) && exists i :: 0 <= i < |rows| && EndMarks(rows, kw, w)[i] == 0)
  {
    var end := EndMarks(rows, kw, w);
    EndMarksZeroOne(rows, kw, w);
    forall i | 0 <= i < |rows| ensures Times(end[i], rows[i].key) == if end[i] == 1 then rows[i].key else Zero(kw) {
    }
    if Revealed(rows, kw, w, k) {
      var i :| 0 <= i < |rows| && k == Times(end[i], rows[i].key);
      assert rows[i].key == k || (k == Zero(kw) && end[i] == 0);
    }
    if HasKey(rows, k) {
      var i :| 0 <= i < |rows| && rows[i].key == k;
      var e := LastOfKey(rows, kw, w, i);
      assert Times(end[e], rows[e].key) == k;
    } else if k == Zero(kw) && exists i :: 0 <= i < |rows| && end[i] == 0 {
      var i :| 0 <= i < |rows| && end[i] == 0;
      assert Times(end[i], rows[i].key) == k;
    }
  }

  lemma {:induction false} SameSetSameList(a: seq<seq<int>>, b: seq<seq<int>>, kw: nat)
    requires Distinct(a, kw) && Distinct(b, kw) && forall k :: k in a <==> k in b
    ensures a == b
  {
    if |b| > 0 { assert b[0] in b; }
    if a != [] {
      assert a[0] in b;
      SameFirst(a, b, kw);
      forall k ensures k in a[1..] <==> k in b[1..] {
        RestWithoutFirst(a, kw, k);
        RestWithoutFirst(b, kw, k);
      }
      SameSetSameList(a[1..], b[1..], kw);
      assert a == [a[0]] + a[1..] && b == [b[0]] + b[1..];
    }
  }

  lemma SameFirst(a: seq<seq<int>>, b: seq<seq<int>>, kw: nat)
    requires Distinct(a, kw) && Distinct(b, kw) && a != [] && b != [] && a[0] in b && b[0] in a
    ensures a[0] == b[0]
  {
    var i :| 0 <= i < |b| && b[i] == a[0];
    var j :| 0 <= j < |a| && a[j] == b[0];
    LessOrder(a[0], b[0], b[0]);
  }

  lemma RestWithoutFirst(a: seq<seq<int>>, kw: nat, k: seq<int>)
    requires Distinct(a, kw) && a != []
    ensures k in a[1..] <==> k in a && k != a[0]
  {
    if k in a && k != a[0] {
      var i :| 0 <= i < |a| && a[i] == k;
      assert a[1..][i - 1] == k;
    }
    if k in a[1..] {
      var i :| 0 <= i < |a[1..]| && a[1..][i] == k;
      assert a[i + 1] == k;
      LessOrder(a[0], k, k);
    }
  }

  /** The keys shown are the distinct keys in order exactly when the padding is harmless. */
  lemma ViewKeysCorrectIff(rows: seq<Record>, kw: nat, w: nat, keys: seq<seq<int>>, unique: seq<seq<int>>)
    requires Table(rows, kw, w) && AreKeys(rows, kw, keys)
    requires Distinct(unique, kw) && forall k :: k in unique <==> Revealed(rows, kw, w, k)
    ensures ViewKeys(unique, |keys|) == keys <==> PaddingHarmless(rows, kw, w)
  {
    var padded := exists i :: 0 <= i < |rows| && EndMarks(rows, kw, w)[i] == 0;
    EndMarksZeroOne(rows, kw, w);
    forall k ensures k in unique <==> k in keys || (k == Zero(kw) && padded) {
      RevealedIs(rows, kw, w, k);
    }
    if !padded || HasKey(rows, Zero(kw)) {
      SameSetSameList(unique, keys, kw);
    } else {
      assert Zero(kw) in unique && Zero(kw) !in keys;
      if PaddingHarmless(rows, kw, w) {
        ZeroFirst(rows, kw, w, keys, unique);
      } else {
        ZeroLater(rows, kw, w, keys, unique);
      }
    }
  }

  lemma ZeroFirst(rows: seq<Record>, kw: nat, w: nat, keys: seq<seq<int>>, unique: seq<seq<int>>)
    requires Table(rows, kw, w) && AreKeys(rows, kw, keys) && Distinct(unique, kw)
    requires forall k :: k in unique <==> k in keys || k == Zero(kw)
    requires forall i :: 0 <= i < |rows| ==> Less(Zero(kw), rows[i].key)
    ensures ViewKeys(unique, |keys|) == keys
  {
    var all := [Zero(kw)] + keys;
    forall j | 0 <= j < |keys| ensures Less(Zero(kw), keys[j]) {
      assert keys[j] in keys && HasKey(rows, keys[j]);
    }
    SameSetSameList(unique, all, kw);
    assert all[1..] == keys;
  }

  lemma ZeroLater(rows: seq<Record>, kw: nat, w: nat, keys: seq<seq<int>>, unique: seq<seq<int>>)
    requires Table(rows, kw, w) && AreKeys(rows, kw, keys) && Distinct(unique, kw)
    requires Zero(kw) in unique && Zero(kw) !in keys && !PaddingHarmless(rows, kw, w)
    ensures ViewKeys(unique, |keys|) != keys
  {
    var i :| 0 <= i < |rows| && !Less(Zero(kw), rows[i].key);
    var k := rows[i].key;
    assert HasKey(rows, k) && k in keys;
    RestWithoutFirst(unique, kw, Zero(kw));
    FirstIsLeast(unique, kw, k);
  }

  lemma FirstIsLeast(a: seq<seq<int>>, kw: nat, k: seq<int>)
    requires Distinct(a, kw) && a != [] && |k| == kw
    ensures k in a[1..] ==> Less(a[0], k)
  {
    if k in a[1..] {
      var i :| 0 <= i < |a[1..]| && a[1..][i] == k;
      assert a[i + 1] == k;
    }
  }

  /** Keys -1, -1 and 2: the code shows 0 and 2. */
  lemma NegativeKeyLost()
    ensures var rows := [Record([-1], []), Record([-1], []), Record([2], [])];
      Table(rows, 1, 0) && AreKeys(rows, 1, [[-1], [2]]) && ViewKeys([[-1], [0], [2]], 2) == [[0], [2]]
      && forall k :: k in [[-1], [0], [2]] <==> Revealed(rows, 1, 0, k)
  {
    var rows := [Record([-1], []), Record([-1], []), Record([2], [])];
    assert rows[0].key == [-1] && rows[2].key == [2];
    forall k ensures k in [[-1], [2]] <==> HasKey(rows, k) {
    }
    EndMarkAt(rows, 1, 0, 0);
    EndMarkAt(rows, 1, 0, 1);
    EndMarkAt(rows, 1, 0, 2);
    assert Zero(1) == [0];
    forall k ensures k in [[-1], [0], [2]] <==> Revealed(rows, 1, 0, k) {
      RevealedIs(rows, 1, 0, k);
    }
  }
}

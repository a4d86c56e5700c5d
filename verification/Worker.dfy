/** The per-party training data and its histograms: `experimental/squirrel/tree_build_worker.cc`. */
module Worker {
  import opened Arith
  import opened Ring
  import opened Binning
  import opened BinMatVec
  import opened Wrappers

  /** `nf * B`: all buckets of `nf` features.  This and the next two functions are written without
      products and quotients, which keeps proofs that only pass them around cheap. */
  function Buckets(nf: nat, B: nat): nat {
    if nf == 0 then 0 else Buckets(nf - 1, B) + B
  }

  /** `r / B`: the feature of row `r`. */
  function FeatureOf(r: nat, B: nat): nat
    requires B > 0
  {
    if r < B then 0 else 1 + FeatureOf(r - B, B)
  }

  /** `r % B`: the bucket of row `r` within its feature. */
  function BucketOf(r: nat, B: nat): nat
    requires B > 0
  {
    if r < B then r else BucketOf(r - B, B)
  }

  lemma {:induction false} BucketsIsProduct(nf: nat, B: nat)
    ensures Buckets(nf, B) == nf * B
  {
    if nf > 0 {
      BucketsIsProduct(nf - 1, B);
      assert nf * B == (nf - 1) * B + B;
    }
  }

  /** The other two are the quotient and the remainder. */
  lemma {:induction false} RowArithmetic(r: nat, B: nat)
    requires B > 0
    ensures FeatureOf(r, B) == r / B && BucketOf(r, B) == r % B
    decreases r
  {
    if r >= B {
      RowArithmetic(r - B, B);
      assert r == ((r - B) / B + 1) * B + (r - B) % B;
      DivModUnique(r, B, (r - B) / B + 1, (r - B) % B);
    } else {
      DivModUnique(r, B, 0, r);
    }
  }

  /** Row of bucket `k` of feature `f`, `B` buckets to a feature. */
  function Row(f: nat, k: nat, B: nat): nat {
    Buckets(f, B) + k
  }

  lemma {:induction false} BucketsMonotone(f: nat, nf: nat, B: nat)
    requires f <= nf
    ensures Buckets(f, B) <= Buckets(nf, B)
    decreases nf
  {
    if f < nf {
      BucketsMonotone(f, nf - 1, B);
    }
  }

  lemma {:induction false} RowInRange(f: nat, k: nat, B: nat, nf: nat)
    requires f < nf && k < B
    ensures Row(f, k, B) < Buckets(nf, B)
    ensures FeatureOf(Row(f, k, B), B) == f && BucketOf(Row(f, k, B), B) == k
    ensures Row(f + 1, 0, B) == Row(f, 0, B) + B <= Buckets(nf, B)
  {
    BucketsMonotone(f + 1, nf, B);
    if f > 0 {
      RowInRange(f - 1, k, B, nf);
      assert Row(f, k, B) - B == Row(f - 1, k, B);
    }
  }

  /** Feature and bucket of a row. */
  lemma {:induction false} RowParts(r: nat, B: nat, nf: nat)
    requires B > 0 && r < Buckets(nf, B)
    ensures FeatureOf(r, B) < nf && BucketOf(r, B) < B && Row(FeatureOf(r, B), BucketOf(r, B), B) == r
  {
    if r >= B {
      RowParts(r - B, B, nf - 1);
    }
  }

  /** A feature column. */
  function Column(data: seq<seq<real>>, f: nat): (c: seq<real>)
    requires forall i :: 0 <= i < |data| ==> f < |data[i]|
    ensures |c| == |data| && forall i :: 0 <= i < |data| ==> c[i] == data[i][f]
  {
    seq(|data|, i requires 0 <= i < |data| => data[i][f])
  }

  /** All samples of a column that fall in bucket `k`. */
  ghost function BucketSet(thr: seq<Ext>, col: seq<real>, k: nat): set<nat> {
    set c | 0 <= c < |col| && LowerBound(thr, Fin(col[c])) == k
  }

  /** The samples among the first `n` that a 16-bit bin number sends to bucket `k`. */
  ghost function StoredSetTo(thr: seq<Ext>, col: seq<real>, n: nat, k: nat): set<nat>
    requires n <= |col|
  {
    set c | 0 <= c < n && LowerBound(thr, Fin(col[c])) % 0x10000 == k
  }

  /** No value of the column falls in a bin whose number needs more than 16 bits. */
  ghost predicate ShortBins(thr: seq<Ext>, col: seq<real>) {
    forall c :: 0 <= c < |col| ==> LowerBound(thr, Fin(col[c])) < 0x10000
  }

  /** Some value of column `f` stays clear of the largest double, so the column can be binned. */
  ghost predicate Binnable(data: seq<seq<real>>, f: nat, maxFinite: real)
    requires forall i :: 0 <= i < |data| ==> f < |data[i]|
  {
    exists i :: 0 <= i < |data| && maxFinite - data[i][f] >= EPS
  }

  /** Samples of a column that fall in the buckets up to `k`. */
  ghost function LeftSet(thr: seq<Ext>, col: seq<real>, k: nat): set<nat> {
    set c | 0 <= c < |col| && LowerBound(thr, Fin(col[c])) <= k
  }

  /** The buckets up to one that has a threshold hold exactly the values not above it. */
  lemma LeftSetIsComparison(thr: seq<Ext>, nbuckets: nat, col: seq<real>, k: nat, c: nat)
    requires ValidThresholds(thr, nbuckets) && k < |thr| && c < |col|
    ensures c in LeftSet(thr, col, k) <==> Le(Fin(col[c]), thr[k])
  {
    var l := LowerBound(thr, Fin(col[c]));
    LowerBoundIsTheBin(thr, nbuckets, Fin(col[c]), l);
    assert l < k ==> Lt(thr[l], thr[k]);
  }

  /** The last bucket of a feature has all samples to its left. */
  lemma LastBucketHoldsAll(thr: seq<Ext>, nbuckets: nat, col: seq<real>, c: nat)
    requires ValidThresholds(thr, nbuckets) && c < |col|
    ensures c in LeftSet(thr, col, nbuckets - 1)
  {
    LowerBoundIsTheBin(thr, nbuckets, Fin(col[c]), LowerBound(thr, Fin(col[c])));
  }

  lemma LeftSetStep(thr: seq<Ext>, col: seq<real>, k: nat)
    ensures k > 0 ==> LeftSet(thr, col, k) == LeftSet(thr, col, k - 1) + BucketSet(thr, col, k)
    ensures k > 0 ==> LeftSet(thr, col, k - 1) !! BucketSet(thr, col, k)
    ensures k == 0 ==> LeftSet(thr, col, k) == BucketSet(thr, col, k)
  {
  }

  /** Sum of `h[start..start + k]`, both ends included. */
  ghost function PrefixSum(h: seq<int>, start: nat, k: nat): int
    requires start + k < |h|
  {
    if k == 0 then h[start] else PrefixSum(h, start, k - 1) + h[start + k]
  }

  lemma {:induction false} PrefixSumSame(g: seq<int>, h: seq<int>, start: nat, k: nat)
    requires start + k < |g| == |h|
    requires forall j :: start <= j <= start + k ==> g[j] == h[j]
    ensures PrefixSum(g, start, k) == PrefixSum(h, start, k)
  {
    if k > 0 {
      PrefixSumSame(g, h, start, k - 1);
    }
  }

  /** The histogram holds the running sums of `h` inside every feature. */
  ghost predicate Accumulated(m: Modulus, acc: seq<int>, h: seq<int>, nf: nat, B: nat) {
    && |acc| == |h| == Buckets(nf, B)
    && forall f, k :: 0 <= f < nf && 0 <= k < B ==> RunningSum(m, acc, h, f, k, B)
  }

  ghost predicate RunningSum(m: Modulus, acc: seq<int>, h: seq<int>, f: nat, k: nat, B: nat)
    requires |acc| == |h|
  {
    0 <= Row(f, 0, B) <= Row(f, k, B) < |h| && Cong(m, acc[Row(f, k, B)], PrefixSum(h, Row(f, 0, B), k))
  }

  /** Running sums inside one feature, in place. */
  method AccumulateFeature(m: Modulus, histogram: array<int>, start: nat, end: nat)
    requires start < end <= histogram.Length
    modifies histogram
    ensures forall i :: 0 <= i < start || end <= i < histogram.Length ==> histogram[i] == old(histogram[i])
    ensures forall i :: start <= i < end ==> Cong(m, histogram[i], PrefixSum(old(histogram[..]), start, i - start))
  {
    ghost var h := histogram[..];
    CongMultiple(m, histogram[start], h[start], 0);
    for k := start + 1 to end
      invariant forall i :: 0 <= i < start || k <= i < histogram.Length ==> histogram[i] == h[i]
      invariant forall i :: start <= i < k ==> Cong(m, histogram[i], PrefixSum(h, start, i - start))
    {
      CongAdd(m, histogram[k], h[k], histogram[k - 1], PrefixSum(h, start, k - 1 - start));
      CongReduce(m, histogram[k] + histogram[k - 1]);
      CongTrans(m, (histogram[k] + histogram[k - 1]) % m, histogram[k] + histogram[k - 1],
                PrefixSum(h, start, k - start));
      histogram[k] := (histogram[k] + histogram[k - 1]) % m;
    }
  }

  /** Running sums inside each feature, in place. */
  method AccumulateHistogram(m: Modulus, histogram: array<int>, nf: nat, B: nat)
    requires histogram.Length == Buckets(nf, B) && B > 0
    modifies histogram
    ensures Accumulated(m, histogram[..], old(histogram[..]), nf, B)
  {
    ghost var h := histogram[..];
    var start := 0;
    for j := 0 to nf
      invariant 0 <= start <= |h| && AccumulatedTo(m, histogram[..], h, j, start, nf, B)
    {
      RowInRange(j, 0, B, nf);
      var end := start + B;
      ghost var before := histogram[..];
      AccumulateFeature(m, histogram, start, end);
      FeaturesDone(m, before, histogram[..], h, j, start, nf, B);
      start := end;
    }
  }

  /** The first `j` features hold running sums, the rest, from `start` on, is untouched. */
  ghost predicate AccumulatedTo(m: Modulus, acc: seq<int>, h: seq<int>, j: nat, start: int, nf: nat, B: nat) {
    && |acc| == |h| == Buckets(nf, B) && start == Row(j, 0, B)
    && (forall f, k :: 0 <= f < j && 0 <= k < B ==> RunningSum(m, acc, h, f, k, B))
    && forall i :: start <= i < |h| && 0 <= i ==> acc[i] == h[i]
  }

  lemma FeaturesDone(m: Modulus, before: seq<int>, after: seq<int>, h: seq<int>, j: nat, start: nat, nf: nat, B: nat)
    requires j < nf && B > 0 && |after| == |before| && AccumulatedTo(m, before, h, j, start, nf, B)
    requires start + B <= |h|
    requires forall i :: 0 <= i < start || start + B <= i < |h| ==> after[i] == before[i]
    requires forall i :: start <= i < start + B ==> Cong(m, after[i], PrefixSum(before, start, i - start))
    ensures AccumulatedTo(m, after, h, j + 1, start + B, nf, B)
  {
    RowInRange(j, 0, B, nf);
    forall f, k | 0 <= f < j + 1 && 0 <= k < B ensures RunningSum(m, after, h, f, k, B) {
      assert f < j ==> RunningSum(m, before, h, f, k, B);
      FeatureDone(m, before, after, h, j, f, k, nf, B);
    }
  }

  lemma FeatureDone(m: Modulus, before: seq<int>, after: seq<int>, h: seq<int>, j: nat, f: nat, k: nat, nf: nat, B: nat)
    requires f <= j < nf && k < B && |before| == |after| == |h| == Buckets(nf, B)
    requires 0 <= Buckets(j, B) && Buckets(j, B) + B <= Buckets(nf, B)
    requires f < j ==> RunningSum(m, before, h, f, k, B)
    requires forall i :: Buckets(j, B) <= i < |h| ==> before[i] == h[i]
    requires forall i :: 0 <= i < Buckets(j, B) || Buckets(j, B) + B <= i < |h| ==> after[i] == before[i]
    requires forall i :: Buckets(j, B) <= i < Buckets(j, B) + B ==>
               Cong(m, after[i], PrefixSum(before, Buckets(j, B), i - Buckets(j, B)))
    ensures RunningSum(m, after, h, f, k, B)
  {
    RowInRange(f, k, B, nf);
    if f < j {
      RowInRange(f, k, B, j);
      assert after[Row(f, k, B)] == before[Row(f, k, B)];
    } else {
      ThisFeatureDone(m, before, after, h, f, k, B);
    }
  }

  lemma ThisFeatureDone(m: Modulus, before: seq<int>, after: seq<int>, h: seq<int>, f: nat, k: nat, B: nat)
    requires k < B && 0 <= Buckets(f, B) && Buckets(f, B) + B <= |before| == |after| == |h|
    requires forall i :: Buckets(f, B) <= i < |h| ==> before[i] == h[i]
    requires Cong(m, after[Buckets(f, B) + k], PrefixSum(before, Buckets(f, B), k))
    ensures RunningSum(m, after, h, f, k, B)
  {
    PrefixSumSame(before, h, Buckets(f, B), k);
  }

  /** One party's binned training data. */
  datatype Side = Side(thrs: seq<seq<Ext>>, data: seq<seq<real>>)

  ghost predicate ValidSide(v: Side, B: nat) {
    && B >= 3
    && (forall c :: 0 <= c < |v.data| ==> |v.data[c]| == |v.thrs|)
    && forall f :: 0 <= f < |v.thrs| ==> ValidThresholds(v.thrs[f], B)
  }

  /** The samples in the buckets of `r`'s feature up to and including `r`. */
  ghost function LeftOf(v: Side, B: nat, r: nat): set<nat>
    requires ValidSide(v, B) && r < Buckets(|v.thrs|, B)
  {
    RowParts(r, B, |v.thrs|);
    LeftSet(v.thrs[FeatureOf(r, B)], Column(v.data, FeatureOf(r, B)), BucketOf(r, B))
  }

  /** Feature and threshold of a bucket; reading past the thresholds fails. */
  function SplitOf(thrs: seq<seq<Ext>>, B: nat, target: nat): Option<(nat, Ext)>
    requires B > 0 && target < Buckets(|thrs|, B)
  {
    RowParts(target, B, |thrs|);
    var f, k := FeatureOf(target, B), BucketOf(target, B);
    if k < |thrs[f]| then Some((f, thrs[f][k])) else None
  }

  /** There is a split for a bucket exactly when its feature has that many thresholds. */
  lemma ThresholdRead(thrs: seq<seq<Ext>>, B: nat, target: nat)
    requires B > 0 && target < |thrs| * B
    ensures target < Buckets(|thrs|, B) && target / B < |thrs|
    ensures SplitOf(thrs, B, target) ==
            if target % B < |thrs[target / B]| then Some((target / B, thrs[target / B][target % B])) else None
  {
    BucketsIsProduct(|thrs|, B);
    RowParts(target, B, |thrs|);
    RowArithmetic(target, B);
  }

  /** The buckets to the left of a split are the samples the split sends left. */
  lemma SplitIsLeft(v: Side, B: nat, target: nat, c: nat)
    requires ValidSide(v, B) && target < Buckets(|v.thrs|, B) && c < |v.data|
    requires SplitOf(v.thrs, B, target).Some?
    ensures SplitOf(v.thrs, B, target).value.0 < |v.thrs|
    ensures c in LeftOf(v, B, target) <==>
            Le(Fin(v.data[c][SplitOf(v.thrs, B, target).value.0]), SplitOf(v.thrs, B, target).value.1)
  {
    RowParts(target, B, |v.thrs|);
    var f, k := FeatureOf(target, B), BucketOf(target, B);
    LeftSetIsComparison(v.thrs[f], B, Column(v.data, f), k, c);
  }

  /** Every bucket row holds exactly the samples of its bucket. */
  ghost predicate MapOk(rows: seq<set<nat>>, v: Side, B: nat) {
    && ValidSide(v, B) && |rows| == Buckets(|v.thrs|, B)
    && forall f: nat :: f < |v.thrs| ==> Filled(rows, f, B, v.thrs[f], Column(v.data, f))
  }

  class XGBTreeBuildWorker {
    const rank: nat
    const bucketSize: nat
    const nfeatures: nat
    const peerNfeatures: nat
    const maxFinite: real
    var bucketMap: seq<set<nat>>
    var cols: nat
    var binnings: seq<seq<Ext>>  // the fitted thresholds of every feature
    ghost var data: seq<seq<real>>

    ghost function View(): Side
      reads this
    {
      Side(binnings, data)
    }

    ghost predicate Valid()
      reads this
    {
      && 3 <= bucketSize && |binnings| == nfeatures && cols == |data|
      && MapOk(bucketMap, View(), bucketSize)
    }

    constructor (rank: nat, bucketSize: nat, nfeatures: nat, peerNfeatures: nat, maxFinite: real)
      ensures this.rank == rank && this.bucketSize == bucketSize && this.nfeatures == nfeatures
      ensures this.peerNfeatures == peerNfeatures && this.maxFinite == maxFinite
      ensures binnings == []
    {
      this.rank, this.bucketSize, this.nfeatures, this.peerNfeatures := rank, bucketSize, nfeatures, peerNfeatures;
      this.maxFinite := maxFinite;
      bucketMap, cols, binnings, data := [], 0, [], [];
    }

    /** Bins every feature and records which sample lies in which bucket.  Fails when a column cannot be binned. */
    method BuildMap(dframe: seq<seq<real>>) returns (ok: bool)
      requires 3 <= bucketSize
      requires forall i :: 0 <= i < |dframe| ==> |dframe[i]| == nfeatures
      requires forall i, f :: 0 <= i < |dframe| && 0 <= f < nfeatures ==> dframe[i][f] <= maxFinite
      modifies this
      ensures ok ==> data == dframe && |binnings| == nfeatures && MapDone(bucketMap, binnings, dframe, bucketSize)
      ensures ok ==> (Valid() <==> forall f :: 0 <= f < nfeatures ==> ShortBins(binnings[f], Column(dframe, f)))
      ensures ok && bucketSize <= 0x10000 ==> Valid()
      ensures ok <==> forall f :: 0 <= f < nfeatures ==> Binnable(dframe, f, maxFinite)
    {
      var nsamples := |dframe|;
      var bins: seq<seq<Ext>> := [];
      var nzero: seq<set<nat>> := seq(Buckets(nfeatures, bucketSize), _ => {});
      forall f, k | 0 <= f < nfeatures && 0 <= k < bucketSize ensures RowHolds(nzero, f, k, bucketSize, {}) {
        RowInRange(f, k, bucketSize, nfeatures);
      }
      for f := 0 to nfeatures
        invariant |bins| == f && |nzero| == Buckets(nfeatures, bucketSize)
        invariant MapDone(nzero, bins, dframe, bucketSize)
        invariant forall g, k :: f <= g < nfeatures && 0 <= k < bucketSize ==> RowHolds(nzero, g, k, bucketSize, {})
        invariant forall g :: 0 <= g < f ==> Binnable(dframe, g, maxFinite)
      {
        var fitted, thr, rows := BinFeature(nzero, f, bucketSize, nfeatures, maxFinite, dframe);
        if !fitted {
          return false;
        }
        MapGrows(nzero, rows, bins, thr, dframe, f, bucketSize, nfeatures);
        bins, nzero := bins + [thr], rows;
      }
      MapOkIffShort(nzero, bins, dframe, bucketSize);
      bucketMap, cols, binnings, data := nzero, nsamples, bins, dframe;
      ok := true;
    }

    function SplitInfo(target: nat): Option<(nat, Ext)>
      requires Valid() && target < Buckets(nfeatures, bucketSize)
      reads this
    {
      SplitOf(binnings, bucketSize, target)
    }

    /** Marks the samples to the left of a bucket. */
    method PotentialLeftIndicator(target: nat) returns (indicator: seq<Bit>)
      requires Valid() && target < Buckets(nfeatures, bucketSize)
      ensures |indicator| == cols && Marks(indicator, LeftOf(View(), bucketSize, target))
    {
      RowParts(target, bucketSize, nfeatures);
      var f, kt := FeatureOf(target, bucketSize), BucketOf(target, bucketSize);
      ghost var thr, col := binnings[f], Column(data, f);
      indicator := seq(cols, _ => 0);
      var bucketBgn := Buckets(f, bucketSize);
      ghost var marked: set<nat> := {};
      for k := 0 to kt + 1
        invariant |indicator| == cols && Marks(indicator, marked)
        invariant marked == if k == 0 then {} else LeftSet(thr, col, k - 1)
      {
        assert RowHolds(bucketMap, f, k, bucketSize, BucketSet(thr, col, k));
        LeftSetStep(thr, col, k);
        indicator := MarkRow(indicator, bucketMap[bucketBgn + k], marked);
        marked := marked + bucketMap[bucketBgn + k];
      }
    }
  }

  /** The bits of `ind` mark exactly the members of `s`. */
  ghost predicate Marks(ind: seq<Bit>, s: set<nat>) {
    (forall c :: 0 <= c < |ind| ==> (ind[c] == 1 <==> c in s)) && forall c :: c in s ==> c < |ind|
  }

  /** Marks the samples of one row; none of them may be marked yet. */
  method MarkRow(ind: seq<Bit>, row: set<nat>, ghost marked: set<nat>) returns (r: seq<Bit>)
    requires Marks(ind, marked) && marked !! row && forall c :: c in row ==> c < |ind|
    ensures |r| == |ind| && Marks(r, marked + row)
  {
    r := ind;
    var todo := row;
    while todo != {}
      invariant |r| == |ind| && todo <= row && Marks(r, marked + (row - todo))
      decreases todo
    {
      var c :| c in todo;
      assert r[c] == 0;  // the enforced "hit once"
      r := r[c := 1];
      todo := todo - {c};
    }
    assert row - todo == row;
  }

  /** The rows of all features in `thrs` are in place. */
  ghost predicate MapDone(rows: seq<set<nat>>, thrs: seq<seq<Ext>>, data: seq<seq<real>>, B: nat)
    requires forall i :: 0 <= i < |data| ==> |thrs| <= |data[i]|
  {
    forall f :: 0 <= f < |thrs| ==> ValidThresholds(thrs[f], B) && Stored(rows, f, B, thrs[f], Column(data, f), |data|)
  }

  /** The rows of feature `f` hold the samples of its buckets. */
  ghost predicate Filled(rows: seq<set<nat>>, f: nat, B: nat, thr: seq<Ext>, col: seq<real>) {
    forall k :: 0 <= k < B ==> RowHolds(rows, f, k, B, BucketSet(thr, col, k))
  }

  lemma MapGrows(rows: seq<set<nat>>, r: seq<set<nat>>, thrs: seq<seq<Ext>>, thr: seq<Ext>, data: seq<seq<real>>,
                 f: nat, B: nat, nf: nat)
    requires forall i :: 0 <= i < |data| ==> |data[i]| == nf
    requires f == |thrs| < nf && MapDone(rows, thrs, data, B)
    requires OthersKept(rows, r, f, B, nf)
    requires ValidThresholds(thr, B) && Stored(r, f, B, thr, Column(data, f), |data|)
    ensures MapDone(r, thrs + [thr], data, B)
  {
    forall g | 0 <= g < f ensures Stored(r, g, B, thrs[g], Column(data, g), |data|) {
      assert Stored(rows, g, B, thrs[g], Column(data, g), |data|);
    }
  }

  /** Stored rows are the true bucket rows exactly when no bin number was cut. */
  lemma FilledIffShort(rows: seq<set<nat>>, f: nat, B: nat, thr: seq<Ext>, col: seq<real>)
    requires ValidThresholds(thr, B) && Stored(rows, f, B, thr, col, |col|)
    ensures Filled(rows, f, B, thr, col) <==> ShortBins(thr, col)
  {
    if ShortBins(thr, col) {
      forall k | 0 <= k < B ensures RowHolds(rows, f, k, B, BucketSet(thr, col, k)) {
        assert RowHolds(rows, f, k, B, StoredSetTo(thr, col, |col|, k));
        assert StoredSetTo(thr, col, |col|, k) == BucketSet(thr, col, k);
      }
    } else {
      var c :| 0 <= c < |col| && LowerBound(thr, Fin(col[c])) >= 0x10000;
      var l := LowerBound(thr, Fin(col[c]));
      LowerBoundIsTheBin(thr, B, Fin(col[c]), l);
      var k := l % 0x10000;
      assert RowHolds(rows, f, k, B, StoredSetTo(thr, col, |col|, k));
      assert c in StoredSetTo(thr, col, |col|, k) && c !in BucketSet(thr, col, k);
    }
  }

  lemma MapOkIffShort(rows: seq<set<nat>>, thrs: seq<seq<Ext>>, data: seq<seq<real>>, B: nat)
    requires B >= 3 && |rows| == Buckets(|thrs|, B) && forall c :: 0 <= c < |data| ==> |data[c]| == |thrs|
    requires MapDone(rows, thrs, data, B)
    ensures MapOk(rows, Side(thrs, data), B) <==> forall f :: 0 <= f < |thrs| ==> ShortBins(thrs[f], Column(data, f))
    ensures B <= 0x10000 ==> MapOk(rows, Side(thrs, data), B)
  {
    forall f | 0 <= f < |thrs|
      ensures Filled(rows, f, B, thrs[f], Column(data, f)) <==> ShortBins(thrs[f], Column(data, f))
      ensures B <= 0x10000 ==> ShortBins(thrs[f], Column(data, f))
    {
      var col := Column(data, f);
      FilledIffShort(rows, f, B, thrs[f], col);
      forall c | 0 <= c < |col| ensures LowerBound(thrs[f], Fin(col[c])) < B {
        LowerBoundIsTheBin(thrs[f], B, Fin(col[c]), LowerBound(thrs[f], Fin(col[c])));
      }
    }
  }

  /** Bins one feature column and enters its samples. */
  method BinFeature(rows: seq<set<nat>>, f: nat, B: nat, nf: nat, maxFinite: real, data: seq<seq<real>>)
    returns (fitted: bool, thr: seq<Ext>, r: seq<set<nat>>)
    requires f < nf && 3 <= B && |rows| == Buckets(nf, B)
    requires forall i :: 0 <= i < |data| ==> |data[i]| == nf && data[i][f] <= maxFinite
    requires forall k :: 0 <= k < B ==> RowHolds(rows, f, k, B, {})
    ensures fitted <==> Binnable(data, f, maxFinite)
    ensures fitted ==> |r| == |rows| && OthersKept(rows, r, f, B, nf)
    ensures fitted ==> ValidThresholds(thr, B) && Stored(r, f, B, thr, Column(data, f), |data|)
  {
    var col := Column(data, f);
    var bin := new Binner(B, maxFinite);
    var res := bin.Fit(col);
    assert Binnable(data, f, maxFinite) <==> exists v :: v in col && maxFinite - v >= EPS by {
      assert forall i :: 0 <= i < |col| ==> col[i] in col;
    }
    fitted, thr, r := res.Fitted?, bin.thresholds, rows;
    if fitted {
      var buckets := bin.Transform(ToExt(col));
      r := FillFeature(rows, f, B, nf, thr, col, buckets);
    }
  }

  ghost predicate RowHolds(rows: seq<set<nat>>, f: nat, k: nat, B: nat, s: set<nat>) {
    0 <= Row(f, k, B) < |rows| && rows[Row(f, k, B)] == s
  }

  /** The rows of feature `f` hold its first `n` samples, by their 16-bit bin numbers. */
  ghost predicate Stored(rows: seq<set<nat>>, f: nat, B: nat, thr: seq<Ext>, col: seq<real>, n: nat)
    requires n <= |col|
  {
    forall k :: 0 <= k < B ==> RowHolds(rows, f, k, B, StoredSetTo(thr, col, n, k))
  }

  /** All rows other than those of feature `f` are the same. */
  ghost predicate OthersKept(rows: seq<set<nat>>, r: seq<set<nat>>, f: nat, B: nat, nf: nat) {
    forall g, k, s :: 0 <= g < nf && g != f && 0 <= k < B && RowHolds(rows, g, k, B, s) ==> RowHolds(r, g, k, B, s)
  }

  lemma EnterSample(rows: seq<set<nat>>, f: nat, bucket: nat, B: nat, nf: nat, thr: seq<Ext>, col: seq<real>, i: nat)
    requires f < nf && bucket < B && |rows| == Buckets(nf, B) && i < |col|
    requires Stored(rows, f, B, thr, col, i) && bucket == LowerBound(thr, Fin(col[i])) % 0x10000
    ensures 0 <= Row(f, bucket, B) < |rows|
    ensures var r := rows[Row(f, bucket, B) := rows[Row(f, bucket, B)] + {i}];
            Stored(r, f, B, thr, col, i + 1) && OthersKept(rows, r, f, B, nf)
  {
    RowInRange(f, bucket, B, nf);
    var r := rows[Row(f, bucket, B) := rows[Row(f, bucket, B)] + {i}];
    var n := i + 1;
    forall k | 0 <= k < B ensures RowHolds(r, f, k, B, StoredSetTo(thr, col, n, k)) {
      RowInRange(f, k, B, nf);
      assert RowHolds(rows, f, k, B, StoredSetTo(thr, col, i, k));
      assert StoredSetTo(thr, col, n, k) == StoredSetTo(thr, col, i, k) + (if bucket == k then {i} else {});
    }
    forall g, k, s | 0 <= g < nf && g != f && 0 <= k < B && RowHolds(rows, g, k, B, s) ensures RowHolds(r, g, k, B, s) {
      RowInRange(g, k, B, nf);
    }
  }

  /** Enters every sample of feature `f` in the row of its bucket. */
  method FillFeature(rows: seq<set<nat>>, f: nat, B: nat, nf: nat, ghost thr: seq<Ext>, col: seq<real>,
                     buckets: seq<nat>)
    returns (r: seq<set<nat>>)
    requires f < nf && 3 <= B && |rows| == Buckets(nf, B) && |buckets| == |col|
    requires ValidThresholds(thr, B)
    requires forall i :: 0 <= i < |col| ==> buckets[i] == LowerBound(thr, Fin(col[i])) % 0x10000
    requires forall k :: 0 <= k < B ==> RowHolds(rows, f, k, B, {})
    ensures |r| == |rows| && Stored(r, f, B, thr, col, |col|) && OthersKept(rows, r, f, B, nf)
  {
    r := rows;
    assert forall k :: 0 <= k < B ==> StoredSetTo(thr, col, 0, k) == {};
    for i := 0 to |col|
      invariant |r| == |rows| && Stored(r, f, B, thr, col, i) && OthersKept(rows, r, f, B, nf)
    {
      LowerBoundIsTheBin(thr, B, Fin(col[i]), LowerBound(thr, Fin(col[i])));
      assert buckets[i] < B;  // the enforced bound on the bucket
      var bucket := buckets[i];
      EnterSample(r, f, bucket, B, nf, thr, col, i);
      var row := Row(f, bucket, B);
      r := r[row := r[row] + {i}];
    }
  }

  // --------------------------------------------------------- gradient sums

  /** Running sums of shared row products are sums over the samples to the left. */
  lemma {:induction false} PrefixOfRows(m: Modulus, a0: seq<int>, a1: seq<int>, rows: seq<set<nat>>, start: nat, k: nat,
                     thr: seq<Ext>, col: seq<real>, sel: set<nat>, v0: seq<int>, v1: seq<int>)
    requires |a0| == |a1| == |rows| && start + k < |rows| && |v0| == |v1|
    requires forall r :: 0 <= r < |rows| ==> Cong(m, a0[r] + a1[r], TwoSums(v0, v1, rows[r] * sel))
    requires forall j :: 0 <= j <= k ==> rows[start + j] == BucketSet(thr, col, j)
    ensures Cong(m, PrefixSum(a0, start, k) + PrefixSum(a1, start, k), TwoSums(v0, v1, LeftSet(thr, col, k) * sel))
  {
    LeftSetStep(thr, col, k);
    if k == 0 {
      assert rows[start + 0] == rows[start];
    } else {
      PrefixOfRows(m, a0, a1, rows, start, k - 1, thr, col, sel, v0, v1);
      var left, here := LeftSet(thr, col, k - 1) * sel, rows[start + k] * sel;
      assert LeftSet(thr, col, k) * sel == left + here;
      MaskSumUnion(v0, left, here, |v0|);
      MaskSumUnion(v1, left, here, |v1|);
      CongAdd(m, PrefixSum(a0, start, k - 1) + PrefixSum(a1, start, k - 1), TwoSums(v0, v1, left),
              a0[start + k] + a1[start + k], TwoSums(v0, v1, here));
    }
  }

  /** Entry `r` of a shared histogram is the sum over the selected samples to the left of bucket `r`. */
  ghost predicate BucketSumsTo(m: Modulus, z0: seq<int>, z1: seq<int>, r: nat, v0: seq<int>, v1: seq<int>, s: set<nat>)
    requires |v0| == |v1|
  {
    r < |z0| && r < |z1| && Cong(m, z0[r] + z1[r], TwoSums(v0, v1, s))
  }

  /** One direction of `ComputeGradientSums`: the histogram over `w`'s buckets, accumulated, as shares. */
  method SumBuckets(m: Modulus, N: nat, w: XGBTreeBuildWorker, ind: seq<Bit>, v0: seq<int>, v1: seq<int>)
    returns (z0: seq<int>, z1: seq<int>)
    requires w.Valid() && IsPow2(N) && |v0| == |v1| == w.cols > 0 && (ind == [] || |ind| == w.cols)
    ensures |z0| == |z1| == Buckets(w.nfeatures, w.bucketSize)
    ensures forall r: nat :: r < Buckets(w.nfeatures, w.bucketSize) ==>
              BucketSumsTo(m, z0, z1, r, v0, v1, LeftOf(w.View(), w.bucketSize, r) * Selected(ind, w.cols))
  {
    var nf, B := w.nfeatures, w.bucketSize;
    RowsBelowCols(w);
    var a0, a1 := Multiply(m, N, w.bucketMap, ind, v0, v1);
    var h0 := new int[|a0|](i requires 0 <= i < |a0| => a0[i]);
    var h1 := new int[|a1|](i requires 0 <= i < |a1| => a1[i]);
    assert h0[..] == a0 && h1[..] == a1;
    AccumulateHistogram(m, h0, nf, B);
    AccumulateHistogram(m, h1, nf, B);
    z0, z1 := h0[..], h1[..];
    forall r: nat | r < Buckets(nf, B)
      ensures BucketSumsTo(m, z0, z1, r, v0, v1, LeftOf(w.View(), w.bucketSize, r) * Selected(ind, w.cols))
    {
      BucketOfShares(m, w, ind, v0, v1, a0, a1, z0, z1, r);
    }
  }

  lemma RowsBelowCols(w: XGBTreeBuildWorker)
    requires w.Valid()
    ensures forall r, c :: 0 <= r < |w.bucketMap| && c in w.bucketMap[r] ==> c < w.cols
  {
    forall r, c | 0 <= r < |w.bucketMap| && c in w.bucketMap[r] ensures c < w.cols {
      RowParts(r, w.bucketSize, w.nfeatures);
      var f, k := FeatureOf(r, w.bucketSize), BucketOf(r, w.bucketSize);
      assert RowHolds(w.bucketMap, f, k, w.bucketSize, BucketSet(w.binnings[f], Column(w.data, f), k));
    }
  }

  lemma BucketOfShares(m: Modulus, w: XGBTreeBuildWorker, ind: seq<Bit>, v0: seq<int>, v1: seq<int>,
                       a0: seq<int>, a1: seq<int>, z0: seq<int>, z1: seq<int>, r: nat)
    requires w.Valid() && |v0| == |v1| == w.cols && (ind == [] || |ind| == w.cols)
    requires r < Buckets(w.nfeatures, w.bucketSize)
    requires |a0| == |a1| == |w.bucketMap|
    requires forall t :: 0 <= t < |a0| ==>
             Cong(m, a0[t] + a1[t], TwoSums(v0, v1, w.bucketMap[t] * Selected(ind, w.cols)))
    requires Accumulated(m, z0, a0, w.nfeatures, w.bucketSize) && Accumulated(m, z1, a1, w.nfeatures, w.bucketSize)
    ensures BucketSumsTo(m, z0, z1, r, v0, v1, LeftOf(w.View(), w.bucketSize, r) * Selected(ind, w.cols))
  {
    var B := w.bucketSize;
    RowParts(r, B, w.nfeatures);
    var f, k := FeatureOf(r, B), BucketOf(r, B);
    var thr, col, sel := w.binnings[f], Column(w.data, f), Selected(ind, w.cols);
    assert RunningSum(m, z0, a0, f, k, B) && RunningSum(m, z1, a1, f, k, B);
    var start := Row(f, 0, B);
    forall j | 0 <= j <= k ensures w.bucketMap[start + j] == BucketSet(thr, col, j) {
      assert RowHolds(w.bucketMap, f, j, B, BucketSet(thr, col, j));
    }
    PrefixOfRows(m, a0, a1, w.bucketMap, start, k, thr, col, sel, v0, v1);
    CongAdd(m, z0[r], PrefixSum(a0, start, k), z1[r], PrefixSum(a1, start, k));
    CongTrans(m, z0[r] + z1[r], PrefixSum(a0, start, k) + PrefixSum(a1, start, k),
              TwoSums(v0, v1, LeftOf(w.View(), w.bucketSize, r) * sel));
  }
}

/** Histograms, whole levels and whole trees: `experimental/squirrel/tree_builder.cc`. */
module TreeTraining {
  import opened Arith
  import opened Ring
  import opened Binning
  import opened BinMatVec
  import opened SecureMul
  import opened Worker
  import opened TreeSpec
  import opened TreeBuilder

  // ------------------------------------------------------------- histograms

  /** `ComputeGradientSums` for one shared vector: rank 0's buckets, then rank 1's, each over the holder's own rows. */
  method GradientSums(m: Modulus, N: nat, wa: XGBTreeBuildWorker, wb: XGBTreeBuildWorker, ia: seq<Bit>, ib: seq<Bit>,
                      x: seq<int>, y: seq<int>, ghost root: seq<int>, ghost s: set<nat>)
    returns (ga: seq<int>, gb: seq<int>)
    requires wa.Valid() && wb.Valid() && wa.bucketSize == wb.bucketSize && wa.cols == wb.cols == |root| > 0 && IsPow2(N)
    requires (ia == [] || |ia| == wa.cols) && (ib == [] || |ib| == wa.cols)
    requires MaskedShares(m, x, y, root, s)
    ensures HistOk(m, ga, gb, wa.View(), wb.View(), wa.bucketSize, root,
                   Counted(s * Selected(ia, |root|), s * Selected(ib, |root|)))
  {
    var a0, b0 := SumBuckets(m, N, wa, ia, x, y);
    var a1, b1 := SumBuckets(m, N, wb, ib, x, y);
    ga, gb := a0 + a1, b0 + b1;
    ghost var va, vb, B := wa.View(), wb.View(), wa.bucketSize;
    ghost var n0 := Buckets(|va.thrs|, B);
    ghost var t := Counted(s * Selected(ia, |root|), s * Selected(ib, |root|));
    forall r: nat | r < |ga| ensures EntryOk(m, ga, gb, va, vb, B, root, t, r) {
      if r < n0 {
        assert BucketSumsTo(m, a0, b0, r, x, y, LeftOf(va, B, r) * Selected(ia, |root|));
        BucketOfNode(m, x, y, root, s, LeftOf(va, B, r), Selected(ia, |root|), ga[r] + gb[r]);
      } else {
        ghost var q := r - n0;
        assert ga[r] == a1[q] && gb[r] == b1[q];
        assert BucketSumsTo(m, a1, b1, q, x, y, LeftOf(vb, B, q) * Selected(ib, |root|));
        BucketOfNode(m, x, y, root, s, LeftOf(vb, B, q), Selected(ib, |root|), ga[r] + gb[r]);
      }
    }
  }

  lemma BucketOfNode(m: Modulus, x: seq<int>, y: seq<int>, root: seq<int>, s: set<nat>, left: set<nat>, sel: set<nat>,
                     sum: int)
    requires MaskedShares(m, x, y, root, s)
    requires Cong(m, sum, TwoSums(x, y, left * sel))
    ensures Cong(m, sum, MaskSum(root, left * (s * sel), |root|))
  {
    SumsOfMasked(m, x, y, root, left * sel, s);
    assert left * sel * s == left * (s * sel);
    CongTrans(m, sum, TwoSums(x, y, left * sel), MaskSum(root, left * (s * sel), |root|));
  }

  /** The samples of node `idx` that each party counts: those it draws. */
  ghost function NodeCounts(ta: seq<SplitId>, tb: seq<SplitId>, va: Side, vb: Side, root: Root, idx: nat): Counted
    requires 1 <= idx < 2 * |ta| && |ta| == |tb| && DrawsFit(root)
  {
    var s := NodeSet(ta, tb, va.data, vb.data, idx);
    Counted(s * Selected(root.draw.a, |root.g|), s * Selected(root.draw.b, |root.g|))
  }

  /** Both shared histograms of a node are those of its counted samples. */
  ghost predicate HistAt(m: Modulus, ga: map<nat, GH>, gb: map<nat, GH>, ta: seq<SplitId>, tb: seq<SplitId>,
                         va: Side, vb: Side, B: nat, root: Root, idx: nat)
  {
    && idx in ga && idx in gb && 1 <= idx < 2 * |ta| && |ta| == |tb| && DrawsFit(root)
    && HistOk(m, ga[idx].g, gb[idx].g, va, vb, B, root.g, NodeCounts(ta, tb, va, vb, root, idx))
    && HistOk(m, ga[idx].h, gb[idx].h, va, vb, B, root.h, NodeCounts(ta, tb, va, vb, root, idx))
  }

  ghost predicate HistRange(m: Modulus, ga: map<nat, GH>, gb: map<nat, GH>, ta: seq<SplitId>, tb: seq<SplitId>,
                            va: Side, vb: Side, B: nat, root: Root, lo: nat, hi: nat)
  {
    forall idx :: lo <= idx < hi ==> HistAt(m, ga, gb, ta, tb, va, vb, B, root, idx)
  }

  /** More splits do not disturb the histograms of existing nodes. */
  lemma HistPrefix(m: Modulus, ga: map<nat, GH>, gb: map<nat, GH>, ta: seq<SplitId>, tb: seq<SplitId>,
                   ta': seq<SplitId>, tb': seq<SplitId>, va: Side, vb: Side, B: nat, root: Root, lo: nat, hi: nat)
    requires HistRange(m, ga, gb, ta, tb, va, vb, B, root, lo, hi) && ta <= ta' && tb <= tb' && |ta'| == |tb'|
    ensures HistRange(m, ga, gb, ta', tb', va, vb, B, root, lo, hi)
  {
    forall idx | lo <= idx < hi ensures HistAt(m, ga, gb, ta', tb', va, vb, B, root, idx) {
      assert HistAt(m, ga, gb, ta, tb, va, vb, B, root, idx);
      ReachingExtend(ta, ta', va.data, idx);
      ReachingExtend(tb, tb', vb.data, idx);
    }
  }

  lemma ReachingExtend(t: seq<SplitId>, t': seq<SplitId>, data: seq<seq<real>>, idx: nat)
    requires t <= t' && 1 <= idx < 2 * |t|
    ensures Reaching(t', data, idx) == Reaching(t, data, idx)
  {
    assert t' == t + t'[|t|..];
    forall c | 0 <= c < |data| ensures Path(t', ToExt(data[c]), idx) == Path(t, ToExt(data[c]), idx) {
      PathPrefix(t, t'[|t|..], ToExt(data[c]), idx);
    }
  }

  /** What `StoreHistogram` does to the cache: the node is entered; if the parent is cached, the sibling replaces it. */
  ghost predicate Stored(m: Modulus, was: map<nat, GH>, now: map<nat, GH>, idx: nat, left: GH) {
    && idx in now && now[idx] == left
    && (idx / 2 in was ==>
          && idx + 1 in now
          && Difference(m, now[idx + 1].g, was[idx / 2].g, left.g)
          && Difference(m, now[idx + 1].h, was[idx / 2].h, left.h))
    && forall k: nat :: StoredAt(was, now, idx, k)
  }

  ghost predicate StoredAt(was: map<nat, GH>, now: map<nat, GH>, idx: nat, k: nat) {
    && (k in now <==> (k in was && k != idx / 2) || k == idx || (idx / 2 in was && k == idx + 1))
    && (k in was && k in now && k != idx && k != idx + 1 ==> now[k] == was[k])
  }

  /** Caches the left child's histogram and, by subtraction from the parent's, its sibling's. */
  method StoreHistogram(m: Modulus, b: XGBTreeBuilder, idx: nat, left: GH)
    requires idx >= 1 && idx !in b.cachedGHs && idx + 1 !in b.cachedGHs
    requires idx / 2 in b.cachedGHs ==> |b.cachedGHs[idx / 2].g| == |left.g| && |b.cachedGHs[idx / 2].h| == |left.h|
    modifies b`cachedGHs
    ensures Stored(m, old(b.cachedGHs), b.cachedGHs, idx, left)
  {
    b.cachedGHs := b.cachedGHs[idx := left];
    var parentIdx := idx / 2;
    if parentIdx !in b.cachedGHs {
      return;
    }
    var parent := b.cachedGHs[parentIdx];
    var gr := Minus(m, parent.g, left.g);
    var hr := Minus(m, parent.h, left.h);
    b.cachedGHs := b.cachedGHs - {parentIdx};
    b.cachedGHs := b.cachedGHs[idx + 1 := GH(gr, hr)];
  }

  /** State of the histogram cache in the middle of a level. */
  ghost predicate HistState(m: Modulus, ga: map<nat, GH>, gb: map<nat, GH>, ta: seq<SplitId>, tb: seq<SplitId>,
                            va: Side, vb: Side, B: nat, root: Root, lo: nat, bgn: nat, idx: nat)
  {
    && KeysAre(ga, lo, bgn, bgn, idx) && KeysAre(gb, lo, bgn, bgn, idx)
    && HistRange(m, ga, gb, ta, tb, va, vb, B, root, lo, bgn)
    && HistRange(m, ga, gb, ta, tb, va, vb, B, root, bgn, idx)
  }

  /** The root's histogram enters the empty cache. */
  lemma StoreRoot(m: Modulus, ga: map<nat, GH>, gb: map<nat, GH>, ga': map<nat, GH>, gb': map<nat, GH>,
                  ta: seq<SplitId>, tb: seq<SplitId>, va: Side, vb: Side, B: nat, root: Root, la: GH, lb: GH)
    requires HistState(m, ga, gb, ta, tb, va, vb, B, root, 1, 1, 1)
    requires Stored(m, ga, ga', 1, la) && Stored(m, gb, gb', 1, lb) && |ta| == |tb| >= 1
    requires DrawsFit(root)
    requires HistOk(m, la.g, lb.g, va, vb, B, root.g, NodeCounts(ta, tb, va, vb, root, 1))
    requires HistOk(m, la.h, lb.h, va, vb, B, root.h, NodeCounts(ta, tb, va, vb, root, 1))
    ensures HistState(m, ga', gb', ta, tb, va, vb, B, root, 1, 1, 2)
  {
    forall k: nat ensures KeyAt(ga', 1, 1, 1, 2, k) && KeyAt(gb', 1, 1, 1, 2, k) {
      assert KeyAt(ga, 1, 1, 1, 1, k) && KeyAt(gb, 1, 1, 1, 1, k) && KeyAt(ga, 1, 1, 1, 1, 0)
             && KeyAt(gb, 1, 1, 1, 1, 0);
      assert StoredAt(ga, ga', 1, k) && StoredAt(gb, gb', 1, k);
    }
  }

  /** The children's counted samples partition the parent's, at either party. */
  lemma CountsPartition(ta: seq<SplitId>, tb: seq<SplitId>, va: Side, vb: Side, root: Root, p: nat)
    requires 1 <= p < |ta| && Matched(ta, tb, |va.thrs|, |vb.thrs|) && |va.data| == |vb.data| && DrawsFit(root)
    requires forall c :: 0 <= c < |va.data| ==> |va.data[c]| == |va.thrs| && |vb.data[c]| == |vb.thrs|
    ensures var s, l := NodeCounts(ta, tb, va, vb, root, p), NodeCounts(ta, tb, va, vb, root, 2 * p);
            var r := NodeCounts(ta, tb, va, vb, root, 2 * p + 1);
            l.a !! r.a && l.a + r.a == s.a && l.b !! r.b && l.b + r.b == s.b
  {
    ChildrenPartition(ta, tb, va.data, vb.data, p, |va.thrs|, |vb.thrs|);
  }

  /** A pair of siblings replaces their parent. */
  lemma StorePair(m: Modulus, ga: map<nat, GH>, gb: map<nat, GH>, ga': map<nat, GH>, gb': map<nat, GH>,
                  ta: seq<SplitId>, tb: seq<SplitId>, va: Side, vb: Side, B: nat, root: Root, la: GH, lb: GH, p: nat,
                  bgn: nat)
    requires bgn <= 2 * p && 1 <= p < bgn && HistState(m, ga, gb, ta, tb, va, vb, B, root, p, bgn, 2 * p)
    requires Stored(m, ga, ga', 2 * p, la) && Stored(m, gb, gb', 2 * p, lb)
    requires p < |ta| && Matched(ta, tb, |va.thrs|, |vb.thrs|) && |va.data| == |vb.data|
    requires DrawsFit(root)
    requires HistOk(m, la.g, lb.g, va, vb, B, root.g, NodeCounts(ta, tb, va, vb, root, 2 * p))
    requires HistOk(m, la.h, lb.h, va, vb, B, root.h, NodeCounts(ta, tb, va, vb, root, 2 * p))
    ensures HistState(m, ga', gb', ta, tb, va, vb, B, root, p + 1, bgn, 2 * p + 2)
  {
    var lo, hi, l, r := p + 1, 2 * p + 2, 2 * p, 2 * p + 1;
    assert l / 2 == p;
    forall k: nat ensures KeyAt(ga', lo, bgn, bgn, hi, k) && KeyAt(gb', lo, bgn, bgn, hi, k) {
      assert KeyAt(ga, p, bgn, bgn, l, k) && KeyAt(gb, p, bgn, bgn, l, k) && KeyAt(ga, p, bgn, bgn, l, p)
             && KeyAt(gb, p, bgn, bgn, l, p);
      assert StoredAt(ga, ga', l, k) && StoredAt(gb, gb', l, k);
    }
    assert HistAt(m, ga, gb, ta, tb, va, vb, B, root, p);
    CountsPartition(ta, tb, va, vb, root, p);
    var sp, sl, sr := NodeCounts(ta, tb, va, vb, root, p), NodeCounts(ta, tb, va, vb, root, l),
        NodeCounts(ta, tb, va, vb, root, r);
    SiblingHistogram(m, ga[p].g, gb[p].g, la.g, lb.g, ga'[r].g, gb'[r].g, va, vb, B, root.g, sp, sl, sr);
    SiblingHistogram(m, ga[p].h, gb[p].h, la.h, lb.h, ga'[r].h, gb'[r].h, va, vb, B, root.h, sp, sl, sr);
    forall idx | lo <= idx < bgn || bgn <= idx < hi ensures HistAt(m, ga', gb', ta, tb, va, vb, B, root, idx) {
      if idx != l && idx != r {
        assert HistAt(m, ga, gb, ta, tb, va, vb, B, root, idx);
        assert StoredAt(ga, ga', l, idx) && StoredAt(gb, gb', l, idx);
      }
    }
  }

  /** The samples that the indicators select are the node's counted samples. */
  lemma CountsOfNode(m: Modulus, ta: seq<SplitId>, tb: seq<SplitId>, va: Side, vb: Side, root: Root,
                     ia: seq<Bit>, ib: seq<Bit>, x: GH, y: GH, idx: nat)
    requires NodeOk(m, ta, tb, va.data, vb.data, root, ia, ib, x, y, idx) && |va.data| == |root.g| == |root.h|
    ensures DrawsFit(root)
    ensures var s := NodeSet(ta, tb, va.data, vb.data, idx);
            NodeCounts(ta, tb, va, vb, root, idx) == Counted(s * Selected(ia, |root.g|), s * Selected(ib, |root.g|))
  {
    IndicatorSelects(ia, root.draw.a, ta, va.data, idx);
    IndicatorSelects(ib, root.draw.b, tb, vb.data, idx);
    var s, ra, rb := NodeSet(ta, tb, va.data, vb.data, idx), Reaching(ta, va.data, idx), Reaching(tb, vb.data, idx);
    assert s * (ra * Selected(root.draw.a, |root.g|)) == s * Selected(root.draw.a, |root.g|);
    assert s * (rb * Selected(root.draw.b, |root.g|)) == s * Selected(root.draw.b, |root.g|);
  }

  /** The shared histogram of one node, for gradient and hessian. */
  method HistogramOfNode(m: Modulus, N: nat, wa: XGBTreeBuildWorker, wb: XGBTreeBuildWorker, ia: seq<Bit>, ib: seq<Bit>,
                         x: GH, y: GH, ghost ta: seq<SplitId>, ghost tb: seq<SplitId>, ghost root: Root, ghost idx: nat)
    returns (la: GH, lb: GH)
    requires wa.Valid() && wb.Valid() && wa.bucketSize == wb.bucketSize
    requires wa.cols == wb.cols == |root.g| == |root.h| > 0 && IsPow2(N)
    requires NodeOk(m, ta, tb, wa.data, wb.data, root, ia, ib, x, y, idx)
    ensures DrawsFit(root)
    ensures HistOk(m, la.g, lb.g, wa.View(), wb.View(), wa.bucketSize, root.g,
                   NodeCounts(ta, tb, wa.View(), wb.View(), root, idx))
    ensures HistOk(m, la.h, lb.h, wa.View(), wb.View(), wa.bucketSize, root.h,
                   NodeCounts(ta, tb, wa.View(), wb.View(), root, idx))
  {
    CountsOfNode(m, ta, tb, wa.View(), wb.View(), root, ia, ib, x, y, idx);
    ghost var s := NodeSet(ta, tb, wa.data, wb.data, idx);
    var ga, gb := GradientSums(m, N, wa, wb, ia, ib, x.g, y.g, root.g, s);
    var ha, hb := GradientSums(m, N, wa, wb, ia, ib, x.h, y.h, root.h, s);
    la, lb := GH(ga, ha), GH(gb, hb);
  }

  ghost predicate HistReady(m: Modulus, a: XGBTreeBuilder, b: XGBTreeBuilder, va: Side, vb: Side, B: nat, root: Root,
                            lo: nat, bgn: nat, idx: nat)
    requires a.splitIdentifiers != [] && b.splitIdentifiers != []
    reads a, b
  {
    HistState(m, a.cachedGHs, b.cachedGHs, a.Tree(), b.Tree(), va, vb, B, root, lo, bgn, idx)
  }

  /** First node whose histogram is still cached from the level above. */
  function ParentsFrom(level: nat, idx: nat): nat {
    if level <= 1 then 1 else idx / 2
  }

  /** One iteration of the histogram loop of `TrainLevel`. */
  method HistogramStep(m: Modulus, N: nat, a: XGBTreeBuilder, b: XGBTreeBuilder, wa: XGBTreeBuildWorker,
                       wb: XGBTreeBuildWorker, ghost level: nat, idx: nat, ghost root: Root)
    requires Paired(a, b, wa, wb) && IsPow2(N) && |root.g| == |root.h| == a.nsamples && level >= 1
    requires SameTree(a.splitIdentifiers, b.splitIdentifiers, wa.nfeatures, wb.nfeatures, Pow2(level - 1))
    requires if level == 1 then idx == 1 else Pow2(level - 1) <= idx < Pow2(level) && idx % 2 == 0
    requires NodeAt(m, a.Tree(), b.Tree(), wa.data, wb.data, root, a.sampleIndicators, b.sampleIndicators, a.cachedGh,
                    b.cachedGh, idx)
    requires HistReady(m, a, b, wa.View(), wb.View(), wa.bucketSize, root, ParentsFrom(level, idx), Pow2(level - 1),
                       idx)
    modifies a`cachedGHs, b`cachedGHs
    ensures level == 1 ==> HistReady(m, a, b, wa.View(), wb.View(), wa.bucketSize, root, 1, 1, 2)
    ensures level > 1 ==>
            HistReady(m, a, b, wa.View(), wb.View(), wa.bucketSize, root, ParentsFrom(level, idx + 2), Pow2(level - 1),
                      idx + 2)
  {
    ghost var ta, tb, va, vb, B, bgn := a.Tree(), b.Tree(), wa.View(), wb.View(), wa.bucketSize, Pow2(level - 1);
    var la, lb := HistogramOfNode(m, N, wa, wb, a.sampleIndicators[idx], b.sampleIndicators[idx], a.cachedGh[idx],
                                  b.cachedGh[idx], ta, tb, root, idx);
    ghost var ga, gb := a.cachedGHs, b.cachedGHs;
    NoEntryYet(ga, ParentsFrom(level, idx), bgn, idx);
    NoEntryYet(gb, ParentsFrom(level, idx), bgn, idx);
    assert level > 1 ==> HistAt(m, ga, gb, ta, tb, va, vb, B, root, idx / 2);
    StoreHistogram(m, a, idx, la);
    StoreHistogram(m, b, idx, lb);
    if level == 1 {
      StoreRoot(m, ga, gb, a.cachedGHs, b.cachedGHs, ta, tb, va, vb, B, root, la, lb);
    } else {
      StorePair(m, ga, gb, a.cachedGHs, b.cachedGHs, ta, tb, va, vb, B, root, la, lb, idx / 2, bgn);
    }
  }

  lemma NoEntryYet<V(!new)>(g: map<nat, V>, lo: nat, bgn: nat, idx: nat)
    requires KeysAre(g, lo, bgn, bgn, idx) && 1 <= bgn <= idx && lo >= 1
    ensures idx !in g && idx + 1 !in g && 0 !in g
  {
    assert KeyAt(g, lo, bgn, bgn, idx, idx) && KeyAt(g, lo, bgn, bgn, idx, idx + 1) && KeyAt(g, lo, bgn, bgn, idx, 0);
  }

  /** The histograms of a whole level. */
  method LevelHistograms(m: Modulus, N: nat, a: XGBTreeBuilder, b: XGBTreeBuilder, wa: XGBTreeBuildWorker,
                         wb: XGBTreeBuildWorker, level: nat, ghost root: Root)
    requires Paired(a, b, wa, wb) && IsPow2(N) && |root.g| == |root.h| == a.nsamples && level >= 1
    requires SameTree(a.splitIdentifiers, b.splitIdentifiers, wa.nfeatures, wb.nfeatures, Pow2(level - 1))
    requires LevelReady(m, a, b, wa.data, wb.data, root, Pow2(level - 1), Pow2(level))
    requires HistReady(m, a, b, wa.View(), wb.View(), wa.bucketSize, root, ParentsFrom(level, Pow2(level - 1)),
                       Pow2(level - 1), Pow2(level - 1))
    modifies a`cachedGHs, b`cachedGHs
    ensures HistReady(m, a, b, wa.View(), wb.View(), wa.bucketSize, root, Pow2(level - 1), Pow2(level - 1), Pow2(level))
  {
    var bgn, end := Pow2(level - 1), Pow2(level);
    EvenStart(level);
    var idx := bgn;
    while idx < end
      invariant if level == 1 then idx == 1 || idx == 3 else bgn <= idx <= end && idx % 2 == 0
      invariant level == 1 && idx == 3 ==> HistReady(m, a, b, wa.View(), wb.View(), wa.bucketSize, root, 1, 1, 2)
      invariant level > 1 || idx == 1 ==>
                HistReady(m, a, b, wa.View(), wb.View(), wa.bucketSize, root, ParentsFrom(level, idx), bgn, idx)
    {
      assert NodeAt(m, a.Tree(), b.Tree(), wa.data, wb.data, root, a.sampleIndicators, b.sampleIndicators, a.cachedGh,
                    b.cachedGh, idx);
      HistogramStep(m, N, a, b, wa, wb, level, idx, root);
      idx := idx + 2;
    }
  }

  lemma EvenStart(level: nat)
    requires level >= 1
    ensures Pow2(level) == 2 * Pow2(level - 1)
    ensures level == 1 ==> Pow2(0) == 1
    ensures level > 1 ==> Pow2(level - 1) % 2 == 0 && Pow2(level - 1) / 2 == Pow2(level - 2)
  {
    if level > 1 {
      assert Pow2(level - 1) == 2 * Pow2(level - 2);
    }
  }

  // ----------------------------------------------------------- whole levels

  /** All nodes of a level are split: the children are the next level. */
  lemma NextLevelNodes(m: Modulus, a: XGBTreeBuilder, b: XGBTreeBuilder, da: seq<seq<real>>, db: seq<seq<real>>,
                       root: Root, n: nat)
    requires a.splitIdentifiers != [] && b.splitIdentifiers != [] && LevelReady(m, a, b, da, db, root, n, n)
    ensures LevelReady(m, a, b, da, db, root, n, 2 * n)
  {
    NextKeys(a.sampleIndicators, n);
    NextKeys(b.sampleIndicators, n);
    NextKeys(a.cachedGh, n);
    NextKeys(b.cachedGh, n);
  }

  lemma NextKeys<V(!new)>(g: map<nat, V>, n: nat)
    requires KeysAre(g, n, n, n, 2 * n)
    ensures KeysAre(g, n, 2 * n, 2 * n, 2 * n)
  {
    var t := 2 * n;
    forall k: nat ensures KeyAt(g, n, t, t, t, k) {
      assert KeyAt(g, n, n, n, 2 * n, k);
    }
  }

  /** The histograms of a finished level are the parents' histograms of the next. */
  lemma NextLevelHistograms(m: Modulus, ga: map<nat, GH>, gb: map<nat, GH>, ta: seq<SplitId>, tb: seq<SplitId>,
                            ta': seq<SplitId>, tb': seq<SplitId>, va: Side, vb: Side, B: nat, root: Root, n: nat)
    requires HistState(m, ga, gb, ta, tb, va, vb, B, root, n, n, 2 * n) && ta <= ta' && tb <= tb' && |ta'| == |tb'|
    ensures HistState(m, ga, gb, ta', tb', va, vb, B, root, n, 2 * n, 2 * n)
  {
    HistPrefix(m, ga, gb, ta, tb, ta', tb', va, vb, B, root, n, 2 * n);
    NextKeys(ga, n);
    NextKeys(gb, n);
  }

  /** One level of training; leaves are not split. */
  method TrainLevel(m: Modulus, N: nat, a: XGBTreeBuilder, b: XGBTreeBuilder, wa: XGBTreeBuildWorker,
                    wb: XGBTreeBuildWorker, level: nat, buckets: nat -> nat, ghost root: Root)
    requires Paired(a, b, wa, wb) && IsPow2(N) && |root.g| == |root.h| == a.nsamples && 1 <= level <= a.maxDepth
    requires SameTree(a.splitIdentifiers, b.splitIdentifiers, wa.nfeatures, wb.nfeatures, Pow2(level - 1))
    requires LevelReady(m, a, b, wa.data, wb.data, root, Pow2(level - 1), Pow2(level))
    requires HistReady(m, a, b, wa.View(), wb.View(), wa.bucketSize, root, ParentsFrom(level, Pow2(level - 1)),
                       Pow2(level - 1), Pow2(level - 1))
    requires level < a.maxDepth ==> forall n :: Pow2(level - 1) <= n < Pow2(level) ==> HasThreshold(wa, wb, buckets(n))
    modifies a`sampleIndicators, a`cachedGh, a`cachedGHs, a`splitIdentifiers
    modifies b`sampleIndicators, b`cachedGh, b`cachedGHs, b`splitIdentifiers
    ensures Extends(old(a.splitIdentifiers), a.splitIdentifiers) && Extends(old(b.splitIdentifiers), b.splitIdentifiers)
    ensures level < a.maxDepth ==>
              FollowsChoices(wa.binnings, wb.binnings, wa.bucketSize, buckets, a.Tree(), b.Tree(), Pow2(level - 1),
                             Pow2(level))
    ensures level < a.maxDepth ==>
              && SameTree(a.splitIdentifiers, b.splitIdentifiers, wa.nfeatures, wb.nfeatures, Pow2(level))
              && LevelReady(m, a, b, wa.data, wb.data, root, Pow2(level), Pow2(level + 1))
              && HistReady(m, a, b, wa.View(), wb.View(), wa.bucketSize, root, ParentsFrom(level + 1, Pow2(level)),
                           Pow2(level), Pow2(level))
    ensures level == a.maxDepth ==>
              && SameTree(a.splitIdentifiers, b.splitIdentifiers, wa.nfeatures, wb.nfeatures, Pow2(level - 1))
              && LevelReady(m, a, b, wa.data, wb.data, root, Pow2(level - 1), Pow2(level))
              && HistReady(m, a, b, wa.View(), wb.View(), wa.bucketSize, root, Pow2(level - 1), Pow2(level - 1),
                           Pow2(level))
  {
    LevelHistograms(m, N, a, b, wa, wb, level, root);
    if level == a.maxDepth {
      return;
    }
    ghost var ta, tb := a.Tree(), b.Tree();
    EvenStart(level + 1);
    SplitLevel(m, a, b, wa, wb, level, buckets, root);
    NextLevelNodes(m, a, b, wa.data, wb.data, root, Pow2(level));
    NextLevelHistograms(m, a.cachedGHs, b.cachedGHs, ta, tb, a.Tree(), b.Tree(), wa.View(), wb.View(), wa.bucketSize,
                        root, Pow2(level - 1));
  }
}

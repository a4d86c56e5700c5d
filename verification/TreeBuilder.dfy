/** Two parties grow one tree level by level: `experimental/squirrel/tree_builder.cc`.
    Each party is an object; the joint methods step both in lockstep and exchange values only through
    the ideal products.  Which bucket splits a node is an arbitrary argument. */
module TreeBuilder {
  import opened Arith
  import opened Ring
  import opened Binning
  import opened BinMatVec
  import opened SecureMul
  import opened Worker
  import opened TreeSpec

  /** An indicator marks exactly the drawn samples that reach the node as far as the party can tell. */
  ghost predicate IndicatorOk(i: seq<Bit>, draw: seq<Bit>, tree: seq<SplitId>, data: seq<seq<real>>, idx: nat) {
    && 1 <= idx < 2 * |tree| && (i == [] || |i| == |data|) && (draw == [] || |draw| == |data|)
    && forall c :: 0 <= c < |data| ==> IndicatorAt(i, draw, tree, data, idx, c)
  }

  ghost predicate IndicatorAt(i: seq<Bit>, draw: seq<Bit>, tree: seq<SplitId>, data: seq<seq<real>>, idx: nat, c: nat)
    requires 1 <= idx < 2 * |tree| && c < |data| && (i == [] || |i| == |data|) && (draw == [] || |draw| == |data|)
  {
    BitAt(i, c) == 1 <==> BitAt(draw, c) == 1 && Path(tree, ToExt(data[c]), idx)
  }

  /** Bit `c` of an indicator; the empty indicator is all ones. */
  function BitAt(i: seq<Bit>, c: nat): Bit
    requires i == [] || c < |i|
  {
    if i == [] then 1 else i[c]
  }

  lemma IndicatorSelects(i: seq<Bit>, draw: seq<Bit>, tree: seq<SplitId>, data: seq<seq<real>>, idx: nat)
    requires IndicatorOk(i, draw, tree, data, idx)
    ensures Selected(i, |data|) == Reaching(tree, data, idx) * Selected(draw, |data|)
  {
    forall c | 0 <= c < |data|
      ensures c in Selected(i, |data|) <==> c in Reaching(tree, data, idx) && c in Selected(draw, |data|)
    {
      assert IndicatorAt(i, draw, tree, data, idx, c);
    }
  }

  /** One shared node: the indicators mark its drawn samples, the gradients are the root's on all its samples. */
  ghost predicate NodeOk(m: Modulus, ta: seq<SplitId>, tb: seq<SplitId>, da: seq<seq<real>>, db: seq<seq<real>>,
                         root: Root, ia: seq<Bit>, ib: seq<Bit>, a: GH, b: GH, idx: nat)
  {
    && |ta| == |tb| && |da| == |db|
    && IndicatorOk(ia, root.draw.a, ta, da, idx) && IndicatorOk(ib, root.draw.b, tb, db, idx)
    && MaskedShares(m, a.g, b.g, root.g, NodeSet(ta, tb, da, db, idx))
    && MaskedShares(m, a.h, b.h, root.h, NodeSet(ta, tb, da, db, idx))
  }

  /** One more split for the last tree. */
  function AddSplit(trees: seq<seq<SplitId>>, info: SplitId): seq<seq<SplitId>>
    requires trees != []
  {
    trees[|trees| - 1 := trees[|trees| - 1] + [info]]
  }

  /** The entry of `nidx` makes way for its two children; all others are unchanged. */
  ghost predicate Replaced<V(!new)>(was: map<nat, V>, now: map<nat, V>, nidx: nat) {
    2 * nidx in now && 2 * nidx + 1 in now && forall k: nat :: ReplacedAt(was, now, nidx, k)
  }

  ghost predicate ReplacedAt<V(!new)>(was: map<nat, V>, now: map<nat, V>, nidx: nat, k: nat) {
    && (k in now <==> (k in was && k != nidx) || k == 2 * nidx || k == 2 * nidx + 1)
    && (k in was && k in now && k != 2 * nidx && k != 2 * nidx + 1 ==> now[k] == was[k])
  }

  ghost predicate NoChildren<V>(was: map<nat, V>, nidx: nat) {
    nidx in was && 2 * nidx !in was && 2 * nidx + 1 !in was
  }

  /** `l` is `p & b` and `r` is the rest of `p`. */
  ghost predicate BitsSplit(p: seq<Bit>, b: seq<Bit>, l: seq<Bit>, r: seq<Bit>) {
    && |l| == |r| == |b| > 0 && (p == [] || |p| == |b|)
    && forall c :: 0 <= c < |b| ==> BitsSplitAt(p, b, l, r, c)
  }

  ghost predicate BitsSplitAt(p: seq<Bit>, b: seq<Bit>, l: seq<Bit>, r: seq<Bit>, c: nat)
    requires c < |b| && c < |l| && c < |r| && (p == [] || c < |p|)
  {
    (l[c] == 1 <==> BitAt(p, c) == 1 && b[c] == 1) && (r[c] == 1 <==> BitAt(p, c) == 1 && b[c] == 0)
  }

  /** The children's bits at the holder of the split feature. */
  method ChildIndicators(p: seq<Bit>, b: seq<Bit>) returns (lchild: seq<Bit>, rchild: seq<Bit>)
    requires |b| > 0 && (p == [] || |p| == |b|)
    ensures BitsSplit(p, b, lchild, rchild)
  {
    lchild, rchild := seq(|b|, _ => 0), seq(|b|, _ => 0);
    for i := 0 to |b|
      invariant |lchild| == |rchild| == |b|
      invariant forall c :: 0 <= c < i ==> BitsSplitAt(p, b, lchild, rchild, c)
    {
      var pi: Bit := if p == [] then 1 else p[i];
      ghost var l, r := lchild, rchild;
      lchild := lchild[i := pi * b[i]];
      rchild := rchild[i := pi - lchild[i]];
      assert forall c :: 0 <= c < i ==> BitsSplitAt(p, b, l, r, c) ==> BitsSplitAt(p, b, lchild, rchild, c);
    }
  }

  function Coin(subsample: real, coin: real): Bit {
    if coin < subsample then 1 else 0
  }

  /** One party's rows for a tree, from uniform coins in [0, 1); without sub-sampling the empty indicator. */
  function Draw(subsample: real, coins: seq<real>): (r: seq<Bit>)
    ensures r == [] || |r| == |coins|
  {
    if subsample < 1.0 then seq(|coins|, c requires 0 <= c < |coins| => Coin(subsample, coins[c])) else []
  }

  /** A row is drawn exactly when its coin is below the rate, or when there is no sub-sampling. */
  lemma DrawnIff(subsample: real, coins: seq<real>, c: nat)
    requires c < |coins|
    ensures BitAt(Draw(subsample, coins), c) == 1 <==> subsample >= 1.0 || coins[c] < subsample
  {
    assert subsample < 1.0 ==> Draw(subsample, coins)[c] == Coin(subsample, coins[c]);
  }

  class XGBTreeBuilder {
    const maxDepth: nat
    const nsamples: nat
    const subsample: real
    var splitIdentifiers: seq<seq<SplitId>>
    var leafWeights: seq<seq<int>>
    var cachedGh: map<nat, GH>
    var cachedGHs: map<nat, GH>
    var sampleIndicators: map<nat, seq<Bit>>

    constructor (maxDepth: nat, nsamples: nat, subsample: real)
      requires maxDepth > 1 && nsamples >= 1 && 0.0 < subsample <= 1.0
      ensures this.maxDepth == maxDepth && this.nsamples == nsamples && this.subsample == subsample
      ensures splitIdentifiers == [] && leafWeights == []
    {
      this.maxDepth, this.nsamples, this.subsample := maxDepth, nsamples, subsample;
      splitIdentifiers, leafWeights := [], [];
      cachedGh, cachedGHs, sampleIndicators := map[], map[], map[];
    }

    /** The tree under construction. */
    function Tree(): seq<SplitId>
      requires splitIdentifiers != []
      reads this
    {
      splitIdentifiers[|splitIdentifiers| - 1]
    }

    /** Starts a tree: only the root, with the rows that the coins draw. */
    method InitGradients(gradient: seq<int>, hessian: seq<int>, coins: seq<real>)
      requires |coins| == nsamples
      modifies this
      ensures cachedGh == map[1 := GH(gradient, hessian)] && cachedGHs == map[]
      ensures sampleIndicators == map[1 := Draw(subsample, coins)]
      ensures subsample >= 1.0 ==> sampleIndicators[1] == []
      ensures subsample < 1.0 ==> |sampleIndicators[1]| == nsamples
      ensures subsample < 1.0 ==>
                forall c :: 0 <= c < nsamples ==> (sampleIndicators[1][c] == 1 <==> coins[c] < subsample)
      ensures splitIdentifiers == old(splitIdentifiers) && leafWeights == old(leafWeights)
    {
      cachedGh := map[];
      cachedGh := cachedGh[1 := GH(gradient, hessian)];
      cachedGHs := map[];
      sampleIndicators := map[];
      var all: seq<Bit> := [];  // all ones
      if subsample < 1.0 {
        all := seq(nsamples, _ => 1);
        for i := 0 to nsamples
          invariant |all| == nsamples
          invariant forall c :: 0 <= c < i ==> all[c] == Coin(subsample, coins[c])
        {
          all := all[i := Coin(subsample, coins[i])];
        }
        assert all == Draw(subsample, coins);
      }
      sampleIndicators := sampleIndicators[1 := all];
    }

    /** The holder of the split feature: indicators of both children, and the bits of the left buckets. */
    method HolderIndicators(worker: XGBTreeBuildWorker, nidx: nat, target: nat) returns (b: seq<Bit>, info: SplitId)
      requires worker.Valid() && worker.cols == nsamples > 0
      requires target < Buckets(worker.nfeatures, worker.bucketSize) && worker.SplitInfo(target).Some?
      requires nidx >= 1 && NoChildren(sampleIndicators, nidx)
      requires sampleIndicators[nidx] == [] || |sampleIndicators[nidx]| == nsamples
      modifies this`sampleIndicators
      ensures |b| == nsamples && Marks(b, LeftOf(worker.View(), worker.bucketSize, target))
      ensures info == SplitId(true, worker.SplitInfo(target).value.0, worker.SplitInfo(target).value.1)
      ensures Replaced(old(sampleIndicators), sampleIndicators, nidx)
      ensures BitsSplit(old(sampleIndicators)[nidx], b, sampleIndicators[2 * nidx], sampleIndicators[2 * nidx + 1])
    {
      var p := sampleIndicators[nidx];
      sampleIndicators := sampleIndicators - {nidx};
      var split := worker.SplitInfo(target).value;
      info := SplitId(true, split.0, split.1);
      b := worker.PotentialLeftIndicator(target);
      var lchild, rchild := ChildIndicators(p, b);
      sampleIndicators := sampleIndicators[2 * nidx := lchild];
      sampleIndicators := sampleIndicators[2 * nidx + 1 := rchild];
    }

    /** The other party keeps its indicator for both children. */
    method FollowerIndicators(nidx: nat)
      requires nidx >= 1 && NoChildren(sampleIndicators, nidx)
      modifies this`sampleIndicators
      ensures Replaced(old(sampleIndicators), sampleIndicators, nidx)
      ensures sampleIndicators[2 * nidx] == sampleIndicators[2 * nidx + 1] == old(sampleIndicators)[nidx]
    {
      var p := sampleIndicators[nidx];
      sampleIndicators := sampleIndicators - {nidx};
      sampleIndicators := sampleIndicators[2 * nidx := p];
      sampleIndicators := sampleIndicators[2 * nidx + 1 := p];
    }

    /** Right gradient = parent - left; the children replace the parent; the split is recorded. */
    method StoreSplit(m: Modulus, nidx: nat, left: GH, info: SplitId)
      requires nidx >= 1 && NoChildren(cachedGh, nidx) && splitIdentifiers != []
      requires |left.g| == |cachedGh[nidx].g| && |left.h| == |cachedGh[nidx].h|
      modifies this`cachedGh, this`splitIdentifiers
      ensures Replaced(old(cachedGh), cachedGh, nidx)
      ensures cachedGh[2 * nidx] == left
      ensures Difference(m, cachedGh[2 * nidx + 1].g, old(cachedGh)[nidx].g, left.g)
      ensures Difference(m, cachedGh[2 * nidx + 1].h, old(cachedGh)[nidx].h, left.h)
      ensures splitIdentifiers == AddSplit(old(splitIdentifiers), info)
    {
      var parent := cachedGh[nidx];
      var gradR := Minus(m, parent.g, left.g);
      var hessR := Minus(m, parent.h, left.h);
      cachedGh := cachedGh - {nidx};
      cachedGh := cachedGh[2 * nidx := left];
      cachedGh := cachedGh[2 * nidx + 1 := GH(gradR, hessR)];
      splitIdentifiers := AddSplit(splitIdentifiers, info);
    }
  }

  // ---------------------------------------------------------- joint state

  /** The two builders and workers belong together: rank 0 is `a`, rank 1 is `b`. */
  ghost predicate Paired(a: XGBTreeBuilder, b: XGBTreeBuilder, wa: XGBTreeBuildWorker, wb: XGBTreeBuildWorker)
    reads wa, wb
  {
    && a != b && a.maxDepth == b.maxDepth > 1 && a.nsamples == b.nsamples > 0
    && wa.Valid() && wb.Valid()
    && wa.cols == wb.cols == a.nsamples && wa.bucketSize == wb.bucketSize
    && wa.nfeatures == wb.peerNfeatures && wb.nfeatures == wa.peerNfeatures
  }

  /** Both parties work on the same tree, with one holder for every split. */
  ghost predicate SameTree(sa: seq<seq<SplitId>>, sb: seq<seq<SplitId>>, nfa: nat, nfb: nat, size: nat) {
    && sa != [] && |sa| == |sb|
    && |sa[|sa| - 1]| == size >= 1 && Matched(sa[|sa| - 1], sb[|sb| - 1], nfa, nfb)
  }

  lemma SameTreeGrows(sa: seq<seq<SplitId>>, sb: seq<seq<SplitId>>, ia: SplitId, ib: SplitId, nfa: nat, nfb: nat,
                      size: nat)
    requires SameTree(sa, sb, nfa, nfb, size) && ia.self != ib.self
    requires (ia.self ==> ia.feature < nfa) && (ib.self ==> ib.feature < nfb)
    ensures SameTree(AddSplit(sa, ia), AddSplit(sb, ib), nfa, nfb, size + 1)
    ensures AddSplit(sa, ia)[|sa| - 1] == sa[|sa| - 1] + [ia] && AddSplit(sb, ib)[|sb| - 1] == sb[|sb| - 1] + [ib]
  {
    var ta, tb := sa[|sa| - 1], sb[|sb| - 1];
    forall p | 1 <= p < |ta| + 1 ensures OneHolder(ta + [ia], tb + [ib], nfa, nfb, p) {
      assert p < |ta| ==> OneHolder(ta, tb, nfa, nfb, p);
    }
  }

  /** All nodes in `[lo, hi)` are present in the four maps and in order. */
  ghost predicate RangeOk(m: Modulus, ta: seq<SplitId>, tb: seq<SplitId>, da: seq<seq<real>>, db: seq<seq<real>>,
                          root: Root, ia: map<nat, seq<Bit>>, ib: map<nat, seq<Bit>>, ga: map<nat, GH>,
                          gb: map<nat, GH>, lo: nat, hi: nat)
  {
    forall idx :: lo <= idx < hi ==> NodeAt(m, ta, tb, da, db, root, ia, ib, ga, gb, idx)
  }

  ghost predicate NodeAt(m: Modulus, ta: seq<SplitId>, tb: seq<SplitId>, da: seq<seq<real>>, db: seq<seq<real>>,
                         root: Root, ia: map<nat, seq<Bit>>, ib: map<nat, seq<Bit>>, ga: map<nat, GH>, gb: map<nat, GH>,
                         idx: nat)
  {
    && idx in ia && idx in ib && idx in ga && idx in gb
    && NodeOk(m, ta, tb, da, db, root, ia[idx], ib[idx], ga[idx], gb[idx], idx)
  }

  /** The keys are the nodes still to split, `[lo, hi)`, and the children made so far, `[clo, chi)`. */
  ghost predicate KeysAre<V(!new)>(m: map<nat, V>, lo: nat, hi: nat, clo: nat, chi: nat) {
    forall k: nat :: KeyAt(m, lo, hi, clo, chi, k)
  }

  ghost predicate KeyAt<V(!new)>(m: map<nat, V>, lo: nat, hi: nat, clo: nat, chi: nat, k: nat) {
    k in m <==> lo <= k < hi || clo <= k < chi
  }

  lemma IndicatorPrefix(i: seq<Bit>, draw: seq<Bit>, tree: seq<SplitId>, s: SplitId, data: seq<seq<real>>, idx: nat)
    requires IndicatorOk(i, draw, tree, data, idx)
    ensures IndicatorOk(i, draw, tree + [s], data, idx)
  {
    forall c | 0 <= c < |data| ensures IndicatorAt(i, draw, tree + [s], data, idx, c) {
      assert IndicatorAt(i, draw, tree, data, idx, c);
      PathPrefix(tree, [s], ToExt(data[c]), idx);
    }
  }

  /** What both parties store for the nodes: indicators and shares of the gradients. */
  datatype Caches = Caches(ia: map<nat, seq<Bit>>, ib: map<nat, seq<Bit>>, ga: map<nat, GH>, gb: map<nat, GH>)

  ghost predicate NodeReplaced(was: Caches, now: Caches, nidx: nat) {
    && Replaced(was.ia, now.ia, nidx) && Replaced(was.ib, now.ib, nidx)
    && Replaced(was.ga, now.ga, nidx) && Replaced(was.gb, now.gb, nidx)
  }

  /** Adding one split and replacing one node leaves the other nodes in order. */
  lemma RangeKept(m: Modulus, ta: seq<SplitId>, tb: seq<SplitId>, sa: SplitId, sb: SplitId, da: seq<seq<real>>,
                  db: seq<seq<real>>, root: Root, was: Caches, now: Caches, lo: nat, hi: nat, nidx: nat)
    requires RangeOk(m, ta, tb, da, db, root, was.ia, was.ib, was.ga, was.gb, lo, hi)
    requires !(lo <= nidx < hi) && hi <= 2 * nidx && NodeReplaced(was, now, nidx)
    ensures RangeOk(m, ta + [sa], tb + [sb], da, db, root, now.ia, now.ib, now.ga, now.gb, lo, hi)
  {
    forall idx | lo <= idx < hi
      ensures NodeAt(m, ta + [sa], tb + [sb], da, db, root, now.ia, now.ib, now.ga, now.gb, idx)
    {
      assert NodeAt(m, ta, tb, da, db, root, was.ia, was.ib, was.ga, was.gb, idx);
      assert ReplacedAt(was.ia, now.ia, nidx, idx) && ReplacedAt(was.ib, now.ib, nidx, idx);
      assert ReplacedAt(was.ga, now.ga, nidx, idx) && ReplacedAt(was.gb, now.gb, nidx, idx);
      ReachingPrefix(ta, sa, da, idx);
      ReachingPrefix(tb, sb, db, idx);
      IndicatorPrefix(was.ia[idx], root.draw.a, ta, sa, da, idx);
      IndicatorPrefix(was.ib[idx], root.draw.b, tb, sb, db, idx);
    }
  }

  // -------------------------------------------------------- splitting nodes

  /** The party that holds the feature of a joint bucket, and the bucket's number at that party. */
  function BelongsTo(bucket: nat, nbucketsRank0: nat): nat {
    if bucket > nbucketsRank0 - 1 then 1 else 0
  }

  function MapBucket(bucket: nat, nbucketsRank0: nat): nat {
    if bucket >= nbucketsRank0 then bucket - nbucketsRank0 else bucket
  }

  /** A bucket that can be chosen for a split: it exists and has a threshold. */
  ghost predicate HasThreshold(wa: XGBTreeBuildWorker, wb: XGBTreeBuildWorker, bucket: nat)
    requires wa.Valid() && wb.Valid()
    reads wa, wb
  {
    var n0 := Buckets(wa.nfeatures, wa.bucketSize);
    if bucket < n0 then wa.SplitInfo(bucket).Some?
    else bucket - n0 < Buckets(wb.nfeatures, wb.bucketSize) && wb.SplitInfo(bucket - n0).Some?
  }

  /** `s` splits by feature `r / B`, at the feature's threshold number `r % B`. */
  ghost predicate SplitsAt(thrs: seq<seq<Ext>>, B: nat, r: nat, s: SplitId) {
    && B > 0 && r / B < |thrs| && r % B < |thrs[r / B]|
    && s == SplitId(true, r / B, thrs[r / B][r % B])
  }

  /** The two parties' records of a split at a joint bucket: rank 0 holds the first buckets, rank 1 the others. */
  ghost predicate ChosenAt(ta: seq<seq<Ext>>, tb: seq<seq<Ext>>, B: nat, bucket: nat, sa: SplitId, sb: SplitId) {
    if bucket < |ta| * B then SplitsAt(ta, B, bucket, sa) && !sb.self
    else SplitsAt(tb, B, bucket - |ta| * B, sb) && !sa.self
  }

  /** The splits of the nodes `[lo, hi)` are those of their chosen buckets. */
  ghost predicate FollowsChoices(ta: seq<seq<Ext>>, tb: seq<seq<Ext>>, B: nat, buckets: nat -> nat, sa: seq<SplitId>,
                                 sb: seq<SplitId>, lo: nat, hi: nat)
  {
    hi <= |sa| && hi <= |sb| && forall p :: lo <= p < hi ==> ChosenAt(ta, tb, B, buckets(p), sa[p], sb[p])
  }

  lemma FollowsPrefix(ta: seq<seq<Ext>>, tb: seq<seq<Ext>>, B: nat, buckets: nat -> nat, sa: seq<SplitId>,
                      sb: seq<SplitId>, sa': seq<SplitId>, sb': seq<SplitId>, lo: nat, hi: nat)
    requires FollowsChoices(ta, tb, B, buckets, sa, sb, lo, hi) && sa <= sa' && sb <= sb'
    ensures FollowsChoices(ta, tb, B, buckets, sa', sb', lo, hi)
  {
  }

  /** The split that a party reads from its thresholds for one of its buckets. */
  lemma SplitRead(w: XGBTreeBuildWorker, target: nat, s: SplitId)
    requires w.Valid() && target < Buckets(w.nfeatures, w.bucketSize) && w.SplitInfo(target).Some?
    requires s == SplitId(true, w.SplitInfo(target).value.0, w.SplitInfo(target).value.1)
    ensures SplitsAt(w.binnings, w.bucketSize, target, s)
  {
    RowParts(target, w.bucketSize, w.nfeatures);
    RowArithmetic(target, w.bucketSize);
  }

  /** A bucket can be chosen exactly when there is a split for it. */
  lemma HasThresholdIff(wa: XGBTreeBuildWorker, wb: XGBTreeBuildWorker, bucket: nat)
    requires wa.Valid() && wb.Valid() && wa.bucketSize == wb.bucketSize
    ensures HasThreshold(wa, wb, bucket) <==>
            exists sa, sb :: ChosenAt(wa.binnings, wb.binnings, wa.bucketSize, bucket, sa, sb)
  {
    var B := wa.bucketSize;
    BucketsIsProduct(wa.nfeatures, B);
    BucketsIsProduct(wb.nfeatures, B);
    var n0 := wa.nfeatures * B;
    if bucket < n0 {
      ThresholdRead(wa.binnings, B, bucket);
      if HasThreshold(wa, wb, bucket) {
        var s := SplitId(true, bucket / B, wa.binnings[bucket / B][bucket % B]);
        assert ChosenAt(wa.binnings, wb.binnings, B, bucket, s, SplitId(false, 0, Fin(0.0)));
      }
    } else {
      var target := bucket - n0;
      if target < wb.nfeatures * B {
        ThresholdRead(wb.binnings, B, target);
      } else {
        QuotientAtLeast(target, B, wb.nfeatures);
      }
      if HasThreshold(wa, wb, bucket) {
        var s := SplitId(true, target / B, wb.binnings[target / B][target % B]);
        assert ChosenAt(wa.binnings, wb.binnings, B, bucket, SplitId(false, 0, Fin(0.0)), s);
      }
    }
  }

  lemma QuotientAtLeast(r: nat, B: nat, n: nat)
    requires B > 0 && r >= n * B
    ensures r / B >= n
  {
    DivBounds(r, B);
    if r / B < n { MulLe(r / B + 1, n, B); }
  }

  /** `x + y` restricted to the samples that the bits mark, as new shares; one call for each of g and h. */
  method UpdateGradient(m: Modulus, a: GH, b: GH, bits: seq<Bit>) returns (la: GH, lb: GH)
    requires |a.g| == |b.g| == |a.h| == |b.h| == |bits|
    ensures Restricted(m, a.g, b.g, bits, la.g, lb.g) && Restricted(m, a.h, b.h, bits, la.h, lb.h)
  {
    var ga, gb := MulArithShareWithPrivateBoolean(m, a.g, b.g, bits);
    var ha, hb := MulArithShareWithPrivateBoolean(m, a.h, b.h, bits);
    la, lb := GH(ga, ha), GH(gb, hb);
  }

  ghost predicate ChildIndicatorsOk(i: map<nat, seq<Bit>>, draw: seq<Bit>, tree: seq<SplitId>, data: seq<seq<real>>,
                                    p: nat)
  {
    && 1 <= p < |tree| && 2 * p in i && 2 * p + 1 in i
    && IndicatorOk(i[2 * p], draw, tree, data, 2 * p) && IndicatorOk(i[2 * p + 1], draw, tree, data, 2 * p + 1)
  }

  lemma HolderChildren(draw: seq<Bit>, tree: seq<SplitId>, s: SplitId, data: seq<seq<real>>, left: set<nat>,
                       p: seq<Bit>, b: seq<Bit>, i: map<nat, seq<Bit>>)
    requires |tree| >= 1 && IndicatorOk(p, draw, tree, data, |tree|) && s.self && SendsLeft(s, data, left)
    requires 2 * |tree| in i && 2 * |tree| + 1 in i && |b| == |data| && Marks(b, left)
    requires BitsSplit(p, b, i[2 * |tree|], i[2 * |tree| + 1])
    ensures ChildIndicatorsOk(i, draw, tree + [s], data, |tree|)
  {
    var n, t := |tree|, tree + [s];
    var lc, rc := 2 * n, 2 * n + 1;
    var l, r := i[lc], i[rc];
    forall c | 0 <= c < |data|
      ensures IndicatorAt(l, draw, t, data, lc, c) && IndicatorAt(r, draw, t, data, rc, c)
    {
      assert IndicatorAt(p, draw, tree, data, n, c) && BitsSplitAt(p, b, l, r, c);
      PathPrefix(tree, [s], ToExt(data[c]), n);
    }
  }

  lemma FollowerChildren(draw: seq<Bit>, tree: seq<SplitId>, s: SplitId, data: seq<seq<real>>, p: seq<Bit>,
                         i: map<nat, seq<Bit>>)
    requires |tree| >= 1 && IndicatorOk(p, draw, tree, data, |tree|) && !s.self
    requires 2 * |tree| in i && 2 * |tree| + 1 in i && i[2 * |tree|] == i[2 * |tree| + 1] == p
    ensures ChildIndicatorsOk(i, draw, tree + [s], data, |tree|)
  {
    var n, t := |tree|, tree + [s];
    var lc, rc := 2 * n, 2 * n + 1;
    forall c | 0 <= c < |data|
      ensures IndicatorAt(p, draw, t, data, lc, c) && IndicatorAt(p, draw, t, data, rc, c)
    {
      assert IndicatorAt(p, draw, tree, data, n, c);
      PathPrefix(tree, [s], ToExt(data[c]), n);
    }
  }

  /** The children's gradients: the marked part of the parent's, and the rest. */
  ghost predicate GradientsSplit(m: Modulus, a: GH, b: GH, bits: seq<Bit>, ga: map<nat, GH>, gb: map<nat, GH>, n: nat) {
    && 2 * n in ga && 2 * n in gb && 2 * n + 1 in ga && 2 * n + 1 in gb
    && Restricted(m, a.g, b.g, bits, ga[2 * n].g, gb[2 * n].g)
    && Restricted(m, a.h, b.h, bits, ga[2 * n].h, gb[2 * n].h)
    && Difference(m, ga[2 * n + 1].g, a.g, ga[2 * n].g) && Difference(m, gb[2 * n + 1].g, b.g, gb[2 * n].g)
    && Difference(m, ga[2 * n + 1].h, a.h, ga[2 * n].h) && Difference(m, gb[2 * n + 1].h, b.h, gb[2 * n].h)
  }

  /** The gradients of the two children at both parties; the split is recorded. */
  method SplitGradients(m: Modulus, a: XGBTreeBuilder, b: XGBTreeBuilder, nidx: nat, bits: seq<Bit>, infoA: SplitId,
                        infoB: SplitId)
    requires a != b && nidx >= 1 && a.splitIdentifiers != [] && b.splitIdentifiers != []
    requires NoChildren(a.cachedGh, nidx) && NoChildren(b.cachedGh, nidx)
    requires |a.cachedGh[nidx].g| == |b.cachedGh[nidx].g| == |a.cachedGh[nidx].h| == |b.cachedGh[nidx].h| == |bits|
    modifies a`cachedGh, a`splitIdentifiers, b`cachedGh, b`splitIdentifiers
    ensures a.splitIdentifiers == AddSplit(old(a.splitIdentifiers), infoA)
    ensures b.splitIdentifiers == AddSplit(old(b.splitIdentifiers), infoB)
    ensures Replaced(old(a.cachedGh), a.cachedGh, nidx) && Replaced(old(b.cachedGh), b.cachedGh, nidx)
    ensures GradientsSplit(m, old(a.cachedGh)[nidx], old(b.cachedGh)[nidx], bits, a.cachedGh, b.cachedGh, nidx)
  {
    var la, lb := UpdateGradient(m, a.cachedGh[nidx], b.cachedGh[nidx], bits);
    a.StoreSplit(m, nidx, la, infoA);
    b.StoreSplit(m, nidx, lb, infoB);
  }

  /** Both children of a split node are in order. */
  lemma ChildrenOk(m: Modulus, ta: seq<SplitId>, tb: seq<SplitId>, sa: SplitId, sb: SplitId, da: seq<seq<real>>,
                   db: seq<seq<real>>, root: Root, ia: map<nat, seq<Bit>>, ib: map<nat, seq<Bit>>, a: GH, b: GH,
                   bits: seq<Bit>, left: set<nat>, ga: map<nat, GH>, gb: map<nat, GH>, n: nat)
    requires 1 <= n == |ta| == |tb| && |da| == |db|
    requires MaskedShares(m, a.g, b.g, root.g, NodeSet(ta, tb, da, db, n))
    requires MaskedShares(m, a.h, b.h, root.h, NodeSet(ta, tb, da, db, n))
    requires ChildIndicatorsOk(ia, root.draw.a, ta + [sa], da, n)
    requires ChildIndicatorsOk(ib, root.draw.b, tb + [sb], db, n)
    requires GradientsSplit(m, a, b, bits, ga, gb, n)
    requires |bits| == |da| && Marks(bits, left)
    requires sb.self == !sa.self
    requires if sa.self then SendsLeft(sa, da, left) else SendsLeft(sb, db, left)
    ensures RangeOk(m, ta + [sa], tb + [sb], da, db, root, ia, ib, ga, gb, 2 * n, 2 * n + 2)
  {
    var ta', tb' := ta + [sa], tb + [sb];
    var s := NodeSet(ta, tb, da, db, n);
    if sa.self {
      ReachingHolder(ta, sa, da, left);
      ReachingFollower(tb, sb, db);
    } else {
      ReachingFollower(ta, sa, da);
      ReachingHolder(tb, sb, db, left);
    }
    assert NodeSet(ta', tb', da, db, 2 * n) == s * left;
    assert NodeSet(ta', tb', da, db, 2 * n + 1) == s - left;
    MaskLeft(m, a.g, b.g, root.g, s, bits, left, ga[2 * n].g, gb[2 * n].g);
    MaskLeft(m, a.h, b.h, root.h, s, bits, left, ga[2 * n].h, gb[2 * n].h);
    MaskRight(m, a.g, b.g, root.g, s, left, ga[2 * n].g, gb[2 * n].g, ga[2 * n + 1].g, gb[2 * n + 1].g);
    MaskRight(m, a.h, b.h, root.h, s, left, ga[2 * n].h, gb[2 * n].h, ga[2 * n + 1].h, gb[2 * n + 1].h);
    forall idx | 2 * n <= idx < 2 * n + 2 ensures NodeAt(m, ta', tb', da, db, root, ia, ib, ga, gb, idx) {
      assert idx == 2 * n || idx == 2 * n + 1;
    }
  }

  /** Both parties' indicators for the children of a node that `h` splits. */
  method SplitByHolder(h: XGBTreeBuilder, f: XGBTreeBuilder, w: XGBTreeBuildWorker, nidx: nat, target: nat,
                       ghost dataF: seq<seq<real>>, ghost drawH: seq<Bit>, ghost drawF: seq<Bit>)
    returns (bits: seq<Bit>, infoH: SplitId, infoF: SplitId, ghost left: set<nat>)
    requires h != f && w.Valid() && w.cols == h.nsamples == |dataF| > 0
    requires target < Buckets(w.nfeatures, w.bucketSize) && w.SplitInfo(target).Some?
    requires h.splitIdentifiers != [] && f.splitIdentifiers != [] && |h.Tree()| == |f.Tree()| == nidx >= 1
    requires NoChildren(h.sampleIndicators, nidx) && NoChildren(f.sampleIndicators, nidx)
    requires IndicatorOk(h.sampleIndicators[nidx], drawH, h.Tree(), w.data, nidx)
    requires IndicatorOk(f.sampleIndicators[nidx], drawF, f.Tree(), dataF, nidx)
    modifies h`sampleIndicators, f`sampleIndicators
    ensures Replaced(old(h.sampleIndicators), h.sampleIndicators, nidx)
    ensures Replaced(old(f.sampleIndicators), f.sampleIndicators, nidx)
    ensures |bits| == h.nsamples && Marks(bits, left)
    ensures infoH.self && infoH.feature < w.nfeatures && SendsLeft(infoH, w.data, left)
    ensures SplitsAt(w.binnings, w.bucketSize, target, infoH)
    ensures infoF == SplitId(false, 0, Fin(0.0))
    ensures ChildIndicatorsOk(h.sampleIndicators, drawH, h.Tree() + [infoH], w.data, nidx)
    ensures ChildIndicatorsOk(f.sampleIndicators, drawF, f.Tree() + [infoF], dataF, nidx)
  {
    ghost var ih, jf := h.sampleIndicators[nidx], f.sampleIndicators[nidx];
    left := LeftOf(w.View(), w.bucketSize, target);
    HolderSendsLeft(w, target);
    bits, infoH := h.HolderIndicators(w, nidx, target);
    SplitRead(w, target, infoH);
    f.FollowerIndicators(nidx);
    infoF := SplitId(false, 0, Fin(0.0));
    HolderChildren(drawH, h.Tree(), infoH, w.data, left, ih, bits, h.sampleIndicators);
    FollowerChildren(drawF, f.Tree(), infoF, dataF, jf, f.sampleIndicators);
  }

  /** The indicators of the two children at both parties, the left bits and the split records. */
  method SplitIndicators(a: XGBTreeBuilder, b: XGBTreeBuilder, wa: XGBTreeBuildWorker, wb: XGBTreeBuildWorker,
                         nidx: nat, bucket: nat, ghost drawA: seq<Bit>, ghost drawB: seq<Bit>)
    returns (bits: seq<Bit>, infoA: SplitId, infoB: SplitId, ghost left: set<nat>)
    requires Paired(a, b, wa, wb) && HasThreshold(wa, wb, bucket)
    requires SameTree(a.splitIdentifiers, b.splitIdentifiers, wa.nfeatures, wb.nfeatures, nidx)
    requires NoChildren(a.sampleIndicators, nidx) && NoChildren(b.sampleIndicators, nidx)
    requires IndicatorOk(a.sampleIndicators[nidx], drawA, a.Tree(), wa.data, nidx)
    requires IndicatorOk(b.sampleIndicators[nidx], drawB, b.Tree(), wb.data, nidx)
    modifies a`sampleIndicators, b`sampleIndicators
    ensures Replaced(old(a.sampleIndicators), a.sampleIndicators, nidx)
    ensures Replaced(old(b.sampleIndicators), b.sampleIndicators, nidx)
    ensures |bits| == a.nsamples && Marks(bits, left)
    ensures infoA.self == (bucket < Buckets(wa.nfeatures, wa.bucketSize)) && infoB.self == !infoA.self
    ensures ChosenAt(wa.binnings, wb.binnings, wa.bucketSize, bucket, infoA, infoB)
    ensures if infoA.self then SendsLeft(infoA, wa.data, left) else SendsLeft(infoB, wb.data, left)
    ensures (infoA.self ==> infoA.feature < wa.nfeatures) && (infoB.self ==> infoB.feature < wb.nfeatures)
    ensures ChildIndicatorsOk(a.sampleIndicators, drawA, a.Tree() + [infoA], wa.data, nidx)
    ensures ChildIndicatorsOk(b.sampleIndicators, drawB, b.Tree() + [infoB], wb.data, nidx)
  {
    var n0 := Buckets(wa.nfeatures, wa.bucketSize);
    var belongsTo := BelongsTo(bucket, n0);
    var target := MapBucket(bucket, n0);
    BucketsIsProduct(wa.nfeatures, wa.bucketSize);
    if belongsTo == 0 {
      bits, infoA, infoB, left := SplitByHolder(a, b, wa, nidx, target, wb.data, drawA, drawB);
    } else {
      bits, infoB, infoA, left := SplitByHolder(b, a, wb, nidx, target, wa.data, drawB, drawA);
    }
  }

  /** One node of `SplitLevel`, both parties in lockstep. */
  method SplitNode(m: Modulus, a: XGBTreeBuilder, b: XGBTreeBuilder, wa: XGBTreeBuildWorker, wb: XGBTreeBuildWorker,
                   nidx: nat, bucket: nat, ghost root: Root)
    returns (infoA: SplitId, infoB: SplitId)
    requires Paired(a, b, wa, wb) && HasThreshold(wa, wb, bucket)
    requires SameTree(a.splitIdentifiers, b.splitIdentifiers, wa.nfeatures, wb.nfeatures, nidx)
    requires |root.g| == |root.h| == a.nsamples
    requires NoChildren(a.sampleIndicators, nidx) && NoChildren(b.sampleIndicators, nidx)
    requires NoChildren(a.cachedGh, nidx) && NoChildren(b.cachedGh, nidx)
    requires NodeOk(m, a.Tree(), b.Tree(), wa.data, wb.data, root,
                    a.sampleIndicators[nidx], b.sampleIndicators[nidx], a.cachedGh[nidx], b.cachedGh[nidx], nidx)
    modifies a`sampleIndicators, a`cachedGh, a`splitIdentifiers, b`sampleIndicators, b`cachedGh, b`splitIdentifiers
    ensures a.splitIdentifiers == AddSplit(old(a.splitIdentifiers), infoA)
    ensures b.splitIdentifiers == AddSplit(old(b.splitIdentifiers), infoB)
    ensures infoA.self != infoB.self
    ensures ChosenAt(wa.binnings, wb.binnings, wa.bucketSize, bucket, infoA, infoB)
    ensures (infoA.self ==> infoA.feature < wa.nfeatures) && (infoB.self ==> infoB.feature < wb.nfeatures)
    ensures Replaced(old(a.sampleIndicators), a.sampleIndicators, nidx)
    ensures Replaced(old(b.sampleIndicators), b.sampleIndicators, nidx)
    ensures Replaced(old(a.cachedGh), a.cachedGh, nidx) && Replaced(old(b.cachedGh), b.cachedGh, nidx)
    ensures RangeOk(m, old(a.Tree()) + [infoA], old(b.Tree()) + [infoB], wa.data, wb.data, root,
                    a.sampleIndicators, b.sampleIndicators, a.cachedGh, b.cachedGh, 2 * nidx, 2 * nidx + 2)
  {
    ghost var ta, tb := a.Tree(), b.Tree();
    ghost var pa, pb := a.cachedGh[nidx], b.cachedGh[nidx];
    var bits;
    ghost var left;
    bits, infoA, infoB, left := SplitIndicators(a, b, wa, wb, nidx, bucket, root.draw.a, root.draw.b);
    ghost var ia, ib := a.sampleIndicators, b.sampleIndicators;
    SplitGradients(m, a, b, nidx, bits, infoA, infoB);
    ChildrenOk(m, ta, tb, infoA, infoB, wa.data, wb.data, root, ia, ib, pa, pb, bits, left, a.cachedGh, b.cachedGh,
               nidx);
  }

  lemma HolderSendsLeft(w: XGBTreeBuildWorker, target: nat)
    requires w.Valid() && target < Buckets(w.nfeatures, w.bucketSize) && w.SplitInfo(target).Some?
    ensures w.SplitInfo(target).value.0 < w.nfeatures
    ensures SendsLeft(SplitId(true, w.SplitInfo(target).value.0, w.SplitInfo(target).value.1), w.data,
                      LeftOf(w.View(), w.bucketSize, target))
  {
    RowParts(target, w.bucketSize, w.nfeatures);
    forall c | 0 <= c < |w.data| {
      SplitIsLeft(w.View(), w.bucketSize, target, c);
    }
  }

  // ------------------------------------------------------ splitting a level

  /** The children of the nodes split so far are in place, the nodes `[nidx, end)` wait for their turn. */
  ghost predicate LevelState(m: Modulus, ta: seq<SplitId>, tb: seq<SplitId>, da: seq<seq<real>>, db: seq<seq<real>>,
                             root: Root, ia: map<nat, seq<Bit>>, ib: map<nat, seq<Bit>>, ga: map<nat, GH>,
                             gb: map<nat, GH>, nidx: nat, end: nat)
  {
    && KeysAre(ia, nidx, end, end, 2 * nidx) && KeysAre(ib, nidx, end, end, 2 * nidx)
    && KeysAre(ga, nidx, end, end, 2 * nidx) && KeysAre(gb, nidx, end, end, 2 * nidx)
    && RangeOk(m, ta, tb, da, db, root, ia, ib, ga, gb, nidx, end)
    && RangeOk(m, ta, tb, da, db, root, ia, ib, ga, gb, end, 2 * nidx)
  }

  ghost predicate LevelReady(m: Modulus, a: XGBTreeBuilder, b: XGBTreeBuilder, da: seq<seq<real>>, db: seq<seq<real>>,
                             root: Root, nidx: nat, end: nat)
    requires a.splitIdentifiers != [] && b.splitIdentifiers != []
    reads a, b
  {
    LevelState(m, a.Tree(), b.Tree(), da, db, root, a.sampleIndicators, b.sampleIndicators, a.cachedGh, b.cachedGh,
               nidx, end)
  }

  lemma KeysStep<V(!new)>(was: map<nat, V>, now: map<nat, V>, nidx: nat, end: nat)
    requires nidx < end <= 2 * nidx && KeysAre(was, nidx, end, end, 2 * nidx)
    ensures NoChildren(was, nidx)
    ensures Replaced(was, now, nidx) ==> KeysAre(now, nidx + 1, end, end, 2 * (nidx + 1))
  {
    assert KeyAt(was, nidx, end, end, 2 * nidx, nidx);
    assert KeyAt(was, nidx, end, end, 2 * nidx, 2 * nidx) && KeyAt(was, nidx, end, end, 2 * nidx, 2 * nidx + 1);
    if Replaced(was, now, nidx) {
      var next, made := nidx + 1, 2 * (nidx + 1);
      forall k: nat ensures KeyAt(now, next, end, end, made, k) {
        assert ReplacedAt(was, now, nidx, k) && KeyAt(was, nidx, end, end, 2 * nidx, k);
      }
    }
  }

  lemma LevelStep(m: Modulus, ta: seq<SplitId>, tb: seq<SplitId>, sa: SplitId, sb: SplitId, da: seq<seq<real>>,
                  db: seq<seq<real>>, root: Root, was: Caches, now: Caches, nidx: nat, end: nat)
    requires LevelState(m, ta, tb, da, db, root, was.ia, was.ib, was.ga, was.gb, nidx, end)
    requires nidx < end <= 2 * nidx && NodeReplaced(was, now, nidx)
    requires RangeOk(m, ta + [sa], tb + [sb], da, db, root, now.ia, now.ib, now.ga, now.gb, 2 * nidx, 2 * nidx + 2)
    ensures LevelState(m, ta + [sa], tb + [sb], da, db, root, now.ia, now.ib, now.ga, now.gb, nidx + 1, end)
  {
    KeysStep(was.ia, now.ia, nidx, end);
    KeysStep(was.ib, now.ib, nidx, end);
    KeysStep(was.ga, now.ga, nidx, end);
    KeysStep(was.gb, now.gb, nidx, end);
    RangeKept(m, ta, tb, sa, sb, da, db, root, was, now, nidx + 1, end, nidx);
    RangeKept(m, ta, tb, sa, sb, da, db, root, was, now, end, 2 * nidx, nidx);
  }

  /** Earlier trees are unchanged and the last one only grew. */
  ghost predicate Extends(was: seq<seq<SplitId>>, now: seq<seq<SplitId>>) {
    && was != [] && |now| == |was|
    && (forall t :: 0 <= t < |was| - 1 ==> now[t] == was[t])
    && was[|was| - 1] <= now[|was| - 1]
  }

  /** One iteration of `SplitLevel`. */
  method SplitNext(m: Modulus, a: XGBTreeBuilder, b: XGBTreeBuilder, wa: XGBTreeBuildWorker, wb: XGBTreeBuildWorker,
                   nidx: nat, bucket: nat, ghost end: nat, ghost root: Root)
    requires Paired(a, b, wa, wb) && HasThreshold(wa, wb, bucket)
    requires SameTree(a.splitIdentifiers, b.splitIdentifiers, wa.nfeatures, wb.nfeatures, nidx)
    requires |root.g| == |root.h| == a.nsamples && nidx < end <= 2 * nidx
    requires LevelReady(m, a, b, wa.data, wb.data, root, nidx, end)
    modifies a`sampleIndicators, a`cachedGh, a`splitIdentifiers, b`sampleIndicators, b`cachedGh, b`splitIdentifiers
    ensures SameTree(a.splitIdentifiers, b.splitIdentifiers, wa.nfeatures, wb.nfeatures, nidx + 1)
    ensures Extends(old(a.splitIdentifiers), a.splitIdentifiers) && Extends(old(b.splitIdentifiers), b.splitIdentifiers)
    ensures LevelReady(m, a, b, wa.data, wb.data, root, nidx + 1, end)
    ensures ChosenAt(wa.binnings, wb.binnings, wa.bucketSize, bucket, a.Tree()[nidx], b.Tree()[nidx])
  {
    ghost var sa, sb := a.splitIdentifiers, b.splitIdentifiers;
    ghost var ia, ib, ga, gb := a.sampleIndicators, b.sampleIndicators, a.cachedGh, b.cachedGh;
    KeysStep(ia, ia, nidx, end);
    KeysStep(ib, ib, nidx, end);
    KeysStep(ga, ga, nidx, end);
    KeysStep(gb, gb, nidx, end);
    assert NodeAt(m, a.Tree(), b.Tree(), wa.data, wb.data, root, ia, ib, ga, gb, nidx);
    var infoA, infoB := SplitNode(m, a, b, wa, wb, nidx, bucket, root);
    SameTreeGrows(sa, sb, infoA, infoB, wa.nfeatures, wb.nfeatures, nidx);
    LevelStep(m, sa[|sa| - 1], sb[|sb| - 1], infoA, infoB, wa.data, wb.data, root, Caches(ia, ib, ga, gb),
              Caches(a.sampleIndicators, b.sampleIndicators, a.cachedGh, b.cachedGh), nidx, end);
  }

  lemma ExtendsTransitive(s: seq<seq<SplitId>>, t: seq<seq<SplitId>>, u: seq<seq<SplitId>>)
    requires Extends(s, t) && Extends(t, u)
    ensures Extends(s, u)
  {
  }

  /** One more node split at its chosen bucket. */
  lemma NextChosen(ta: seq<seq<Ext>>, tb: seq<seq<Ext>>, B: nat, buckets: nat -> nat, sa: seq<seq<SplitId>>,
                   sb: seq<seq<SplitId>>, sa': seq<seq<SplitId>>, sb': seq<seq<SplitId>>, lo: nat, n: nat)
    requires Extends(sa, sa') && Extends(sb, sb') && |sa| == |sb|
    requires LastFollow(ta, tb, B, buckets, sa, sb, lo, n)
    requires n < |sa'[|sa| - 1]| && n < |sb'[|sb| - 1]|
    requires ChosenAt(ta, tb, B, buckets(n), sa'[|sa| - 1][n], sb'[|sb| - 1][n])
    ensures LastFollow(ta, tb, B, buckets, sa', sb', lo, n + 1)
  {
    FollowsPrefix(ta, tb, B, buckets, sa[|sa| - 1], sb[|sb| - 1], sa'[|sa| - 1], sb'[|sb| - 1], lo, n);
  }

  /** The last tree's splits of the nodes `[lo, hi)` are those of their chosen buckets. */
  ghost predicate LastFollow(ta: seq<seq<Ext>>, tb: seq<seq<Ext>>, B: nat, buckets: nat -> nat, sa: seq<seq<SplitId>>,
                             sb: seq<seq<SplitId>>, lo: nat, hi: nat)
  {
    && sa != [] && sb != []
    && FollowsChoices(ta, tb, B, buckets, sa[|sa| - 1], sb[|sb| - 1], lo, hi)
  }

  /** `SplitLevel`: every node of the level, left to right. */
  method SplitLevel(m: Modulus, a: XGBTreeBuilder, b: XGBTreeBuilder, wa: XGBTreeBuildWorker, wb: XGBTreeBuildWorker,
                    level: nat, buckets: nat -> nat, ghost root: Root)
    requires Paired(a, b, wa, wb) && level > 0
    requires SameTree(a.splitIdentifiers, b.splitIdentifiers, wa.nfeatures, wb.nfeatures, Pow2(level - 1))
    requires |root.g| == |root.h| == a.nsamples
    requires LevelReady(m, a, b, wa.data, wb.data, root, Pow2(level - 1), Pow2(level))
    requires forall n :: Pow2(level - 1) <= n < Pow2(level) ==> HasThreshold(wa, wb, buckets(n))
    modifies a`sampleIndicators, a`cachedGh, a`splitIdentifiers, b`sampleIndicators, b`cachedGh, b`splitIdentifiers
    ensures SameTree(a.splitIdentifiers, b.splitIdentifiers, wa.nfeatures, wb.nfeatures, Pow2(level))
    ensures Extends(old(a.splitIdentifiers), a.splitIdentifiers) && Extends(old(b.splitIdentifiers), b.splitIdentifiers)
    ensures LevelReady(m, a, b, wa.data, wb.data, root, Pow2(level), Pow2(level))
    ensures LastFollow(wa.binnings, wb.binnings, wa.bucketSize, buckets, a.splitIdentifiers, b.splitIdentifiers,
                       Pow2(level - 1), Pow2(level))
  {
    var bgn, end := Pow2(level - 1), Pow2(level);
    for nidx := bgn to end
      invariant SameTree(a.splitIdentifiers, b.splitIdentifiers, wa.nfeatures, wb.nfeatures, nidx)
      invariant Extends(old(a.splitIdentifiers), a.splitIdentifiers)
      invariant Extends(old(b.splitIdentifiers), b.splitIdentifiers)
      invariant LevelReady(m, a, b, wa.data, wb.data, root, nidx, end)
      invariant LastFollow(wa.binnings, wb.binnings, wa.bucketSize, buckets, a.splitIdentifiers, b.splitIdentifiers,
                           bgn, nidx)
    {
      ghost var sa, sb := a.splitIdentifiers, b.splitIdentifiers;
      SplitNext(m, a, b, wa, wb, nidx, buckets(nidx), end, root);
      NextChosen(wa.binnings, wb.binnings, wa.bucketSize, buckets, sa, sb, a.splitIdentifiers, b.splitIdentifiers,
                 bgn, nidx);
      ExtendsTransitive(old(a.splitIdentifiers), sa, a.splitIdentifiers);
      ExtendsTransitive(old(b.splitIdentifiers), sb, b.splitIdentifiers);
    }
  }
}

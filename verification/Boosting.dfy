/** Whole trees, predictions and inference: `experimental/squirrel/tree_builder.cc`. */
module Boosting {
  import opened Arith
  import opened Ring
  import opened Binning
  import opened BinMatVec
  import opened SecureMul
  import opened Worker
  import opened TreeSpec
  import opened TreeBuilder
  import opened TreeTraining

  // ------------------------------------------------------------ forest spec

  /** One tree: each party's half of the splits and its share of the leaf weights. */
  datatype TreePair = TreePair(ta: seq<SplitId>, tb: seq<SplitId>, wa: seq<int>, wb: seq<int>)

  /** The trees built so far, party by party. */
  datatype Forest = Forest(sa: seq<seq<SplitId>>, sb: seq<seq<SplitId>>, wa: seq<seq<int>>, wb: seq<seq<int>>)

  /** A vector shared between the parties. */
  datatype Shares = Shares(a: seq<int>, b: seq<int>)

  /** All nodes are split, the halves match, and every leaf has a weight. */
  ghost predicate TreeOk(t: TreePair, nfa: nat, nfb: nat, depth: nat) {
    && depth >= 1 && |t.ta| == Pow2(depth - 1) && Matched(t.ta, t.tb, nfa, nfb)
    && |t.wa| == |t.wb| == Pow2(depth - 1)
  }

  /** The weight of the leaf that an ordinary decision tree reaches. */
  ghost function TreeValue(t: TreePair, xa: seq<Ext>, xb: seq<Ext>, depth: nat): int
    requires TreeOk(t, |xa|, |xb|, depth)
  {
    var leaf := Walk(t.ta, t.tb, xa, xb, depth - 1) - Pow2(depth - 1);
    t.wa[leaf] + t.wb[leaf]
  }

  ghost function TreeAt(f: Forest, k: nat): TreePair
    requires k < |f.sa| && k < |f.sb| && k < |f.wa| && k < |f.wb|
  {
    TreePair(f.sa[k], f.sb[k], f.wa[k], f.wb[k])
  }

  /** Both parties' trees and weights are complete and match. */
  ghost predicate ForestOk(f: Forest, nfa: nat, nfb: nat, depth: nat) {
    && |f.sa| == |f.sb| == |f.wa| == |f.wb|
    && forall k :: 0 <= k < |f.sa| ==> TreeOk(TreeAt(f, k), nfa, nfb, depth)
  }

  /** Sum of the first `k` trees' values. */
  ghost function ForestValue(f: Forest, xa: seq<Ext>, xb: seq<Ext>, depth: nat, k: nat): int
    requires ForestOk(f, |xa|, |xb|, depth) && k <= |f.sa|
  {
    if k == 0 then 0 else ForestValue(f, xa, xb, depth, k - 1) + TreeValue(TreeAt(f, k - 1), xa, xb, depth)
  }

  /** 1 when both parties' paths lead to the leaf. */
  ghost function Meets(ta: seq<SplitId>, tb: seq<SplitId>, xa: seq<Ext>, xb: seq<Ext>, idx: nat): Bit
    requires 1 <= idx < 2 * |ta| && |ta| == |tb|
  {
    if Path(ta, xa, idx) && Path(tb, xb, idx) then 1 else 0
  }

  ghost predicate Sized(t: TreePair, k: nat) {
    |t.ta| == |t.tb| == |t.wa| == |t.wb| >= k
  }

  /** Leaf `l`'s weight times the AND of the two path bits. */
  ghost function LeafTerm(t: TreePair, xa: seq<Ext>, xb: seq<Ext>, l: nat): int
    requires Sized(t, l + 1)
  {
    (t.wa[l] + t.wb[l]) * Meets(t.ta, t.tb, xa, xb, |t.ta| + l)
  }

  /** Sum over the first `k` leaves. */
  ghost function LeafSum(t: TreePair, xa: seq<Ext>, xb: seq<Ext>, k: nat): int
    requires Sized(t, k)
  {
    if k == 0 then 0 else LeafSum(t, xa, xb, k - 1) + LeafTerm(t, xa, xb, k - 1)
  }

  /** The number of the leaf that an ordinary decision tree reaches. */
  ghost function LeafOf(t: TreePair, xa: seq<Ext>, xb: seq<Ext>, depth: nat): (l: nat)
    requires TreeOk(t, |xa|, |xb|, depth)
    ensures l < |t.ta| && Walk(t.ta, t.tb, xa, xb, depth - 1) == |t.ta| + l
  {
    Walk(t.ta, t.tb, xa, xb, depth - 1) - |t.ta|
  }

  lemma TermOfLeaf(t: TreePair, xa: seq<Ext>, xb: seq<Ext>, depth: nat, l: nat)
    requires TreeOk(t, |xa|, |xb|, depth) && l < |t.ta|
    ensures LeafTerm(t, xa, xb, l) == if l == LeafOf(t, xa, xb, depth) then TreeValue(t, xa, xb, depth) else 0
  {
    PathsMeetOnce(t.ta, t.tb, xa, xb, depth - 1, |t.ta| + l);
    TimesBit(t.wa[l] + t.wb[l], Meets(t.ta, t.tb, xa, xb, |t.ta| + l));
    assert Meets(t.ta, t.tb, xa, xb, |t.ta| + l) == 1 <==> l == LeafOf(t, xa, xb, depth);
  }

  lemma TimesBit(w: int, b: Bit)
    ensures w * b == if b == 1 then w else 0
  {
  }

  /** Exactly one leaf contributes: the one an ordinary decision tree reaches. */
  lemma {:induction false} LeafSumIsTreeValue(t: TreePair, xa: seq<Ext>, xb: seq<Ext>, depth: nat, k: nat)
    requires TreeOk(t, |xa|, |xb|, depth) && k <= |t.ta|
    ensures LeafSum(t, xa, xb, k) == if LeafOf(t, xa, xb, depth) < k then TreeValue(t, xa, xb, depth) else 0
  {
    if k > 0 {
      LeafSumIsTreeValue(t, xa, xb, depth, k - 1);
      TermOfLeaf(t, xa, xb, depth, k - 1);
    }
  }

  // --------------------------------------------------- a level as a whole

  /** Every training sample belongs to exactly one node of a level: the one an ordinary tree puts it in. */
  lemma LevelPartitions(ta: seq<SplitId>, tb: seq<SplitId>, va: Side, vb: Side, depth: nat, c: nat, idx: nat)
    requires Matched(ta, tb, |va.thrs|, |vb.thrs|) && |ta| >= Pow2(depth) && Pow2(depth) <= idx < 2 * Pow2(depth)
    requires c < |va.data| == |vb.data| && |va.data[c]| == |va.thrs| && |vb.data[c]| == |vb.thrs|
    ensures c in NodeSet(ta, tb, va.data, vb.data, idx) <==>
            idx == Walk(ta, tb, ToExt(va.data[c]), ToExt(vb.data[c]), depth)
  {
    PathsMeetOnce(ta, tb, ToExt(va.data[c]), ToExt(vb.data[c]), depth, idx);
  }

  /** Bit `c` of a stored indicator; the empty one is all ones. */
  ghost predicate Marked(ind: seq<Bit>, c: nat) {
    ind == [] || (c < |ind| && ind[c] == 1)
  }

  /** Both parties draw sample `c`. */
  ghost predicate Sampled(d: Draws, c: nat) {
    Marked(d.a, c) && Marked(d.b, c)
  }

  /** At every level of a trained state, both stored indicators mark a sample at one node, where inference takes its
      row, if both parties drew it, and at none otherwise. */
  lemma LevelPartitionsSamples(m: Modulus, a: XGBTreeBuilder, b: XGBTreeBuilder, va: Side, vb: Side, root: Root,
                               depth: nat, c: nat, idx: nat)
    requires SameTree(a.splitIdentifiers, b.splitIdentifiers, |va.thrs|, |vb.thrs|, Pow2(depth))
    requires LevelReady(m, a, b, va.data, vb.data, root, Pow2(depth), Pow2(depth + 1))
    requires Pow2(depth) <= idx < Pow2(depth + 1)
    requires c < |va.data| == |vb.data| && |va.data[c]| == |va.thrs| && |vb.data[c]| == |vb.thrs|
    ensures idx in a.sampleIndicators && idx in b.sampleIndicators
    ensures Marked(a.sampleIndicators[idx], c) && Marked(b.sampleIndicators[idx], c) <==>
            Sampled(root.draw, c) && idx == Walk(a.Tree(), b.Tree(), ToExt(va.data[c]), ToExt(vb.data[c]), depth)
  {
    assert NodeAt(m, a.Tree(), b.Tree(), va.data, vb.data, root, a.sampleIndicators, b.sampleIndicators, a.cachedGh,
                  b.cachedGh, idx);
    assert IndicatorAt(a.sampleIndicators[idx], root.draw.a, a.Tree(), va.data, idx, c);
    assert IndicatorAt(b.sampleIndicators[idx], root.draw.b, b.Tree(), vb.data, idx, c);
    LevelPartitions(a.Tree(), b.Tree(), va, vb, depth, c, idx);
  }

  /** Sum of both parties' gradient shares of sample `c` over the nodes `[lo, hi)`. */
  ghost function LevelGradient(ga: map<nat, GH>, gb: map<nat, GH>, lo: nat, hi: nat, c: nat): int
    requires forall idx :: lo <= idx < hi ==> idx in ga && idx in gb && c < |ga[idx].g| && c < |gb[idx].g|
  {
    if hi <= lo then 0 else LevelGradient(ga, gb, lo, hi - 1, c) + (ga[hi - 1].g[c] + gb[hi - 1].g[c])
  }

  /** The gradients of a level add up to the root's, sample by sample. */
  lemma {:induction false} LevelGradientsSumToRoot(m: Modulus, ta: seq<SplitId>, tb: seq<SplitId>, va: Side, vb: Side,
                                                   root: Root, ia: map<nat, seq<Bit>>, ib: map<nat, seq<Bit>>,
                                                   ga: map<nat, GH>, gb: map<nat, GH>, depth: nat, hi: nat, c: nat)
    requires Matched(ta, tb, |va.thrs|, |vb.thrs|) && |ta| >= Pow2(depth) && Pow2(depth) <= hi <= 2 * Pow2(depth)
    requires c < |va.data| == |vb.data| == |root.g| && |va.data[c]| == |va.thrs| && |vb.data[c]| == |vb.thrs|
    requires RangeOk(m, ta, tb, va.data, vb.data, root, ia, ib, ga, gb, Pow2(depth), hi)
    requires forall idx :: Pow2(depth) <= idx < hi ==> idx in ga && idx in gb && c < |ga[idx].g| && c < |gb[idx].g|
    ensures Cong(m, LevelGradient(ga, gb, Pow2(depth), hi, c),
                 if Walk(ta, tb, ToExt(va.data[c]), ToExt(vb.data[c]), depth) < hi then root.g[c] else 0)
  {
    if hi > Pow2(depth) {
      var idx := hi - 1;
      LevelGradientsSumToRoot(m, ta, tb, va, vb, root, ia, ib, ga, gb, depth, idx, c);
      LevelPartitions(ta, tb, va, vb, depth, c, idx);
      assert NodeAt(m, ta, tb, va.data, vb.data, root, ia, ib, ga, gb, idx);
      var s, w := NodeSet(ta, tb, va.data, vb.data, idx), Walk(ta, tb, ToExt(va.data[c]), ToExt(vb.data[c]), depth);
      assert MaskedAt(m, ga[idx].g, gb[idx].g, root.g, s, c);
      CongAdd(m, LevelGradient(ga, gb, Pow2(depth), idx, c), if w < idx then root.g[c] else 0,
              ga[idx].g[c] + gb[idx].g[c], if c in s then root.g[c] else 0);
    }
  }

  // ------------------------------------------------------------- leaf sums

  /** The samples of leaf `l` that count for its weight: those drawn by the holder of the first joint feature. */
  ghost function LeafCounts(root: Root, ta: seq<SplitId>, tb: seq<SplitId>, va: Side, vb: Side, l: nat): set<nat>
    requires |ta| == |tb| && l < |ta| && DrawsFit(root)
  {
    var s := NodeCounts(ta, tb, va, vb, root, |ta| + l);
    if |va.thrs| > 0 then s.a else s.b
  }

  /** Entry `l` of the two parties' sums is the total of `v` over the counted samples of leaf `l`. */
  ghost predicate LeafTotal(m: Modulus, a: seq<int>, b: seq<int>, v: seq<int>, root: Root, ta: seq<SplitId>,
                            tb: seq<SplitId>, va: Side, vb: Side, l: nat)
  {
    && |ta| == |tb| && l < |ta| && DrawsFit(root) && l < |a| && l < |b|
    && Cong(m, a[l] + b[l], MaskSum(v, LeafCounts(root, ta, tb, va, vb, l), |v|))
  }

  /** Reads every leaf's gradient and hessian totals from the last bucket of the first feature. */
  method LeafSums(m: Modulus, a: XGBTreeBuilder, b: XGBTreeBuilder, B: nat, leafStart: nat, ghost va: Side,
                  ghost vb: Side, ghost root: Root)
    returns (ga: seq<int>, ha: seq<int>, gb: seq<int>, hb: seq<int>)
    requires a.splitIdentifiers != [] && b.splitIdentifiers != [] && |a.Tree()| == |b.Tree()| == leafStart >= 1
    requires |va.data| == |vb.data| == |root.g| == |root.h| && |va.thrs| + |vb.thrs| >= 1
    requires HistReady(m, a, b, va, vb, B, root, leafStart, leafStart, 2 * leafStart)
    ensures |ga| == |ha| == |gb| == |hb| == leafStart
    ensures forall l: nat :: l < leafStart ==> LeafTotal(m, ga, gb, root.g, root, a.Tree(), b.Tree(), va, vb, l)
    ensures forall l: nat :: l < leafStart ==> LeafTotal(m, ha, hb, root.h, root, a.Tree(), b.Tree(), va, vb, l)
  {
    ghost var ta, tb := a.Tree(), b.Tree();
    ga, ha, gb, hb := [], [], [], [];
    for l := 0 to leafStart
      invariant |ga| == |ha| == |gb| == |hb| == l
      invariant forall k: nat :: k < l ==> LeafTotal(m, ga, gb, root.g, root, ta, tb, va, vb, k)
      invariant forall k: nat :: k < l ==> LeafTotal(m, ha, hb, root.h, root, ta, tb, va, vb, k)
    {
      var idx := leafStart + l;
      assert HistAt(m, a.cachedGHs, b.cachedGHs, ta, tb, va, vb, B, root, idx);
      ghost var s := NodeCounts(ta, tb, va, vb, root, idx);
      LastBucketIsTotal(m, a.cachedGHs[idx].g, b.cachedGHs[idx].g, va, vb, B, root.g, s, 0);
      LastBucketIsTotal(m, a.cachedGHs[idx].h, b.cachedGHs[idx].h, va, vb, B, root.h, s, 0);
      ghost var ga0, gb0, ha0, hb0 := ga, gb, ha, hb;
      ga, gb := ga + [a.cachedGHs[idx].g[B - 1]], gb + [b.cachedGHs[idx].g[B - 1]];
      ha, hb := ha + [a.cachedGHs[idx].h[B - 1]], hb + [b.cachedGHs[idx].h[B - 1]];
      forall k: nat | k < l + 1
        ensures LeafTotal(m, ga, gb, root.g, root, ta, tb, va, vb, k)
        ensures LeafTotal(m, ha, hb, root.h, root, ta, tb, va, vb, k)
      {
        assert k < l ==> LeafTotal(m, ga0, gb0, root.g, root, ta, tb, va, vb, k);
        assert k < l ==> LeafTotal(m, ha0, hb0, root.h, root, ta, tb, va, vb, k);
      }
    }
  }

  /** Ring elements that the model leaves open: results of unmodelled fixed-point kernels. */
  method AnyShares(n: nat) returns (s: seq<int>)
    ensures |s| == n
  {
    s := [];
    while |s| < n
      invariant |s| <= n
    {
      var v: int := *;
      s := s + [v];
    }
  }

  // ------------------------------------------------------------- one tree

  /** The state that `InitGradients` leaves: only the root, with the drawn samples. */
  ghost predicate Initialised(b: XGBTreeBuilder, g: GH, draw: seq<Bit>)
    reads b
  {
    && b.cachedGh == map[1 := g] && b.cachedGHs == map[] && b.sampleIndicators == map[1 := draw]
    && |g.g| == |g.h| == b.nsamples && (draw == [] || |draw| == b.nsamples)
  }

  /** The shared gradient, added up. */
  ghost function Joined(x: seq<int>, y: seq<int>): (r: seq<int>)
    requires |x| == |y|
    ensures |r| == |x| && forall c :: 0 <= c < |x| ==> r[c] == x[c] + y[c]
  {
    seq(|x|, c requires 0 <= c < |x| => x[c] + y[c])
  }

  /** Both parties are about to grow a tree from the joint root. */
  ghost predicate StartsFrom(a: XGBTreeBuilder, b: XGBTreeBuilder, x: GH, y: GH, root: Root)
    reads a, b
  {
    && Initialised(a, x, root.draw.a) && Initialised(b, y, root.draw.b) && a.nsamples == b.nsamples
    && root.g == Joined(x.g, y.g) && root.h == Joined(x.h, y.h)
  }

  lemma RootIsReady(m: Modulus, a: XGBTreeBuilder, b: XGBTreeBuilder, va: Side, vb: Side, B: nat, x: GH, y: GH,
                    root: Root)
    requires StartsFrom(a, b, x, y, root) && a.nsamples == |va.data| == |vb.data|
    requires a.splitIdentifiers != [] && b.splitIdentifiers != [] && |a.Tree()| == |b.Tree()| == 1
    ensures LevelReady(m, a, b, va.data, vb.data, root, 1, 2) && HistReady(m, a, b, va, vb, B, root, 1, 1, 1)
  {
    var s := NodeSet(a.Tree(), b.Tree(), va.data, vb.data, 1);
    forall c | 0 <= c < a.nsamples
      ensures MaskedAt(m, x.g, y.g, root.g, s, c) && MaskedAt(m, x.h, y.h, root.h, s, c)
      ensures IndicatorAt(root.draw.a, root.draw.a, a.Tree(), va.data, 1, c)
      ensures IndicatorAt(root.draw.b, root.draw.b, b.Tree(), vb.data, 1, c)
    {
      CongMultiple(m, x.g[c] + y.g[c], root.g[c], 0);
      CongMultiple(m, x.h[c] + y.h[c], root.h[c], 0);
    }
    forall idx | 1 <= idx < 2
      ensures NodeAt(m, a.Tree(), b.Tree(), va.data, vb.data, root, a.sampleIndicators, b.sampleIndicators, a.cachedGh,
                     b.cachedGh, idx) {}
    forall k: nat ensures KeyAt(a.sampleIndicators, 1, 2, 2, 2, k) && KeyAt(b.sampleIndicators, 1, 2, 2, 2, k) {}
    forall k: nat ensures KeyAt(a.cachedGh, 1, 2, 2, 2, k) && KeyAt(b.cachedGh, 1, 2, 2, 2, k) {}
    forall k: nat ensures KeyAt(a.cachedGHs, 1, 1, 1, 1, k) && KeyAt(b.cachedGHs, 1, 1, 1, 1, k) {}
  }

  /** The tree built last, with the leaf weights of tree `k`. */
  ghost function LastTree(a: XGBTreeBuilder, b: XGBTreeBuilder, k: nat): TreePair
    requires a.splitIdentifiers != [] && b.splitIdentifiers != [] && k < |a.leafWeights| && k < |b.leafWeights|
    reads a, b
  {
    TreePair(a.Tree(), b.Tree(), a.leafWeights[k], b.leafWeights[k])
  }

  /** The state after a tree is complete: indicators of the leaves, both halves of the tree, its weights. */
  ghost predicate TreeBuilt(m: Modulus, a: XGBTreeBuilder, b: XGBTreeBuilder, va: Side, vb: Side, root: Root,
                            depth: nat)
    reads a, b
  {
    && depth >= 1 && |a.splitIdentifiers| == |b.splitIdentifiers| == |a.leafWeights| == |b.leafWeights| > 0
    && TreeOk(LastTree(a, b, |a.leafWeights| - 1), |va.thrs|, |vb.thrs|, depth)
    && LevelReady(m, a, b, va.data, vb.data, root, Pow2(depth - 1), Pow2(depth))
  }

  /** Buckets chosen for the inner nodes of a tree. */
  ghost predicate ValidChoices(wa: XGBTreeBuildWorker, wb: XGBTreeBuildWorker, buckets: nat -> nat, depth: nat)
    requires wa.Valid() && wb.Valid() && depth >= 1
    reads wa, wb
  {
    forall n :: 1 <= n < Pow2(depth - 1) ==> HasThreshold(wa, wb, buckets(n))
  }

  /** Grows one tree from the gradients that `InitGradients` stored.  The leaf sums handed to the weight kernel
      are the leaves' true totals; the weights themselves are arbitrary. */
  method BuildTree(m: Modulus, N: nat, a: XGBTreeBuilder, b: XGBTreeBuilder, wa: XGBTreeBuildWorker,
                   wb: XGBTreeBuildWorker, buckets: nat -> nat, ghost x: GH, ghost y: GH, ghost root: Root)
    returns (ga: seq<int>, ha: seq<int>, gb: seq<int>, hb: seq<int>)
    requires Paired(a, b, wa, wb) && IsPow2(N) && ValidChoices(wa, wb, buckets, a.maxDepth)
    requires StartsFrom(a, b, x, y, root)
    requires |a.splitIdentifiers| == |b.splitIdentifiers| == |a.leafWeights| == |b.leafWeights|
    modifies a, b
    ensures |a.splitIdentifiers| == |b.splitIdentifiers| == |old(a.splitIdentifiers)| + 1
    ensures old(a.splitIdentifiers) <= a.splitIdentifiers && old(b.splitIdentifiers) <= b.splitIdentifiers
    ensures old(a.leafWeights) <= a.leafWeights && old(b.leafWeights) <= b.leafWeights
    ensures TreeBuilt(m, a, b, wa.View(), wb.View(), root, a.maxDepth)
    ensures FollowsChoices(wa.binnings, wb.binnings, wa.bucketSize, buckets, a.Tree(), b.Tree(), 1,
                           Pow2(a.maxDepth - 1))
    ensures forall l: nat :: l < |a.Tree()| ==>
            LeafTotal(m, ga, gb, root.g, root, a.Tree(), b.Tree(), wa.View(), wb.View(), l)
    ensures forall l: nat :: l < |a.Tree()| ==>
            LeafTotal(m, ha, hb, root.h, root, a.Tree(), b.Tree(), wa.View(), wb.View(), l)
  {
    GrowTree(m, N, a, b, wa, wb, buckets, x, y, root);
    var leafStart := Pow2(a.maxDepth - 1);
    ChoicesNeedFeatures(wa, wb, buckets, a.maxDepth);
    ga, ha, gb, hb := LeafSums(m, a, b, wa.bucketSize, leafStart, wa.View(), wb.View(), root);
    ghost var ta, tb := a.Tree(), b.Tree();
    var weightsA := AnyShares(leafStart);
    var weightsB := AnyShares(leafStart);
    a.leafWeights := a.leafWeights + [weightsA];
    b.leafWeights := b.leafWeights + [weightsB];
    assert a.Tree() == ta && b.Tree() == tb;
  }

  /** `BuildTree` up to the leaves: a new tree is appended and grown. */
  method GrowTree(m: Modulus, N: nat, a: XGBTreeBuilder, b: XGBTreeBuilder, wa: XGBTreeBuildWorker,
                  wb: XGBTreeBuildWorker, buckets: nat -> nat, ghost x: GH, ghost y: GH, ghost root: Root)
    requires Paired(a, b, wa, wb) && IsPow2(N) && ValidChoices(wa, wb, buckets, a.maxDepth)
    requires StartsFrom(a, b, x, y, root) && |a.splitIdentifiers| == |b.splitIdentifiers|
    modifies a`sampleIndicators, a`cachedGh, a`cachedGHs, a`splitIdentifiers
    modifies b`sampleIndicators, b`cachedGh, b`cachedGHs, b`splitIdentifiers
    ensures |a.splitIdentifiers| == |b.splitIdentifiers| == |old(a.splitIdentifiers)| + 1
    ensures old(a.splitIdentifiers) <= a.splitIdentifiers && old(b.splitIdentifiers) <= b.splitIdentifiers
    ensures var n := Pow2(a.maxDepth - 1);
            && SameTree(a.splitIdentifiers, b.splitIdentifiers, wa.nfeatures, wb.nfeatures, n)
            && LevelReady(m, a, b, wa.data, wb.data, root, n, 2 * n)
            && HistReady(m, a, b, wa.View(), wb.View(), wa.bucketSize, root, n, n, 2 * n)
    ensures FollowsChoices(wa.binnings, wb.binnings, wa.bucketSize, buckets, a.Tree(), b.Tree(), 1,
                           Pow2(a.maxDepth - 1))
  {
    var dummy := SplitId(false, 0, Fin(0.0));  // node numbers start from 1
    a.splitIdentifiers := a.splitIdentifiers + [[dummy]];
    b.splitIdentifiers := b.splitIdentifiers + [[dummy]];
    RootIsReady(m, a, b, wa.View(), wb.View(), wa.bucketSize, x, y, root);
    GrowLevels(m, N, a, b, wa, wb, buckets, root);
    EvenStart(a.maxDepth);
  }

  lemma ChoicesNeedFeatures(wa: XGBTreeBuildWorker, wb: XGBTreeBuildWorker, buckets: nat -> nat, depth: nat)
    requires wa.Valid() && wb.Valid() && depth > 1 && ValidChoices(wa, wb, buckets, depth)
    ensures wa.nfeatures + wb.nfeatures >= 1
  {
    EvenStart(depth - 1);
    assert HasThreshold(wa, wb, buckets(1));
  }

  /** The level loop of `BuildTree`. */
  method GrowLevels(m: Modulus, N: nat, a: XGBTreeBuilder, b: XGBTreeBuilder, wa: XGBTreeBuildWorker,
                    wb: XGBTreeBuildWorker, buckets: nat -> nat, ghost root: Root)
    requires Paired(a, b, wa, wb) && IsPow2(N) && ValidChoices(wa, wb, buckets, a.maxDepth)
    requires |root.g| == |root.h| == a.nsamples
    requires SameTree(a.splitIdentifiers, b.splitIdentifiers, wa.nfeatures, wb.nfeatures, 1)
    requires LevelReady(m, a, b, wa.data, wb.data, root, 1, 2)
    requires HistReady(m, a, b, wa.View(), wb.View(), wa.bucketSize, root, 1, 1, 1)
    modifies a`sampleIndicators, a`cachedGh, a`cachedGHs, a`splitIdentifiers
    modifies b`sampleIndicators, b`cachedGh, b`cachedGHs, b`splitIdentifiers
    ensures Extends(old(a.splitIdentifiers), a.splitIdentifiers) && Extends(old(b.splitIdentifiers), b.splitIdentifiers)
    ensures SameTree(a.splitIdentifiers, b.splitIdentifiers, wa.nfeatures, wb.nfeatures, Pow2(a.maxDepth - 1))
    ensures LevelReady(m, a, b, wa.data, wb.data, root, Pow2(a.maxDepth - 1), Pow2(a.maxDepth))
    ensures HistReady(m, a, b, wa.View(), wb.View(), wa.bucketSize, root, Pow2(a.maxDepth - 1), Pow2(a.maxDepth - 1),
                      Pow2(a.maxDepth))
    ensures FollowsChoices(wa.binnings, wb.binnings, wa.bucketSize, buckets, a.Tree(), b.Tree(), 1,
                           Pow2(a.maxDepth - 1))
  {
    EvenStart(1);
    for depth := 1 to a.maxDepth + 1
      invariant Extends(old(a.splitIdentifiers), a.splitIdentifiers)
      invariant Extends(old(b.splitIdentifiers), b.splitIdentifiers)
      invariant Grown(m, a, b, wa, wb, root, depth) && ChosenSoFar(a, b, wa, wb, buckets, depth)
    {
      GrowOne(m, N, a, b, wa, wb, depth, buckets, root, old(a.splitIdentifiers), old(b.splitIdentifiers));
    }
  }

  /** Before level `depth`; after the last level its nodes and histograms stay. */
  ghost predicate Grown(m: Modulus, a: XGBTreeBuilder, b: XGBTreeBuilder, wa: XGBTreeBuildWorker,
                        wb: XGBTreeBuildWorker, root: Root, depth: nat)
    reads a, b, wa, wb
  {
    var top := a.maxDepth;
    var level := if depth <= top then depth else top;
    && Paired(a, b, wa, wb) && 1 <= depth && top >= 1
    && SameTree(a.splitIdentifiers, b.splitIdentifiers, wa.nfeatures, wb.nfeatures, Pow2(level - 1))
    && LevelReady(m, a, b, wa.data, wb.data, root, Pow2(level - 1), Pow2(level))
    && (if depth <= top then HistReady(m, a, b, wa.View(), wb.View(), wa.bucketSize, root,
                                       ParentsFrom(depth, Pow2(depth - 1)), Pow2(depth - 1), Pow2(depth - 1))
        else HistReady(m, a, b, wa.View(), wb.View(), wa.bucketSize, root, Pow2(top - 1), Pow2(top - 1), Pow2(top)))
  }

  /** Before level `depth` every node above it is split at its chosen bucket. */
  ghost predicate ChosenSoFar(a: XGBTreeBuilder, b: XGBTreeBuilder, wa: XGBTreeBuildWorker, wb: XGBTreeBuildWorker,
                              buckets: nat -> nat, depth: nat)
    requires a.splitIdentifiers != [] && b.splitIdentifiers != [] && depth >= 1 && a.maxDepth >= 1
    reads a, b, wa, wb
  {
    FollowsChoices(wa.binnings, wb.binnings, wa.bucketSize, buckets, a.Tree(), b.Tree(), 1,
                   Pow2(if depth <= a.maxDepth then depth - 1 else a.maxDepth - 1))
  }

  method GrowOne(m: Modulus, N: nat, a: XGBTreeBuilder, b: XGBTreeBuilder, wa: XGBTreeBuildWorker,
                 wb: XGBTreeBuildWorker, depth: nat, buckets: nat -> nat, ghost root: Root,
                 ghost firstA: seq<seq<SplitId>>, ghost firstB: seq<seq<SplitId>>)
    requires Grown(m, a, b, wa, wb, root, depth) && depth <= a.maxDepth
    requires IsPow2(N) && ValidChoices(wa, wb, buckets, a.maxDepth) && |root.g| == |root.h| == a.nsamples
    requires Extends(firstA, a.splitIdentifiers) && Extends(firstB, b.splitIdentifiers)
    requires ChosenSoFar(a, b, wa, wb, buckets, depth)
    modifies a`sampleIndicators, a`cachedGh, a`cachedGHs, a`splitIdentifiers
    modifies b`sampleIndicators, b`cachedGh, b`cachedGHs, b`splitIdentifiers
    ensures Grown(m, a, b, wa, wb, root, depth + 1) && ChosenSoFar(a, b, wa, wb, buckets, depth + 1)
    ensures Extends(firstA, a.splitIdentifiers) && Extends(firstB, b.splitIdentifiers)
  {
    ghost var sa, sb, ta, tb := a.splitIdentifiers, b.splitIdentifiers, a.Tree(), b.Tree();
    if depth < a.maxDepth {
      ChoicesOfLevel(depth, a.maxDepth);
    }
    TrainLevel(m, N, a, b, wa, wb, depth, buckets, root);
    FollowsPrefix(wa.binnings, wb.binnings, wa.bucketSize, buckets, ta, tb, a.Tree(), b.Tree(), 1, Pow2(depth - 1));
    ExtendsTransitive(firstA, sa, a.splitIdentifiers);
    ExtendsTransitive(firstB, sb, b.splitIdentifiers);
  }

  lemma ChoicesOfLevel(level: nat, depth: nat)
    requires 1 <= level < depth
    ensures 1 <= Pow2(level - 1) && Pow2(level) <= Pow2(depth - 1)
  {
    Pow2Monotone(level, depth - 1);
  }

  // ------------------------------------------------------------ predictions

  /** Bit `i` of node `k`'s stretch is bit `i` of its indicator. */
  ghost predicate StretchAt(bits: seq<Bit>, ind: map<nat, seq<Bit>>, leafStart: nat, k: nat, i: nat, n: nat) {
    && k in ind && k >= leafStart && i < n && (ind[k] == [] || |ind[k]| == n)
    && 0 <= (k - leafStart) * n + i < |bits| && bits[(k - leafStart) * n + i] == BitAt(ind[k], i)
  }

  ghost predicate IsLeaf<V(!new)>(ind: map<nat, V>, leafStart: nat, leafs: nat, k: nat) {
    k in ind <==> leafStart <= k < leafStart + leafs
  }

  /** One party's leaf indicators, one stretch of `n` bits per leaf, in leaf order; the map is read in any order. */
  method ConcatIndicators(ind: map<nat, seq<Bit>>, leafStart: nat, leafs: nat, n: nat) returns (bits: seq<Bit>)
    requires forall k: nat :: IsLeaf(ind, leafStart, leafs, k)
    requires forall k :: k in ind ==> ind[k] == [] || |ind[k]| == n
    ensures |bits| == leafs * n
    ensures forall k: nat, i: nat :: k in ind && i < n ==> StretchAt(bits, ind, leafStart, k, i, n)
  {
    MulLe(0, leafs, n);
    bits := seq(leafs * n, _ => 0);
    var todo := ind.Keys;
    while todo != {}
      invariant todo <= ind.Keys && |bits| == leafs * n
      invariant forall k: nat, i: nat :: k in ind && k !in todo && i < n ==> StretchAt(bits, ind, leafStart, k, i, n)
      decreases todo
    {
      var k :| k in todo;
      assert IsLeaf(ind, leafStart, leafs, k);
      var row := if ind[k] == [] then seq(n, _ => 1) else ind[k];
      ghost var before := bits;
      RowFits(k - leafStart, leafs, n);
      bits := bits[..(k - leafStart) * n] + row + bits[(k - leafStart) * n + n..];
      forall j: nat, i: nat | j in ind && j !in todo - {k} && i < n ensures StretchAt(bits, ind, leafStart, j, i, n) {
        assert IsLeaf(ind, leafStart, leafs, j);
        assert j != k ==> StretchAt(before, ind, leafStart, j, i, n);
        OtherRow(before, row, bits, k - leafStart, j - leafStart, i, leafs, n);
      }
      todo := todo - {k};
    }
  }

  lemma OtherRow(before: seq<Bit>, row: seq<Bit>, after: seq<Bit>, k: nat, j: nat, i: nat, leafs: nat, n: nat)
    requires k < leafs && j < leafs && i < n && |before| == leafs * n && |row| == n
    requires 0 <= k * n && k * n + n <= leafs * n && after == before[..k * n] + row + before[k * n + n..]
    ensures 0 <= j * n + i < |after| && after[j * n + i] == if j == k then row[i] else before[j * n + i]
  {
    RowFits(j, leafs, n);
    if j < k {
      RowFits(j, k, n);
    } else if k < j {
      RowFits(k, j, n);
    }
  }

  lemma {:induction false} RangeSize<V(!new)>(ind: map<nat, V>, leafStart: nat, leafs: nat)
    requires forall k: nat :: IsLeaf(ind, leafStart, leafs, k)
    ensures |ind| == leafs
  {
    if leafs == 0 {
      assert forall k :: k in ind ==> IsLeaf(ind, leafStart, leafs, k);
    } else {
      var last := leafStart + leafs - 1;
      assert IsLeaf(ind, leafStart, leafs, last);
      var rest := ind - {last};
      var fewer := leafs - 1;
      forall k: nat ensures IsLeaf(rest, leafStart, fewer, k) {
        assert IsLeaf(ind, leafStart, leafs, k);
      }
      RangeSize(rest, leafStart, leafs - 1);
      assert ind == rest[last := ind[last]];
    }
  }

  /** `v` for the samples that both parties drew, 0 for the others. */
  ghost function IfSampled(d: Draws, i: nat, v: int): int {
    if Sampled(d, i) then v else 0
  }

  /** Prediction of sample `i` after the first `l` leaves. */
  ghost predicate PredictionAt(m: Modulus, p: Shares, before: Shares, d: Draws, t: TreePair, va: Side, vb: Side, l: nat,
                               i: nat)
  {
    && i < |p.a| && i < |p.b| && i < |before.a| && i < |before.b| && i < |va.data| && i < |vb.data| && Sized(t, l)
    && Cong(m, p.a[i] + p.b[i],
            before.a[i] + before.b[i] + IfSampled(d, i, LeafSum(t, ToExt(va.data[i]), ToExt(vb.data[i]), l)))
  }

  /** `x + y[from..]`, element by element, in the ring. */
  method AddSlice(m: Modulus, x: seq<int>, y: seq<int>, from: nat) returns (r: seq<int>)
    requires from + |x| <= |y|
    ensures |r| == |x| && forall i :: 0 <= i < |x| ==> SumAt(m, r, x, y, from, i)
  {
    r := [];
    for i := 0 to |x|
      invariant |r| == i && forall j :: 0 <= j < i ==> SumAt(m, r, x, y, from, j)
    {
      CongReduce(m, x[i] + y[from + i]);
      ghost var before := r;
      r := r + [(x[i] + y[from + i]) % m];
      assert forall j :: 0 <= j < i ==> SumAt(m, before, x, y, from, j) ==> SumAt(m, r, x, y, from, j);
    }
  }

  ghost predicate SumAt(m: Modulus, r: seq<int>, x: seq<int>, y: seq<int>, from: nat, i: nat) {
    i < |r| && i < |x| && from + i < |y| && Cong(m, r[i], x[i] + y[from + i])
  }

  /** The parties' products for all leaves and samples, and the indicators that went into them. */
  datatype Products = Products(ua: seq<int>, ub: seq<int>, bitsA: seq<Bit>, bitsB: seq<Bit>, ia: map<nat, seq<Bit>>,
                               ib: map<nat, seq<Bit>>)

  /** Leaf `l`'s product for sample `i` is made of the two parties' true indicators. */
  ghost predicate LeafAt(m: Modulus, u: Products, d: Draws, t: TreePair, va: Side, vb: Side, l: nat, i: nat, n: nat) {
    var idx := |t.ta| + l;
    && Sized(t, l + 1) && n == |va.data| == |vb.data| && idx in u.ia && idx in u.ib
    && ProductAt(m, t.wa, u.bitsA, t.wb, u.bitsB, u.ua, u.ub, l, i, n)
    && StretchAt(u.bitsA, u.ia, |t.ta|, idx, i, n) && StretchAt(u.bitsB, u.ib, |t.ta|, idx, i, n)
    && IndicatorOk(u.ia[idx], d.a, t.ta, va.data, idx) && IndicatorOk(u.ib[idx], d.b, t.tb, vb.data, idx)
  }

  /** Adding leaf `l`'s products adds leaf `l`'s term, if the sample is drawn. */
  lemma AddLeaf(m: Modulus, q: Shares, p: Shares, before: Shares, u: Products, d: Draws, t: TreePair,
                va: Side, vb: Side, l: nat, i: nat, n: nat)
    requires PredictionAt(m, q, before, d, t, va, vb, l, i) && LeafAt(m, u, d, t, va, vb, l, i, n) && i < n
    requires 0 <= l * n
    requires SumAt(m, p.a, q.a, u.ua, l * n, i) && SumAt(m, p.b, q.b, u.ub, l * n, i)
    ensures PredictionAt(m, p, before, d, t, va, vb, l + 1, i)
  {
    var k := l * n + i;
    var xa, xb := ToExt(va.data[i]), ToExt(vb.data[i]);
    LeafProduct(m, u, d, t, va, vb, l, i, n);
    AddTerm(m, q.a[i], u.ua[k], p.a[i], q.b[i], u.ub[k], p.b[i],
            before.a[i] + before.b[i] + IfSampled(d, i, LeafSum(t, xa, xb, l)),
                IfSampled(d, i, LeafTerm(t, xa, xb, l)));
  }

  lemma LeafProduct(m: Modulus, u: Products, d: Draws, t: TreePair, va: Side, vb: Side, l: nat, i: nat, n: nat)
    requires LeafAt(m, u, d, t, va, vb, l, i, n) && i < n && 0 <= l * n
    ensures l * n + i < |u.ua| && l * n + i < |u.ub|
    ensures Cong(m, u.ua[l * n + i] + u.ub[l * n + i],
                 IfSampled(d, i, LeafTerm(t, ToExt(va.data[i]), ToExt(vb.data[i]), l)))
  {
    var idx, k := |t.ta| + l, l * n + i;
    assert IndicatorAt(u.ia[idx], d.a, t.ta, va.data, idx, i) && IndicatorAt(u.ib[idx], d.b, t.tb, vb.data, idx, i);
    BitProduct(t.wa[l] + t.wb[l], u.bitsA[k], u.bitsB[k]);
    BitProduct(t.wa[l] + t.wb[l], Meets(t.ta, t.tb, ToExt(va.data[i]), ToExt(vb.data[i]), idx), 1);
  }

  lemma BitProduct(w: int, x: Bit, y: Bit)
    ensures w * (x * y) == if x == 1 && y == 1 then w else 0
    ensures y == 1 ==> w * x == if x == 1 then w else 0
  {
  }

  lemma AddTerm(m: Modulus, qa: int, ua: int, pa: int, qb: int, ub: int, pb: int, sum: int, term: int)
    requires Cong(m, pa, qa + ua) && Cong(m, pb, qb + ub) && Cong(m, qa + qb, sum) && Cong(m, ua + ub, term)
    ensures Cong(m, pa + pb, sum + term)
  {
    CongAdd(m, pa, qa + ua, pb, qb + ub);
    CongAdd(m, qa + qb, sum, ua + ub, term);
    assert (qa + ua) + (qb + ub) == (qa + qb) + (ua + ub);
    CongTrans(m, pa + pb, (qa + qb) + (ua + ub), sum + term);
  }

  /** The prediction of sample `i` went up by the tree's value for its row, if both parties drew it. */
  ghost predicate UpdatedAt(m: Modulus, p: Shares, before: Shares, d: Draws, t: TreePair, va: Side, vb: Side,
                            depth: nat, i: nat)
    requires i < |p.a| && i < |p.b| && i < |before.a| && i < |before.b| && i < |va.data| && i < |vb.data|
    requires TreeOk(t, |va.data[i]|, |vb.data[i]|, depth)
  {
    Cong(m, p.a[i] + p.b[i],
         before.a[i] + before.b[i] + IfSampled(d, i, TreeValue(t, ToExt(va.data[i]), ToExt(vb.data[i]), depth)))
  }

  /** Adds the leaf weights of a tree to the predictions, using the indicators left over from the tree built last. */
  method UpdatePrediction(m: Modulus, a: XGBTreeBuilder, b: XGBTreeBuilder, predA: seq<int>, predB: seq<int>,
                          treeIndex: nat, ghost va: Side, ghost vb: Side, ghost root: Root)
    returns (pa: seq<int>, pb: seq<int>)
    requires a.maxDepth == b.maxDepth && TreeBuilt(m, a, b, va, vb, root, a.maxDepth)
    requires |predA| == |predB| == a.nsamples == b.nsamples == |va.data| == |vb.data| > 0
    requires forall i :: 0 <= i < a.nsamples ==> |va.data[i]| == |va.thrs| && |vb.data[i]| == |vb.thrs|
    requires treeIndex < |a.leafWeights|
    requires |a.leafWeights[treeIndex]| == |b.leafWeights[treeIndex]| == Pow2(a.maxDepth - 1)
    ensures |pa| == |pb| == a.nsamples
    ensures forall i :: 0 <= i < a.nsamples ==>
              UpdatedAt(m, Shares(pa, pb), Shares(predA, predB), root.draw, LastTree(a, b, treeIndex), va, vb,
                        a.maxDepth, i)
  {
    var n, leafStart := a.nsamples, Pow2(a.maxDepth - 1);
    var wa, wb := a.leafWeights[treeIndex], b.leafWeights[treeIndex];
    ghost var t := LastTree(a, b, treeIndex);
    var bitsA, bitsB := LeafIndicators(m, a, b, va, vb, root, leafStart);
    var ua, ub := BatchMulArithShareWithANDBoolShare(m, wa, bitsA, wb, bitsB, n);
    ghost var u := Products(ua, ub, bitsA, bitsB, a.sampleIndicators, b.sampleIndicators);
    forall l: nat, i: nat | l < |wa| && i < n ensures LeafAt(m, u, root.draw, t, va, vb, l, i, n) {
      assert LeafBitsAt(a.sampleIndicators, b.sampleIndicators, bitsA, bitsB, root.draw, a.Tree(), b.Tree(), va, vb,
                        l, i, n);
      assert LeafBitsAt(u.ia, u.ib, bitsA, bitsB, root.draw, t.ta, t.tb, va, vb, l, i, n);
    }
    pa, pb := AddLeaves(m, predA, predB, ua, ub, |wa|, n, u, root.draw, t, va, vb);
    forall i | 0 <= i < n
      ensures UpdatedAt(m, Shares(pa, pb), Shares(predA, predB), root.draw, t, va, vb, a.maxDepth, i)
    {
      LeafSumIsTreeValue(t, ToExt(va.data[i]), ToExt(vb.data[i]), a.maxDepth, |wa|);
      assert PredictionAt(m, Shares(pa, pb), Shares(predA, predB), root.draw, t, va, vb, |wa|, i);
    }
  }

  /** Both parties' bits for leaf `l` and sample `i` are those of their true indicators. */
  ghost predicate LeafBitsAt(ia: map<nat, seq<Bit>>, ib: map<nat, seq<Bit>>, bitsA: seq<Bit>, bitsB: seq<Bit>, d: Draws,
                             ta: seq<SplitId>, tb: seq<SplitId>, va: Side, vb: Side, l: nat, i: nat, n: nat)
  {
    var idx := |ta| + l;
    && idx in ia && idx in ib
    && StretchAt(bitsA, ia, |ta|, idx, i, n) && StretchAt(bitsB, ib, |ta|, idx, i, n)
    && IndicatorOk(ia[idx], d.a, ta, va.data, idx) && IndicatorOk(ib[idx], d.b, tb, vb.data, idx)
  }

  /** Both parties' leaf indicators, in leaf order. */
  method LeafIndicators(m: Modulus, a: XGBTreeBuilder, b: XGBTreeBuilder, ghost va: Side, ghost vb: Side,
                        ghost root: Root, leafStart: nat)
    returns (bitsA: seq<Bit>, bitsB: seq<Bit>)
    requires a.maxDepth == b.maxDepth && TreeBuilt(m, a, b, va, vb, root, a.maxDepth)
    requires leafStart == Pow2(a.maxDepth - 1)
    requires a.nsamples == b.nsamples == |va.data| == |vb.data| > 0
    ensures |bitsA| == |bitsB| == leafStart * a.nsamples
    ensures forall l: nat, i: nat :: l < leafStart && i < a.nsamples ==>
              LeafBitsAt(a.sampleIndicators, b.sampleIndicators, bitsA, bitsB, root.draw, a.Tree(), b.Tree(), va, vb, l,
                         i, a.nsamples)
  {
    var n := a.nsamples;
    ghost var ia, ib := a.sampleIndicators, b.sampleIndicators;
    EvenStart(a.maxDepth);
    LeavesOnly(m, a, b, va.data, vb.data, root, leafStart);
    RangeSize(ia, leafStart, leafStart);
    RangeSize(ib, leafStart, leafStart);
    assert |a.sampleIndicators| == |b.sampleIndicators| == leafStart;  // enforced: as many as leaf weights
    bitsA := ConcatIndicators(a.sampleIndicators, leafStart, |a.sampleIndicators|, n);
    bitsB := ConcatIndicators(b.sampleIndicators, leafStart, |b.sampleIndicators|, n);
    forall l: nat, i: nat | l < leafStart && i < n
      ensures LeafBitsAt(ia, ib, bitsA, bitsB, root.draw, a.Tree(), b.Tree(), va, vb, l, i, n)
    {
      var idx := leafStart + l;
      assert IsLeaf(ia, leafStart, leafStart, idx) && IsLeaf(ib, leafStart, leafStart, idx);
      assert NodeAt(m, a.Tree(), b.Tree(), va.data, vb.data, root, ia, ib, a.cachedGh, b.cachedGh, idx);
    }
  }

  /** The loop of `UpdatePrediction` over the leaves. */
  method AddLeaves(m: Modulus, predA: seq<int>, predB: seq<int>, ua: seq<int>, ub: seq<int>, leaves: nat, n: nat,
                   ghost u: Products, ghost d: Draws, ghost t: TreePair, ghost va: Side, ghost vb: Side)
    returns (pa: seq<int>, pb: seq<int>)
    requires |predA| == |predB| == n == |va.data| == |vb.data| && Sized(t, leaves) && |ua| == |ub| == leaves * n
    requires u.ua == ua && u.ub == ub
    requires forall l: nat, i: nat :: l < leaves && i < n ==> LeafAt(m, u, d, t, va, vb, l, i, n)
    ensures |pa| == |pb| == n
    ensures forall i: nat :: i < n ==> PredictionAt(m, Shares(pa, pb), Shares(predA, predB), d, t, va, vb, leaves, i)
  {
    pa, pb := predA, predB;
    ghost var before := Shares(predA, predB);
    forall i: nat | i < n ensures PredictionAt(m, before, before, d, t, va, vb, 0, i) {
      CongMultiple(m, pa[i] + pb[i], pa[i] + pb[i], 0);
    }
    for l := 0 to leaves
      invariant |pa| == |pb| == n
      invariant forall i: nat :: i < n ==> PredictionAt(m, Shares(pa, pb), before, d, t, va, vb, l, i)
    {
      RowFits(l, leaves, n);
      ghost var q, next := Shares(pa, pb), l + 1;
      pa := AddSlice(m, pa, ua, l * n);
      pb := AddSlice(m, pb, ub, l * n);
      ghost var p := Shares(pa, pb);
      forall i: nat | i < n ensures PredictionAt(m, p, before, d, t, va, vb, next, i) {
        assert LeafAt(m, u, d, t, va, vb, l, i, n);
        assert SumAt(m, pa, q.a, ua, l * n, i) && SumAt(m, pb, q.b, ub, l * n, i);
        AddLeaf(m, q, p, before, u, d, t, va, vb, l, i, n);
      }
    }
  }

  /** The indicator maps hold exactly the leaves. */
  lemma LeavesOnly(m: Modulus, a: XGBTreeBuilder, b: XGBTreeBuilder, da: seq<seq<real>>, db: seq<seq<real>>, root: Root,
                   n: nat)
    requires a.splitIdentifiers != [] && b.splitIdentifiers != [] && LevelReady(m, a, b, da, db, root, n, 2 * n)
    ensures forall k: nat :: IsLeaf(a.sampleIndicators, n, n, k)
    ensures forall k: nat :: IsLeaf(b.sampleIndicators, n, n, k)
    ensures forall k :: k in a.sampleIndicators ==> a.sampleIndicators[k] == [] || |a.sampleIndicators[k]| == |da|
    ensures forall k :: k in b.sampleIndicators ==> b.sampleIndicators[k] == [] || |b.sampleIndicators[k]| == |db|
  {
    var t := 2 * n;
    forall k: nat
      ensures IsLeaf(a.sampleIndicators, n, n, k) && IsLeaf(b.sampleIndicators, n, n, k)
    {
      assert KeyAt(a.sampleIndicators, n, t, t, t, k) && KeyAt(b.sampleIndicators, n, t, t, t, k);
    }
    forall k: nat | k in a.sampleIndicators ensures a.sampleIndicators[k] == [] || |a.sampleIndicators[k]| == |da| {
      assert IsLeaf(a.sampleIndicators, n, n, k);
      assert NodeAt(m, a.Tree(), b.Tree(), da, db, root, a.sampleIndicators, b.sampleIndicators, a.cachedGh, b.cachedGh,
                    k);
    }
    forall k: nat | k in b.sampleIndicators ensures b.sampleIndicators[k] == [] || |b.sampleIndicators[k]| == |db| {
      assert IsLeaf(b.sampleIndicators, n, n, k);
      assert NodeAt(m, a.Tree(), b.Tree(), da, db, root, a.sampleIndicators, b.sampleIndicators, a.cachedGh, b.cachedGh,
                    k);
    }
  }

  // -------------------------------------------------------------- inference

  ghost predicate PathBit(bits: seq<Bit>, tree: seq<SplitId>, x: seq<Ext>, l: nat) {
    l < |bits| && l < |tree| && (bits[l] == 1 <==> Path(tree, x, |tree| + l))
  }

  ghost predicate FeatureInRow(tree: seq<SplitId>, x: seq<Ext>, p: nat) {
    p < |tree| && (tree[p].self ==> tree[p].feature < |x|)
  }

  ghost predicate PathMarked(path: seq<Bit>, tree: seq<SplitId>, x: seq<Ext>, idx: nat) {
    1 <= idx < 2 * |tree| && idx < |path| && (path[idx] == 1 <==> Path(tree, x, idx))
  }

  /** One party's path indicators of the leaves. */
  method PathIndicators(tree: seq<SplitId>, x: seq<Ext>) returns (bits: seq<Bit>)
    requires |tree| >= 1
    requires forall p :: 1 <= p < |tree| ==> FeatureInRow(tree, x, p)
    ensures |bits| == |tree| && forall l: nat :: l < |tree| ==> PathBit(bits, tree, x, l)
  {
    var numNodes := |tree|;
    var path: seq<Bit> := seq(2 * numNodes, _ => 0);
    path := path[1 := 1];
    for nidx := 1 to numNodes
      invariant |path| == 2 * numNodes
      invariant forall idx :: 1 <= idx < 2 * nidx ==> PathMarked(path, tree, x, idx)
    {
      var split := tree[nidx];
      var lchild := 2 * nidx;
      var rchild := 2 * nidx + 1;
      ghost var before := path;
      assert FeatureInRow(tree, x, nidx) && PathMarked(path, tree, x, nidx);
      if split.self {
        if Le(x[split.feature], split.threshold) {
          path := path[lchild := path[nidx]][rchild := 0];
        } else {
          path := path[lchild := 0][rchild := path[nidx]];
        }
      } else {
        path := path[lchild := path[nidx]][rchild := path[nidx]];
      }
      forall idx | 1 <= idx < 2 * (nidx + 1) ensures PathMarked(path, tree, x, idx) {
        assert idx < lchild ==> PathMarked(before, tree, x, idx);
      }
    }
    bits := path[numNodes..];
    forall l: nat | l < |tree| ensures PathBit(bits, tree, x, l) {
      assert PathMarked(path, tree, x, numNodes + l);
    }
  }

  /** Sum of the first `k` products of joint weight and joint bit. */
  ghost function FlatSum(wa: seq<int>, ba: seq<Bit>, wb: seq<int>, bb: seq<Bit>, k: nat): int
    requires |wa| == |wb| == |ba| == |bb| >= k
  {
    if k == 0 then 0 else FlatSum(wa, ba, wb, bb, k - 1) + (wa[k - 1] + wb[k - 1]) * (ba[k - 1] * bb[k - 1])
  }

  /** Longer vectors do not change the first `k` terms. */
  lemma {:induction false} FlatSumPrefix(wa: seq<int>, ba: seq<Bit>, wb: seq<int>, bb: seq<Bit>,
                                         va: seq<int>, ca: seq<Bit>, vb: seq<int>, cb: seq<Bit>, k: nat)
    requires |wa| == |wb| == |ba| == |bb| && |va| == |vb| == |ca| == |cb| && k <= |wa|
    requires wa <= va && ba <= ca && wb <= vb && bb <= cb
    ensures FlatSum(va, ca, vb, cb, k) == FlatSum(wa, ba, wb, bb, k)
  {
    if k > 0 {
      FlatSumPrefix(wa, ba, wb, bb, va, ca, vb, cb, k - 1);
    }
  }

  /** Two stretches, one after the other. */
  lemma {:induction false} FlatSumAppend(wa: seq<int>, ba: seq<Bit>, wb: seq<int>, bb: seq<Bit>,
                                         va: seq<int>, ca: seq<Bit>, vb: seq<int>, cb: seq<Bit>, k: nat)
    requires |wa| == |wb| == |ba| == |bb| && |va| == |vb| == |ca| == |cb| && k <= |va|
    ensures FlatSum(wa + va, ba + ca, wb + vb, bb + cb, |wa| + k) ==
            FlatSum(wa, ba, wb, bb, |wa|) + FlatSum(va, ca, vb, cb, k)
  {
    if k == 0 {
      FlatSumPrefix(wa, ba, wb, bb, wa + va, ba + ca, wb + vb, bb + cb, |wa|);
    } else {
      FlatSumAppend(wa, ba, wb, bb, va, ca, vb, cb, k - 1);
    }
  }

  lemma {:induction false} FlatSumIsLeafSum(t: TreePair, ba: seq<Bit>, bb: seq<Bit>, xa: seq<Ext>, xb: seq<Ext>, k: nat)
    requires Sized(t, k) && |t.ta| == |ba| == |bb|
    requires forall l: nat :: l < |t.ta| ==> PathBit(ba, t.ta, xa, l)
    requires forall l: nat :: l < |t.tb| ==> PathBit(bb, t.tb, xb, l)
    ensures FlatSum(t.wa, ba, t.wb, bb, k) == LeafSum(t, xa, xb, k)
  {
    if k > 0 {
      FlatSumIsLeafSum(t, ba, bb, xa, xb, k - 1);
      assert PathBit(ba, t.ta, xa, k - 1) && PathBit(bb, t.tb, xb, k - 1);
      assert ba[k - 1] * bb[k - 1] == Meets(t.ta, t.tb, xa, xb, |t.ta| + k - 1);
      assert (t.wa[k - 1] + t.wb[k - 1]) * (ba[k - 1] * bb[k - 1]) == LeafTerm(t, xa, xb, k - 1);
    }
  }

  ghost function SumTo(v: seq<int>, k: nat): int
    requires k <= |v|
  {
    if k == 0 then 0 else SumTo(v, k - 1) + v[k - 1]
  }

  /** Sum of a vector in the ring. */
  method ReduceSum(m: Modulus, v: seq<int>) returns (s: int)
    ensures Cong(m, s, SumTo(v, |v|))
  {
    s := 0;
    for i := 0 to |v|
      invariant Cong(m, s, SumTo(v, i))
    {
      CongAdd(m, s, SumTo(v, i), v[i], v[i]);
      CongReduce(m, s + v[i]);
      CongTrans(m, (s + v[i]) % m, s + v[i], SumTo(v, i + 1));
      s := (s + v[i]) % m;
    }
  }

  lemma {:induction false} SumOfProducts(m: Modulus, oa: seq<int>, ob: seq<int>, wa: seq<int>, ba: seq<Bit>,
                                         wb: seq<int>, bb: seq<Bit>, k: nat)
    requires |wa| == |wb| == |ba| == |bb| == |oa| == |ob| >= k
    requires forall i :: 0 <= i < |wa| ==> Cong(m, oa[i] + ob[i], (wa[i] + wb[i]) * (ba[i] * bb[i]))
    ensures Cong(m, SumTo(oa, k) + SumTo(ob, k), FlatSum(wa, ba, wb, bb, k))
  {
    if k > 0 {
      SumOfProducts(m, oa, ob, wa, ba, wb, bb, k - 1);
      CongAdd(m, SumTo(oa, k - 1) + SumTo(ob, k - 1), FlatSum(wa, ba, wb, bb, k - 1),
              oa[k - 1] + ob[k - 1], (wa[k - 1] + wb[k - 1]) * (ba[k - 1] * bb[k - 1]));
      assert SumTo(oa, k) + SumTo(ob, k) == (SumTo(oa, k - 1) + SumTo(ob, k - 1)) + (oa[k - 1] + ob[k - 1]);
    }
  }

  ghost function ForestOf(a: XGBTreeBuilder, b: XGBTreeBuilder): Forest
    reads a, b
  {
    Forest(a.splitIdentifiers, b.splitIdentifiers, a.leafWeights, b.leafWeights)
  }

  /** Both parties' path indicators for one tree: exactly the leaf of an ordinary tree counts. */
  method TreeIndicators(ghost t: TreePair, ta: seq<SplitId>, tb: seq<SplitId>, xa: seq<Ext>, xb: seq<Ext>,
                        ghost depth: nat)
    returns (pa: seq<Bit>, pb: seq<Bit>)
    requires TreeOk(t, |xa|, |xb|, depth) && ta == t.ta && tb == t.tb
    ensures |pa| == |pb| == |t.wa|
    ensures FlatSum(t.wa, pa, t.wb, pb, |t.wa|) == TreeValue(t, xa, xb, depth)
  {
    forall p | 1 <= p < |ta| ensures FeatureInRow(ta, xa, p) && FeatureInRow(tb, xb, p) {
      assert OneHolder(ta, tb, |xa|, |xb|, p);
    }
    pa := PathIndicators(ta, xa);
    pb := PathIndicators(tb, xb);
    FlatSumIsLeafSum(t, pa, pb, xa, xb, |t.wa|);
    LeafSumIsTreeValue(t, xa, xb, depth, |t.wa|);
  }

  /** Inference of one joint row over all trees; each party sees only its own features. */
  method Inference(m: Modulus, a: XGBTreeBuilder, b: XGBTreeBuilder, xa: seq<Ext>, xb: seq<Ext>)
    returns (ra: int, rb: int)
    requires a.maxDepth == b.maxDepth && ForestOk(ForestOf(a, b), |xa|, |xb|, a.maxDepth)
    ensures Cong(m, ra + rb, ForestValue(ForestOf(a, b), xa, xb, a.maxDepth, |a.splitIdentifiers|))
  {
    ghost var f, d := ForestOf(a, b), a.maxDepth;
    var bitsA: seq<Bit>, bitsB: seq<Bit>, wa: seq<int>, wb: seq<int> := [], [], [], [];
    for k := 0 to |a.splitIdentifiers|
      invariant |bitsA| == |bitsB| == |wa| == |wb|
      invariant FlatSum(wa, bitsA, wb, bitsB, |wa|) == ForestValue(f, xa, xb, d, k)
    {
      var ta, tb, va, vb := a.splitIdentifiers[k], b.splitIdentifiers[k], a.leafWeights[k], b.leafWeights[k];
      ghost var t := TreeAt(f, k);
      assert TreeOk(t, |xa|, |xb|, d);
      var pa, pb := TreeIndicators(t, ta, tb, xa, xb, d);
      FlatSumAppend(wa, bitsA, wb, bitsB, va, pa, vb, pb, |va|);
      bitsA, bitsB, wa, wb := bitsA + pa, bitsB + pb, wa + va, wb + vb;
    }
    var oa, ob := MulArithShareWithANDBoolShare(m, wa, bitsA, wb, bitsB);
    SumOfProducts(m, oa, ob, wa, bitsA, wb, bitsB, |wa|);
    ra := ReduceSum(m, oa);
    rb := ReduceSum(m, ob);
    CongAdd(m, ra, SumTo(oa, |oa|), rb, SumTo(ob, |ob|));
    CongTrans(m, ra + rb, SumTo(oa, |oa|) + SumTo(ob, |ob|), FlatSum(wa, bitsA, wb, bitsB, |wa|));
  }

  // ------------------------------------------------------------- whole runs

  /** Sum of the first `k` trees' values, over the rounds in which both parties drew sample `i`. */
  ghost function SampledValue(f: Forest, hist: seq<Draws>, xa: seq<Ext>, xb: seq<Ext>, depth: nat, i: nat, k: nat): int
    requires ForestOk(f, |xa|, |xb|, depth) && k <= |f.sa| && k <= |hist|
  {
    if k == 0 then 0
    else SampledValue(f, hist, xa, xb, depth, i, k - 1)
         + IfSampled(hist[k - 1], i, TreeValue(TreeAt(f, k - 1), xa, xb, depth))
  }

  /** The part of the forest's value that sample `i` misses: the trees of the rounds in which a party did not draw
      it. */
  ghost function MissedValue(f: Forest, hist: seq<Draws>, xa: seq<Ext>, xb: seq<Ext>, depth: nat, i: nat, k: nat): int
    requires ForestOk(f, |xa|, |xb|, depth) && k <= |f.sa| && k <= |hist|
  {
    if k == 0 then 0
    else MissedValue(f, hist, xa, xb, depth, i, k - 1)
         + if Sampled(hist[k - 1], i) then 0 else TreeValue(TreeAt(f, k - 1), xa, xb, depth)
  }

  lemma {:induction false} SampledPlusMissed(f: Forest, hist: seq<Draws>, xa: seq<Ext>, xb: seq<Ext>, depth: nat,
                                             i: nat, k: nat)
    requires ForestOk(f, |xa|, |xb|, depth) && k <= |f.sa| && k <= |hist|
    ensures SampledValue(f, hist, xa, xb, depth, i, k) + MissedValue(f, hist, xa, xb, depth, i, k)
            == ForestValue(f, xa, xb, depth, k)
    ensures AlwaysSampled(hist, i) ==> MissedValue(f, hist, xa, xb, depth, i, k) == 0
  {
    if k > 0 {
      SampledPlusMissed(f, hist, xa, xb, depth, i, k - 1);
    }
  }

  /** The same splits with other leaf weights. */
  ghost predicate Reweighted(g: Forest, f: Forest, nfa: nat, nfb: nat, depth: nat) {
    g.sa == f.sa && g.sb == f.sb && ForestOk(g, nfa, nfb, depth)
  }

  /** With these leaf weights, what training adds to the prediction of a row is what inference returns for it. */
  ghost predicate Agrees(m: Modulus, g: Forest, f: Forest, hist: seq<Draws>, xa: seq<Ext>, xb: seq<Ext>, depth: nat,
                         i: nat)
    requires |hist| == |f.sa|
  {
    Reweighted(g, f, |xa|, |xb|, depth) ==>
      Cong(m, SampledValue(g, hist, xa, xb, depth, i, |hist|), ForestValue(g, xa, xb, depth, |hist|))
  }

  /** Whatever the leaf weights, training and inference agree on a row exactly when both parties draw it every time. */
  lemma AgreesIff(m: Modulus, f: Forest, hist: seq<Draws>, xa: seq<Ext>, xb: seq<Ext>, depth: nat, i: nat)
    requires m >= 2 && depth >= 1 && ForestOk(f, |xa|, |xb|, depth) && |hist| == |f.sa|
    ensures (forall g: Forest :: Agrees(m, g, f, hist, xa, xb, depth, i)) <==> AlwaysSampled(hist, i)
  {
    if AlwaysSampled(hist, i) {
      forall g: Forest ensures Agrees(m, g, f, hist, xa, xb, depth, i) {
        if Reweighted(g, f, |xa|, |xb|, depth) {
          SampledPlusMissed(g, hist, xa, xb, depth, i, |hist|);
        }
      }
    } else {
      var t: nat :| t < |hist| && !Sampled(hist[t], i);
      var g := OnlyTree(f, t, Pow2(depth - 1));
      OnlyTreeOk(f, t, |xa|, |xb|, depth);
      OnlyTreeMissed(f, hist, xa, xb, depth, i, t, |hist|);
      SampledPlusMissed(g, hist, xa, xb, depth, i, |hist|);
      assert !Agrees(m, g, f, hist, xa, xb, depth, i);
    }
  }

  /** Weight 1 on every leaf of tree `t`, 0 on all others. */
  ghost function OnlyTree(f: Forest, t: nat, leaves: nat): Forest {
    var zeros := seq(|f.sa|, _ => seq(leaves, _ => 0));
    Forest(f.sa, f.sb, seq(|f.sa|, k => seq(leaves, _ => if k == t then 1 else 0)), zeros)
  }

  lemma OnlyTreeOk(f: Forest, t: nat, nfa: nat, nfb: nat, depth: nat)
    requires ForestOk(f, nfa, nfb, depth) && t < |f.sa| && depth >= 1
    ensures Reweighted(OnlyTree(f, t, Pow2(depth - 1)), f, nfa, nfb, depth)
  {
    var g := OnlyTree(f, t, Pow2(depth - 1));
    assert TreeOk(TreeAt(f, t), nfa, nfb, depth);
    forall k | 0 <= k < |g.sa| ensures TreeOk(TreeAt(g, k), nfa, nfb, depth) {
      assert TreeOk(TreeAt(f, k), nfa, nfb, depth);
    }
  }

  lemma {:induction false} OnlyTreeMissed(f: Forest, hist: seq<Draws>, xa: seq<Ext>, xb: seq<Ext>, depth: nat, i: nat,
                                          t: nat, k: nat)
    requires ForestOk(f, |xa|, |xb|, depth) && t < |hist| == |f.sa| && !Sampled(hist[t], i) && k <= |hist| && depth >= 1
    requires ForestOk(OnlyTree(f, t, Pow2(depth - 1)), |xa|, |xb|, depth)
    ensures MissedValue(OnlyTree(f, t, Pow2(depth - 1)), hist, xa, xb, depth, i, k) == if t < k then 1 else 0
  {
    if k > 0 {
      OnlyTreeMissed(f, hist, xa, xb, depth, i, t, k - 1);
      assert TreeOk(TreeAt(OnlyTree(f, t, Pow2(depth - 1)), k - 1), |xa|, |xb|, depth);
    }
  }

  /** One round at a sampling rate of a half: the first party's coin drops the row, and its prediction stays behind. */
  lemma UndrawnRowStaysBehind()
    ensures var hist := [Draws(Draw(0.5, [0.7]), Draw(0.5, [0.2]))];
      var dummy := SplitId(false, 0, Fin(0.0));
      var f := Forest([[dummy, SplitId(true, 0, Fin(1.0))]], [[dummy, dummy]], [[5, 7]], [[0, 0]]);
      && ForestOk(f, 1, 0, 2) && !AlwaysSampled(hist, 0)
      && SampledValue(f, hist, [Fin(0.0)], [], 2, 0, 1) == 0 && ForestValue(f, [Fin(0.0)], [], 2, 1) == 5
  {
    var hist := [Draws(Draw(0.5, [0.7]), Draw(0.5, [0.2]))];
    var dummy := SplitId(false, 0, Fin(0.0));
    var f := Forest([[dummy, SplitId(true, 0, Fin(1.0))]], [[dummy, dummy]], [[5, 7]], [[0, 0]]);
    var t := TreeAt(f, 0);
    var xa, xb: seq<Ext> := [Fin(0.0)], [];
    assert Pow2(1) == 2 && OneHolder(t.ta, t.tb, 1, 0, 1);
    assert ForestOk(f, 1, 0, 2) by { assert TreeOk(t, 1, 0, 2); }
    assert !Sampled(hist[0], 0);
    assert Walk(t.ta, t.tb, xa, xb, 1) == Child(t.ta, t.tb, xa, xb, Walk(t.ta, t.tb, xa, xb, 0)) == 2;
    assert ForestValue(f, xa, xb, 2, 1) == ForestValue(f, xa, xb, 2, 0) + TreeValue(t, xa, xb, 2);
    assert SampledValue(f, hist, xa, xb, 2, 0, 1) == SampledValue(f, hist, xa, xb, 2, 0, 0) + 0;
  }

  /** Sample `i`'s prediction is its initial value plus the value for its row of all trees it was drawn for. */
  ghost predicate RunAt(m: Modulus, p: Shares, init: Shares, f: Forest, hist: seq<Draws>, va: Side, vb: Side,
                        depth: nat, i: nat)
    requires i < |p.a| && i < |p.b| && i < |init.a| && i < |init.b| && i < |va.data| && i < |vb.data|
    requires ForestOk(f, |va.data[i]|, |vb.data[i]|, depth) && |hist| == |f.sa|
  {
    Cong(m, p.a[i] + p.b[i],
         init.a[i] + init.b[i] + SampledValue(f, hist, ToExt(va.data[i]), ToExt(vb.data[i]), depth, i, |f.sa|))
  }

  /** `g` continues `f`: no tree and no weight of `f` changes. */
  ghost predicate Continues(f: Forest, g: Forest) {
    f.sa <= g.sa && f.sb <= g.sb && f.wa <= g.wa && f.wb <= g.wb
  }

  lemma {:induction false} SampledPrefix(f: Forest, g: Forest, hist: seq<Draws>, more: seq<Draws>,
                                         xa: seq<Ext>, xb: seq<Ext>, depth: nat, i: nat, k: nat)
    requires Continues(f, g) && ForestOk(f, |xa|, |xb|, depth) && ForestOk(g, |xa|, |xb|, depth)
    requires k <= |f.sa| && k <= |hist| && hist <= more
    ensures SampledValue(g, more, xa, xb, depth, i, k) == SampledValue(f, hist, xa, xb, depth, i, k)
  {
    if k > 0 {
      SampledPrefix(f, g, hist, more, xa, xb, depth, i, k - 1);
    }
  }

  lemma ForestGrows(f: Forest, g: Forest, nfa: nat, nfb: nat, depth: nat)
    requires ForestOk(f, nfa, nfb, depth) && Continues(f, g)
    requires |g.sa| == |g.sb| == |g.wa| == |g.wb| == |f.sa| + 1 && TreeOk(TreeAt(g, |f.sa|), nfa, nfb, depth)
    ensures ForestOk(g, nfa, nfb, depth)
  {
    forall k | 0 <= k < |g.sa| ensures TreeOk(TreeAt(g, k), nfa, nfb, depth) {
      assert k < |f.sa| ==> TreeOk(TreeAt(f, k), nfa, nfb, depth);
    }
  }

  lemma RunStep(m: Modulus, q: Shares, p: Shares, init: Shares, f: Forest, g: Forest, hist: seq<Draws>, d: Draws,
                va: Side, vb: Side, depth: nat, i: nat)
    requires i < |p.a| && i < |p.b| && i < |q.a| && i < |q.b| && i < |init.a| && i < |init.b|
    requires i < |va.data| && i < |vb.data|
    requires ForestOk(f, |va.data[i]|, |vb.data[i]|, depth) && ForestOk(g, |va.data[i]|, |vb.data[i]|, depth)
    requires Continues(f, g) && |g.sa| == |f.sa| + 1 && |hist| == |f.sa|
    requires RunAt(m, q, init, f, hist, va, vb, depth, i) && UpdatedAt(m, p, q, d, TreeAt(g, |f.sa|), va, vb, depth, i)
    ensures RunAt(m, p, init, g, hist + [d], va, vb, depth, i)
  {
    var xa, xb := ToExt(va.data[i]), ToExt(vb.data[i]);
    SampledPrefix(f, g, hist, hist + [d], xa, xb, depth, i, |f.sa|);
    var v := IfSampled(d, i, TreeValue(TreeAt(g, |f.sa|), xa, xb, depth));
    var sum := init.a[i] + init.b[i] + SampledValue(f, hist, xa, xb, depth, i, |f.sa|);
    CongAdd(m, q.a[i] + q.b[i], sum, v, v);
    CongTrans(m, p.a[i] + p.b[i], q.a[i] + q.b[i] + v, sum + v);
  }

  /** One more tree, for all samples. */
  lemma RunSteps(m: Modulus, q: Shares, p: Shares, init: Shares, f: Forest, g: Forest, hist: seq<Draws>, d: Draws,
                 va: Side, vb: Side, depth: nat, n: nat)
    requires |p.a| == |p.b| == |q.a| == |q.b| == |init.a| == |init.b| == |va.data| == |vb.data| == n
    requires forall i :: 0 <= i < n ==> |va.data[i]| == |va.thrs| && |vb.data[i]| == |vb.thrs|
    requires ForestOk(f, |va.thrs|, |vb.thrs|, depth) && ForestOk(g, |va.thrs|, |vb.thrs|, depth)
    requires Continues(f, g) && |g.sa| == |f.sa| + 1 && |hist| == |f.sa|
    requires forall i :: 0 <= i < n ==> RunAt(m, q, init, f, hist, va, vb, depth, i)
    requires forall i :: 0 <= i < n ==> UpdatedAt(m, p, q, d, TreeAt(g, |f.sa|), va, vb, depth, i)
    ensures forall i :: 0 <= i < n ==> RunAt(m, p, init, g, hist + [d], va, vb, depth, i)
  {
    forall i | 0 <= i < n ensures RunAt(m, p, init, g, hist + [d], va, vb, depth, i) {
      assert UpdatedAt(m, p, q, d, TreeAt(g, |f.sa|), va, vb, depth, i);
      RunStep(m, q, p, init, f, g, hist, d, va, vb, depth, i);
    }
  }

  /** Buckets chosen for the inner nodes of tree `t`. */
  ghost predicate RoundChoices(wa: XGBTreeBuildWorker, wb: XGBTreeBuildWorker, buckets: (nat, nat) -> nat, depth: nat,
                               t: nat)
    requires wa.Valid() && wb.Valid() && depth >= 1
    reads wa, wb
  {
    forall n: nat :: 1 <= n < Pow2(depth - 1) ==> HasThreshold(wa, wb, buckets(t, n))
  }

  /** One party's coins of every round, one for each sample. */
  ghost predicate CoinsFit(coins: nat -> seq<real>, rounds: nat, n: nat) {
    forall t: nat :: t < rounds ==> |coins(t)| == n
  }

  /** The rows that the two parties' coins draw in round `t`. */
  ghost function DrawsOf(a: XGBTreeBuilder, b: XGBTreeBuilder, coinsA: nat -> seq<real>, coinsB: nat -> seq<real>,
                         t: nat): Draws
  {
    Draws(Draw(a.subsample, coinsA(t)), Draw(b.subsample, coinsB(t)))
  }

  /** The rows drawn in every round. */
  ghost function History(a: XGBTreeBuilder, b: XGBTreeBuilder, coinsA: nat -> seq<real>, coinsB: nat -> seq<real>,
                         rounds: nat): seq<Draws>
  {
    seq(rounds, t requires 0 <= t < rounds => DrawsOf(a, b, coinsA, coinsB, t))
  }

  /** Both parties draw a row exactly when both coins are below the rates. */
  lemma SampledIff(rateA: real, rateB: real, coinsA: seq<real>, coinsB: seq<real>, i: nat)
    requires i < |coinsA| && i < |coinsB|
    ensures Sampled(Draws(Draw(rateA, coinsA), Draw(rateB, coinsB)), i) <==>
            (rateA >= 1.0 || coinsA[i] < rateA) && (rateB >= 1.0 || coinsB[i] < rateB)
  {
    DrawnIff(rateA, coinsA, i);
    DrawnIff(rateB, coinsB, i);
  }

  /** Both parties draw sample `i` in every round. */
  ghost predicate AlwaysSampled(hist: seq<Draws>, i: nat) {
    forall t :: 0 <= t < |hist| ==> Sampled(hist[t], i)
  }

  /** In every tree `t` every inner node `n` is split at its chosen bucket `buckets(t, n)`. */
  ghost predicate AllChosen(ta: seq<seq<Ext>>, tb: seq<seq<Ext>>, B: nat, buckets: (nat, nat) -> nat,
                            sa: seq<seq<SplitId>>, sb: seq<seq<SplitId>>)
  {
    |sa| == |sb| && forall t :: 0 <= t < |sa| ==> RoundChosen(ta, tb, B, buckets, t, sa[t], sb[t])
  }

  ghost predicate RoundChosen(ta: seq<seq<Ext>>, tb: seq<seq<Ext>>, B: nat, buckets: (nat, nat) -> nat, t: nat,
                              sa: seq<SplitId>, sb: seq<SplitId>)
  {
    |sa| == |sb| && forall n :: 1 <= n < |sa| ==> ChosenAt(ta, tb, B, buckets(t, n), sa[n], sb[n])
  }

  lemma OneMoreChosen(ta: seq<seq<Ext>>, tb: seq<seq<Ext>>, B: nat, buckets: (nat, nat) -> nat, round: nat -> nat,
                      sa: seq<seq<SplitId>>, sb: seq<seq<SplitId>>, sa': seq<seq<SplitId>>, sb': seq<seq<SplitId>>)
    requires AllChosen(ta, tb, B, buckets, sa, sb) && sa <= sa' && sb <= sb' && |sa'| == |sb'| == |sa| + 1
    requires forall n: nat :: round(n) == buckets(|sa|, n)
    requires |sa'[|sa|]| == |sb'[|sa|]|
    requires FollowsChoices(ta, tb, B, round, sa'[|sa|], sb'[|sa|], 1, |sa'[|sa|]|)
    ensures AllChosen(ta, tb, B, buckets, sa', sb')
  {
    var s, s' := sa'[|sa|], sb'[|sa|];
    forall n | 1 <= n < |s| ensures ChosenAt(ta, tb, B, buckets(|sa|, n), s[n], s'[n]) {
      assert round(n) == buckets(|sa|, n);
    }
    forall t | 0 <= t < |sa'| ensures RoundChosen(ta, tb, B, buckets, t, sa'[t], sb'[t]) {
      assert t < |sa| ==> RoundChosen(ta, tb, B, buckets, t, sa[t], sb[t]);
    }
  }

  /** The training loop: any number of rounds, any gradients, any draws, any splits on buckets that have thresholds. */
  method Boost(m: Modulus, N: nat, a: XGBTreeBuilder, b: XGBTreeBuilder, wa: XGBTreeBuildWorker, wb: XGBTreeBuildWorker,
               initA: seq<int>, initB: seq<int>, rounds: nat, buckets: (nat, nat) -> nat,
               coinsA: nat -> seq<real>, coinsB: nat -> seq<real>)
    returns (pa: seq<int>, pb: seq<int>)
    requires Paired(a, b, wa, wb) && IsPow2(N) && |initA| == |initB| == a.nsamples
    requires a.splitIdentifiers == b.splitIdentifiers == [] && a.leafWeights == b.leafWeights == []
    requires forall t: nat :: t < rounds ==> RoundChoices(wa, wb, buckets, a.maxDepth, t)
    requires CoinsFit(coinsA, rounds, a.nsamples) && CoinsFit(coinsB, rounds, a.nsamples)
    modifies a, b
    ensures |pa| == |pb| == a.nsamples && |a.splitIdentifiers| == |b.splitIdentifiers| == rounds
    ensures ForestOk(ForestOf(a, b), wa.nfeatures, wb.nfeatures, a.maxDepth)
    ensures AllChosen(wa.binnings, wb.binnings, wa.bucketSize, buckets, a.splitIdentifiers, b.splitIdentifiers)
    ensures forall i :: 0 <= i < a.nsamples ==>
              RunAt(m, Shares(pa, pb), Shares(initA, initB), ForestOf(a, b), History(a, b, coinsA, coinsB, rounds),
                    wa.View(), wb.View(), a.maxDepth, i)
  {
    pa, pb := initA, initB;
    ghost var init := Shares(initA, initB);
    forall i | 0 <= i < a.nsamples
      ensures RunAt(m, init, init, ForestOf(a, b), [], wa.View(), wb.View(), a.maxDepth, i)
    {
      CongMultiple(m, pa[i] + pb[i], initA[i] + initB[i], 0);
    }
    for t := 0 to rounds
      invariant |pa| == |pb| == a.nsamples && |a.splitIdentifiers| == |b.splitIdentifiers| == t
      invariant AllChosen(wa.binnings, wb.binnings, wa.bucketSize, buckets, a.splitIdentifiers, b.splitIdentifiers)
      invariant ForestOk(ForestOf(a, b), wa.nfeatures, wb.nfeatures, a.maxDepth)
      invariant forall i :: 0 <= i < a.nsamples ==>
                  RunAt(m, Shares(pa, pb), init, ForestOf(a, b), History(a, b, coinsA, coinsB, t),
                        wa.View(), wb.View(), a.maxDepth, i)
    {
      var round := (n: nat) => buckets(t, n);
      assert RoundChoices(wa, wb, buckets, a.maxDepth, t);
      assert ValidChoices(wa, wb, round, a.maxDepth);
      ghost var hist, sa, sb := History(a, b, coinsA, coinsB, t), a.splitIdentifiers, b.splitIdentifiers;
      pa, pb := BoostRound(m, N, a, b, wa, wb, init, hist, pa, pb, round, coinsA(t), coinsB(t));
      assert hist + [DrawsOf(a, b, coinsA, coinsB, t)] == History(a, b, coinsA, coinsB, t + 1);
      assert TreeOk(TreeAt(ForestOf(a, b), t), wa.nfeatures, wb.nfeatures, a.maxDepth);
      OneMoreChosen(wa.binnings, wb.binnings, wa.bucketSize, buckets, round, sa, sb, a.splitIdentifiers,
                    b.splitIdentifiers);
    }
  }

  /** One round: gradients, tree, predictions. */
  method BoostRound(m: Modulus, N: nat, a: XGBTreeBuilder, b: XGBTreeBuilder, wa: XGBTreeBuildWorker,
                    wb: XGBTreeBuildWorker, ghost init: Shares, ghost hist: seq<Draws>, qa: seq<int>, qb: seq<int>,
                    buckets: nat -> nat, coinsA: seq<real>, coinsB: seq<real>)
    returns (pa: seq<int>, pb: seq<int>)
    requires Paired(a, b, wa, wb) && IsPow2(N) && |init.a| == |init.b| == |qa| == |qb| == a.nsamples
    requires ValidChoices(wa, wb, buckets, a.maxDepth) && |coinsA| == |coinsB| == a.nsamples
    requires ForestOk(ForestOf(a, b), wa.nfeatures, wb.nfeatures, a.maxDepth) && |hist| == |a.splitIdentifiers|
    requires forall i :: 0 <= i < a.nsamples ==>
               RunAt(m, Shares(qa, qb), init, ForestOf(a, b), hist, wa.View(), wb.View(), a.maxDepth, i)
    modifies a, b
    ensures |pa| == |pb| == a.nsamples && |a.splitIdentifiers| == |old(a.splitIdentifiers)| + 1
    ensures old(a.splitIdentifiers) <= a.splitIdentifiers && old(b.splitIdentifiers) <= b.splitIdentifiers
    ensures ForestOk(ForestOf(a, b), wa.nfeatures, wb.nfeatures, a.maxDepth)
    ensures FollowsChoices(wa.binnings, wb.binnings, wa.bucketSize, buckets, a.Tree(), b.Tree(), 1, |a.Tree()|)
    ensures forall i :: 0 <= i < a.nsamples ==>
              RunAt(m, Shares(pa, pb), init, ForestOf(a, b),
                    hist + [Draws(Draw(a.subsample, coinsA), Draw(b.subsample, coinsB))],
                    wa.View(), wb.View(), a.maxDepth, i)
  {
    ghost var f, q := ForestOf(a, b), Shares(qa, qb);
    ghost var d := Draws(Draw(a.subsample, coinsA), Draw(b.subsample, coinsB));
    var ga := AnyShares(a.nsamples);
    var ha := AnyShares(a.nsamples);
    var gb := AnyShares(a.nsamples);
    var hb := AnyShares(a.nsamples);
    a.InitGradients(ga, ha, coinsA);
    b.InitGradients(gb, hb, coinsB);
    ghost var root := Root(Joined(ga, gb), Joined(ha, hb), d);
    var _, _, _, _ := BuildTree(m, N, a, b, wa, wb, buckets, GH(ga, ha), GH(gb, hb), root);
    ghost var g := ForestOf(a, b);
    ForestGrows(f, g, wa.nfeatures, wb.nfeatures, a.maxDepth);
    pa, pb := UpdatePrediction(m, a, b, qa, qb, |a.leafWeights| - 1, wa.View(), wb.View(), root);
    ghost var p := Shares(pa, pb);
    assert LastTree(a, b, |a.leafWeights| - 1) == TreeAt(g, |f.sa|);
    RunSteps(m, q, p, init, f, g, hist, d, wa.View(), wb.View(), a.maxDepth, a.nsamples);
  }

  /** Inference of a training row after a run. */
  method InferTrained(m: Modulus, a: XGBTreeBuilder, b: XGBTreeBuilder, rowA: seq<Ext>, rowB: seq<Ext>,
                      ghost p: Shares, ghost init: Shares, ghost hist: seq<Draws>, ghost va: Side, ghost vb: Side,
                      ghost i: nat)
    returns (ra: int, rb: int)
    requires a.maxDepth == b.maxDepth && i < |va.data| && i < |vb.data|
    requires i < |p.a| && i < |p.b| && i < |init.a| && i < |init.b|
    requires rowA == ToExt(va.data[i]) && rowB == ToExt(vb.data[i])
    requires ForestOk(ForestOf(a, b), |rowA|, |rowB|, a.maxDepth) && |hist| == |a.splitIdentifiers|
    requires RunAt(m, p, init, ForestOf(a, b), hist, va, vb, a.maxDepth, i)
    ensures RowResult(m, p, init, ra + rb, ForestOf(a, b), hist, va, vb, a.maxDepth, i)
  {
    ra, rb := Inference(m, a, b, rowA, rowB);
    RunThenInfer(m, p, init, ra + rb, ForestOf(a, b), hist, va, vb, a.maxDepth, i);
  }

  /** Training then inference: the prediction of every training row falls short of its initial value plus what
      `Inference` returns for it by the value of the trees for which a party did not draw the row; it is equal
      for rows that are always drawn, in particular without sub-sampling. */
  method BoostThenInfer(m: Modulus, N: nat, a: XGBTreeBuilder, b: XGBTreeBuilder, wa: XGBTreeBuildWorker,
                        wb: XGBTreeBuildWorker, initA: seq<int>, initB: seq<int>, rounds: nat,
                        buckets: (nat, nat) -> nat, coinsA: nat -> seq<real>, coinsB: nat -> seq<real>, i: nat,
                        rowA: seq<Ext>, rowB: seq<Ext>)
    returns (pa: seq<int>, pb: seq<int>, ra: int, rb: int)
    requires Paired(a, b, wa, wb) && IsPow2(N) && |initA| == |initB| == a.nsamples
    requires a.splitIdentifiers == b.splitIdentifiers == [] && a.leafWeights == b.leafWeights == []
    requires forall t: nat :: t < rounds ==> RoundChoices(wa, wb, buckets, a.maxDepth, t)
    requires CoinsFit(coinsA, rounds, a.nsamples) && CoinsFit(coinsB, rounds, a.nsamples)
    requires i < a.nsamples && rowA == ToExt(wa.data[i]) && rowB == ToExt(wb.data[i])
    modifies a, b
    ensures |pa| == |pb| == a.nsamples && |a.splitIdentifiers| == rounds
    ensures AllChosen(wa.binnings, wb.binnings, wa.bucketSize, buckets, a.splitIdentifiers, b.splitIdentifiers)
    ensures RowResult(m, Shares(pa, pb), Shares(initA, initB), ra + rb, ForestOf(a, b),
                      History(a, b, coinsA, coinsB, rounds), wa.View(), wb.View(), a.maxDepth, i)
    ensures a.subsample >= 1.0 && b.subsample >= 1.0 ==> AlwaysSampled(History(a, b, coinsA, coinsB, rounds), i)
  {
    pa, pb := Boost(m, N, a, b, wa, wb, initA, initB, rounds, buckets, coinsA, coinsB);
    ra, rb := InferTrained(m, a, b, rowA, rowB, Shares(pa, pb), Shares(initA, initB),
                           History(a, b, coinsA, coinsB, rounds), wa.View(), wb.View(), i);
    NoSubsampling(a, b, coinsA, coinsB, rounds, i);
  }

  lemma NoSubsampling(a: XGBTreeBuilder, b: XGBTreeBuilder, coinsA: nat -> seq<real>, coinsB: nat -> seq<real>,
                      rounds: nat, i: nat)
    ensures a.subsample >= 1.0 && b.subsample >= 1.0 ==> AlwaysSampled(History(a, b, coinsA, coinsB, rounds), i)
  {
  }

  /** Prediction `i` falls short of its initial value plus `r` by the trees that sample `i` missed;
      the two are equal exactly when those trees' values add up to 0 in the ring. */
  ghost predicate Misses(m: Modulus, p: Shares, init: Shares, r: int, f: Forest, hist: seq<Draws>,
                         va: Side, vb: Side, depth: nat, i: nat)
  {
    && i < |p.a| && i < |p.b| && i < |init.a| && i < |init.b| && i < |va.data| && i < |vb.data|
    && ForestOk(f, |va.data[i]|, |vb.data[i]|, depth) && |hist| == |f.sa|
    && var missed := MissedValue(f, hist, ToExt(va.data[i]), ToExt(vb.data[i]), depth, i, |f.sa|);
       FallsShortBy(m, p.a[i] + p.b[i], init.a[i] + init.b[i] + r, missed)
  }

  /** The same, and equality for a sample that is always drawn. */
  ghost predicate RowResult(m: Modulus, p: Shares, init: Shares, r: int, f: Forest, hist: seq<Draws>,
                            va: Side, vb: Side, depth: nat, i: nat)
  {
    && Misses(m, p, init, r, f, hist, va, vb, depth, i)
    && (AlwaysSampled(hist, i) ==> Cong(m, p.a[i] + p.b[i], init.a[i] + init.b[i] + r))
  }

  ghost predicate FallsShortBy(m: Modulus, p: int, full: int, missed: int) {
    Cong(m, p + missed, full) && (Cong(m, p, full) <==> Cong(m, missed, 0))
  }

  lemma RunThenInfer(m: Modulus, p: Shares, init: Shares, r: int, f: Forest, hist: seq<Draws>, va: Side, vb: Side,
                     depth: nat, i: nat)
    requires i < |p.a| && i < |p.b| && i < |init.a| && i < |init.b| && i < |va.data| && i < |vb.data|
    requires ForestOk(f, |va.data[i]|, |vb.data[i]|, depth) && |hist| == |f.sa|
    requires RunAt(m, p, init, f, hist, va, vb, depth, i)
    requires Cong(m, r, ForestValue(f, ToExt(va.data[i]), ToExt(vb.data[i]), depth, |f.sa|))
    ensures RowResult(m, p, init, r, f, hist, va, vb, depth, i)
  {
    var xa, xb := ToExt(va.data[i]), ToExt(vb.data[i]);
    SampledPlusMissed(f, hist, xa, xb, depth, i, |f.sa|);
    FallsShort(m, p.a[i] + p.b[i], init.a[i] + init.b[i], r,
               SampledValue(f, hist, xa, xb, depth, i, |f.sa|), MissedValue(f, hist, xa, xb, depth, i, |f.sa|));
  }

  lemma FallsShort(m: Modulus, p: int, init: int, r: int, sampled: int, missed: int)
    requires Cong(m, p, init + sampled) && Cong(m, r, sampled + missed)
    ensures FallsShortBy(m, p, init + r, missed)
    ensures missed == 0 ==> Cong(m, p, init + r)
  {
    CongMultiple(m, missed, missed, 0);
    CongMultiple(m, init, init, 0);
    CongAdd(m, p, init + sampled, missed, missed);
    CongAdd(m, init, init, r, sampled + missed);
    CongSym(m, init + r, init + (sampled + missed));
    CongTrans(m, p + missed, init + sampled + missed, init + r);
    if Cong(m, missed, 0) {
      CongSub(m, p + missed, init + r, missed, 0);
    }
    if Cong(m, p, init + r) {
      CongSub(m, p + missed, init + r, p, init + r);
    }
  }
}

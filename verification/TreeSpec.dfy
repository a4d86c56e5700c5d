/** What the two-party tree training must keep: paths, node sample sets, gradient shares, histograms. */
module TreeSpec {
  import opened Arith
  import opened Ring
  import opened Binning
  import opened BinMatVec
  import opened Worker

  /** What one party knows of a split; only the holder of the feature knows the condition. */
  datatype SplitId = SplitId(self: bool, feature: nat, threshold: Ext)

  /** Shares of gradient and hessian. */
  datatype GH = GH(g: seq<int>, h: seq<int>)

  /** The rows each party draws for a tree; `[]` draws all. */
  datatype Draws = Draws(a: seq<Bit>, b: seq<Bit>)

  /** What a tree starts from: the joint gradient and hessian, and the drawn rows. */
  datatype Root = Root(g: seq<int>, h: seq<int>, draw: Draws)

  ghost predicate DrawsFit(root: Root) {
    (root.draw.a == [] || |root.draw.a| == |root.g|) && (root.draw.b == [] || |root.draw.b| == |root.g|)
  }

  // ------------------------------------------------------------------ paths

  /** As far as one party can tell, `x` may go to the given side of the split. */
  predicate Allows(split: SplitId, x: seq<Ext>, left: bool) {
    split.self ==> split.feature < |x| && (Le(x[split.feature], split.threshold) <==> left)
  }

  /** As far as one party can tell, `x` reaches node `idx`. */
  predicate Path(tree: seq<SplitId>, x: seq<Ext>, idx: nat)
    requires 1 <= idx < 2 * |tree|
  {
    idx == 1 || (Path(tree, x, idx / 2) && Allows(tree[idx / 2], x, idx % 2 == 0))
  }

  /** Adding splits does not change the way to existing nodes. */
  lemma {:induction false} PathPrefix(tree: seq<SplitId>, more: seq<SplitId>, x: seq<Ext>, idx: nat)
    requires 1 <= idx < 2 * |tree|
    ensures Path(tree + more, x, idx) == Path(tree, x, idx)
  {
    if idx > 1 {
      PathPrefix(tree, more, x, idx / 2);
    }
  }

  /** Every split of the tree has exactly one holder, and holders split on features they have. */
  ghost predicate Matched(ta: seq<SplitId>, tb: seq<SplitId>, nfa: nat, nfb: nat) {
    |ta| == |tb| && forall p :: 1 <= p < |ta| ==> OneHolder(ta, tb, nfa, nfb, p)
  }

  ghost predicate OneHolder(ta: seq<SplitId>, tb: seq<SplitId>, nfa: nat, nfb: nat, p: nat)
    requires p < |ta| == |tb|
  {
    && ta[p].self != tb[p].self
    && (ta[p].self ==> ta[p].feature < nfa)
    && (tb[p].self ==> tb[p].feature < nfb)
  }

  /** The child that an ordinary decision tree would visit after node `p`. */
  function Child(ta: seq<SplitId>, tb: seq<SplitId>, xa: seq<Ext>, xb: seq<Ext>, p: nat): nat
    requires p < |ta| && p < |tb|
  {
    if Allows(ta[p], xa, true) && Allows(tb[p], xb, true) then 2 * p else 2 * p + 1
  }

  /** The node that an ordinary decision tree visits at the given depth; the root has depth 0. */
  function Walk(ta: seq<SplitId>, tb: seq<SplitId>, xa: seq<Ext>, xb: seq<Ext>, depth: nat): (idx: nat)
    requires |ta| == |tb| >= Pow2(depth)
    ensures Pow2(depth) <= idx < 2 * Pow2(depth)
  {
    if depth == 0 then 1 else Child(ta, tb, xa, xb, Walk(ta, tb, xa, xb, depth - 1))
  }

  /** The two parties' paths meet in exactly the node that the ordinary tree visits. */
  lemma {:induction false} PathsMeetOnce(ta: seq<SplitId>, tb: seq<SplitId>, xa: seq<Ext>, xb: seq<Ext>, depth: nat,
                                         idx: nat)
    requires Matched(ta, tb, |xa|, |xb|) && |ta| >= Pow2(depth)
    requires Pow2(depth) <= idx < 2 * Pow2(depth)
    ensures Path(ta, xa, idx) && Path(tb, xb, idx) <==> idx == Walk(ta, tb, xa, xb, depth)
    decreases depth
  {
    if depth > 0 {
      PathsMeetOnce(ta, tb, xa, xb, depth - 1, idx / 2);
      var p := Walk(ta, tb, xa, xb, depth - 1);
      assert OneHolder(ta, tb, |xa|, |xb|, p) && OneHolder(ta, tb, |xa|, |xb|, idx / 2);
    }
  }

  // ------------------------------------------------------------ sample sets

  /** The training samples that reach a node as far as one party can tell. */
  ghost function Reaching(tree: seq<SplitId>, data: seq<seq<real>>, idx: nat): set<nat>
    requires 1 <= idx < 2 * |tree|
  {
    set c | 0 <= c < |data| && Path(tree, ToExt(data[c]), idx)
  }

  /** The training samples of a node. */
  ghost function NodeSet(ta: seq<SplitId>, tb: seq<SplitId>, da: seq<seq<real>>, db: seq<seq<real>>, idx: nat): set<nat>
    requires 1 <= idx < 2 * |ta| && |ta| == |tb|
  {
    Reaching(ta, da, idx) * Reaching(tb, db, idx)
  }

  lemma ReachingPrefix(tree: seq<SplitId>, s: SplitId, data: seq<seq<real>>, idx: nat)
    requires 1 <= idx < 2 * |tree|
    ensures Reaching(tree + [s], data, idx) == Reaching(tree, data, idx)
  {
    forall c | 0 <= c < |data| ensures Path(tree + [s], ToExt(data[c]), idx) == Path(tree, ToExt(data[c]), idx) {
      PathPrefix(tree, [s], ToExt(data[c]), idx);
    }
  }

  /** The split sends exactly the samples of `left` to the left. */
  ghost predicate SendsLeft(s: SplitId, data: seq<seq<real>>, left: set<nat>) {
    forall c :: 0 <= c < |data| ==> s.feature < |data[c]| && (c in left <==> Le(Fin(data[c][s.feature]), s.threshold))
  }

  /** Children of a node that this party splits: the samples to the left, and the others. */
  lemma ReachingHolder(tree: seq<SplitId>, s: SplitId, data: seq<seq<real>>, left: set<nat>)
    requires |tree| >= 1 && s.self
    requires SendsLeft(s, data, left)
    ensures Reaching(tree + [s], data, 2 * |tree|) == Reaching(tree, data, |tree|) * left
    ensures Reaching(tree + [s], data, 2 * |tree| + 1) == Reaching(tree, data, |tree|) - left
  {
    ReachingPrefix(tree, s, data, |tree|);
  }

  /** Children of a node that the other party splits. */
  lemma ReachingFollower(tree: seq<SplitId>, s: SplitId, data: seq<seq<real>>)
    requires |tree| >= 1 && !s.self
    ensures Reaching(tree + [s], data, 2 * |tree|) == Reaching(tree, data, |tree|)
    ensures Reaching(tree + [s], data, 2 * |tree| + 1) == Reaching(tree, data, |tree|)
  {
    ReachingPrefix(tree, s, data, |tree|);
  }

  /** Two children partition their parent's samples. */
  lemma ChildrenPartition(ta: seq<SplitId>, tb: seq<SplitId>, da: seq<seq<real>>, db: seq<seq<real>>, p: nat, nfa: nat,
                          nfb: nat)
    requires 1 <= p < |ta| && Matched(ta, tb, nfa, nfb) && |da| == |db|
    requires forall c :: 0 <= c < |da| ==> |da[c]| == nfa && |db[c]| == nfb
    ensures NodeSet(ta, tb, da, db, 2 * p) !! NodeSet(ta, tb, da, db, 2 * p + 1)
    ensures NodeSet(ta, tb, da, db, 2 * p) + NodeSet(ta, tb, da, db, 2 * p + 1) == NodeSet(ta, tb, da, db, p)
  {
    assert OneHolder(ta, tb, nfa, nfb, p);
  }

  // ---------------------------------------------------------------- shares

  /** `x + y` is `r` on the samples of `s` and zero elsewhere. */
  ghost predicate MaskedShares(m: Modulus, x: seq<int>, y: seq<int>, r: seq<int>, s: set<nat>) {
    |x| == |y| == |r| && forall c :: 0 <= c < |r| ==> MaskedAt(m, x, y, r, s, c)
  }

  ghost predicate MaskedAt(m: Modulus, x: seq<int>, y: seq<int>, r: seq<int>, s: set<nat>, c: nat)
    requires c < |r| && |x| == |y| == |r|
  {
    Cong(m, x[c] + y[c], if c in s then r[c] else 0)
  }

  /** `x' + y'` is `x + y` where the bit is set and zero elsewhere. */
  ghost predicate Restricted(m: Modulus, x: seq<int>, y: seq<int>, bits: seq<Bit>, x': seq<int>, y': seq<int>) {
    && |x| == |y| == |x'| == |y'| == |bits|
    && forall c :: 0 <= c < |x| ==> RestrictedAt(m, x, y, bits, x', y', c)
  }

  ghost predicate RestrictedAt(m: Modulus, x: seq<int>, y: seq<int>, bits: seq<Bit>, x': seq<int>, y': seq<int>, c: nat)
    requires c < |x| && |x| == |y| == |x'| == |y'| == |bits|
  {
    Cong(m, x'[c] + y'[c], (x[c] + y[c]) * bits[c])
  }

  /** `r` is `x - y`. */
  ghost predicate Difference(m: Modulus, r: seq<int>, x: seq<int>, y: seq<int>) {
    |r| == |x| == |y| && forall c :: 0 <= c < |x| ==> DifferenceAt(m, r, x, y, c)
  }

  ghost predicate DifferenceAt(m: Modulus, r: seq<int>, x: seq<int>, y: seq<int>, c: nat)
    requires c < |r| && |r| == |x| == |y|
  {
    Cong(m, r[c], x[c] - y[c])
  }

  /** Multiplying by the bits of `left` restricts the samples to `left`. */
  lemma MaskLeft(m: Modulus, x: seq<int>, y: seq<int>, r: seq<int>, s: set<nat>, b: seq<Bit>, left: set<nat>,
                 x': seq<int>, y': seq<int>)
    requires MaskedShares(m, x, y, r, s) && |b| == |r| && Marks(b, left)
    requires Restricted(m, x, y, b, x', y')
    ensures MaskedShares(m, x', y', r, s * left)
  {
    forall c | 0 <= c < |r| ensures MaskedAt(m, x', y', r, s * left, c) {
      assert MaskedAt(m, x, y, r, s, c) && RestrictedAt(m, x, y, b, x', y', c);
      CongMul(m, x[c] + y[c], if c in s then r[c] else 0, b[c]);
      CongTrans(m, x'[c] + y'[c], (x[c] + y[c]) * b[c], (if c in s then r[c] else 0) * b[c]);
    }
  }

  /** Parent minus left is the rest. */
  lemma MaskRight(m: Modulus, x: seq<int>, y: seq<int>, r: seq<int>, s: set<nat>, left: set<nat>,
                  xl: seq<int>, yl: seq<int>, xr: seq<int>, yr: seq<int>)
    requires MaskedShares(m, x, y, r, s) && MaskedShares(m, xl, yl, r, s * left)
    requires Difference(m, xr, x, xl) && Difference(m, yr, y, yl)
    ensures MaskedShares(m, xr, yr, r, s - left)
  {
    forall c | 0 <= c < |r| ensures MaskedAt(m, xr, yr, r, s - left, c) {
      assert MaskedAt(m, x, y, r, s, c) && MaskedAt(m, xl, yl, r, s * left, c);
      assert DifferenceAt(m, xr, x, xl, c) && DifferenceAt(m, yr, y, yl, c);
      var p, l := if c in s then r[c] else 0, if c in s * left then r[c] else 0;
      CongSub(m, x[c] + y[c], p, xl[c] + yl[c], l);
      CongAdd(m, xr[c], x[c] - xl[c], yr[c], y[c] - yl[c]);
      assert (x[c] - xl[c]) + (y[c] - yl[c]) == (x[c] + y[c]) - (xl[c] + yl[c]);
      CongTrans(m, xr[c] + yr[c], (x[c] + y[c]) - (xl[c] + yl[c]), p - l);
    }
  }

  /** Sums of shares over `s`, when the shares are zero outside `t`. */
  lemma SumsOfMasked(m: Modulus, x: seq<int>, y: seq<int>, r: seq<int>, s: set<nat>, t: set<nat>)
    requires MaskedShares(m, x, y, r, t)
    ensures Cong(m, TwoSums(x, y, s), MaskSum(r, s * t, |r|))
  {
    forall c: nat | c < |r| ensures Cong(m, x[c] + y[c], if c in t then r[c] else 0) {
      assert MaskedAt(m, x, y, r, t, c);
    }
    MaskSumShares(m, x, y, r, s, t, |r|);
  }

  // ------------------------------------------------------------- histograms

  /** The samples of a node that each party counts into its own buckets. */
  datatype Counted = Counted(a: set<nat>, b: set<nat>)

  /** The samples that the holder of bucket `r` counts; rank 0 holds the first `n0` buckets. */
  ghost function CountedIn(s: Counted, n0: nat, r: nat): set<nat> {
    if r < n0 then s.a else s.b
  }

  /** The samples to the left of bucket `r` of the joint histogram, rank 0's buckets first. */
  ghost function JointLeft(va: Side, vb: Side, B: nat, r: nat): set<nat>
    requires ValidSide(va, B) && ValidSide(vb, B) && r < Buckets(|va.thrs|, B) + Buckets(|vb.thrs|, B)
  {
    if r < Buckets(|va.thrs|, B) then LeftOf(va, B, r) else LeftOf(vb, B, r - Buckets(|va.thrs|, B))
  }

  /** Entry `r` of the shared histogram is the sum of `root` over the counted samples to the left of `r`. */
  ghost predicate EntryOk(m: Modulus, ga: seq<int>, gb: seq<int>, va: Side, vb: Side, B: nat, root: seq<int>,
                          s: Counted, r: nat)
    requires ValidSide(va, B) && ValidSide(vb, B) && r < Buckets(|va.thrs|, B) + Buckets(|vb.thrs|, B)
  {
    && r < |ga| && r < |gb|
    && Cong(m, ga[r] + gb[r], MaskSum(root, JointLeft(va, vb, B, r) * CountedIn(s, Buckets(|va.thrs|, B), r), |root|))
  }

  ghost predicate HistOk(m: Modulus, ga: seq<int>, gb: seq<int>, va: Side, vb: Side, B: nat, root: seq<int>,
                         s: Counted)
  {
    && ValidSide(va, B) && ValidSide(vb, B)
    && |ga| == |gb| == Buckets(|va.thrs|, B) + Buckets(|vb.thrs|, B)
    && forall r: nat :: r < |ga| ==> EntryOk(m, ga, gb, va, vb, B, root, s, r)
  }

  /** Histogram subtraction: parent minus one child is the other child's histogram. */
  lemma SiblingHistogram(m: Modulus, pa: seq<int>, pb: seq<int>, la: seq<int>, lb: seq<int>, ra: seq<int>, rb: seq<int>,
                         va: Side, vb: Side, B: nat, root: seq<int>, sp: Counted, sl: Counted, sr: Counted)
    requires HistOk(m, pa, pb, va, vb, B, root, sp) && HistOk(m, la, lb, va, vb, B, root, sl)
    requires sl.a !! sr.a && sl.a + sr.a == sp.a && sl.b !! sr.b && sl.b + sr.b == sp.b
    requires Difference(m, ra, pa, la) && Difference(m, rb, pb, lb)
    ensures HistOk(m, ra, rb, va, vb, B, root, sr)
  {
    forall r: nat | r < |ra| ensures EntryOk(m, ra, rb, va, vb, B, root, sr, r) {
      assert EntryOk(m, pa, pb, va, vb, B, root, sp, r) && EntryOk(m, la, lb, va, vb, B, root, sl, r);
      assert DifferenceAt(m, ra, pa, la, r) && DifferenceAt(m, rb, pb, lb, r);
      var left, n0 := JointLeft(va, vb, B, r), Buckets(|va.thrs|, B);
      var p, l, r' := left * CountedIn(sp, n0, r), left * CountedIn(sl, n0, r), left * CountedIn(sr, n0, r);
      assert p == l + r';
      MaskSumUnion(root, l, r', |root|);
      CongSub(m, pa[r] + pb[r], MaskSum(root, p, |root|), la[r] + lb[r], MaskSum(root, l, |root|));
      CongAdd(m, ra[r], pa[r] - la[r], rb[r], pb[r] - lb[r]);
      CongTrans(m, ra[r] + rb[r], (pa[r] + pb[r]) - (la[r] + lb[r]), MaskSum(root, r', |root|));
    }
  }

  lemma {:induction false} BucketsAdd(f: nat, g: nat, B: nat)
    ensures Buckets(f + g, B) == Buckets(f, B) + Buckets(g, B)
  {
    if g > 0 {
      BucketsAdd(f, g - 1, B);
    }
  }

  /** The last bucket of any feature holds the total of the samples that the feature's holder counts. */
  lemma LastBucketIsTotal(m: Modulus, ga: seq<int>, gb: seq<int>, va: Side, vb: Side, B: nat, root: seq<int>,
                          s: Counted, f: nat)
    requires HistOk(m, ga, gb, va, vb, B, root, s) && |va.data| == |vb.data| == |root|
    requires f < |va.thrs| + |vb.thrs|
    ensures 0 <= Row(f, B - 1, B) < |ga|
    ensures Cong(m, ga[Row(f, B - 1, B)] + gb[Row(f, B - 1, B)],
                 MaskSum(root, if f < |va.thrs| then s.a else s.b, |root|))
  {
    var r := Row(f, B - 1, B);
    LastBucketAt(va, vb, B, f);
    assert EntryOk(m, ga, gb, va, vb, B, root, s, r);
    var left, t := JointLeft(va, vb, B, r), CountedIn(s, Buckets(|va.thrs|, B), r);
    forall c: nat | c < |root| ensures c in left * t <==> c in t {
      LastBucketLeft(va, vb, B, f, c);
    }
    MaskSumSame(root, left * t, t, |root|);
  }

  /** Where the last bucket of feature `f` lies in the joint histogram. */
  lemma LastBucketAt(va: Side, vb: Side, B: nat, f: nat)
    requires ValidSide(va, B) && ValidSide(vb, B) && f < |va.thrs| + |vb.thrs|
    ensures 0 <= Row(f, B - 1, B) < Buckets(|va.thrs|, B) + Buckets(|vb.thrs|, B)
    ensures Row(f, B - 1, B) < Buckets(|va.thrs|, B) <==> f < |va.thrs|
    ensures f >= |va.thrs| ==> Row(f, B - 1, B) == Buckets(|va.thrs|, B) + Row(f - |va.thrs|, B - 1, B)
  {
    var na := |va.thrs|;
    BucketsAdd(na, |vb.thrs|, B);
    RowInRange(f, B - 1, B, na + |vb.thrs|);
    if f < na {
      RowInRange(f, B - 1, B, na);
    } else {
      BucketsAdd(na, f - na, B);
      RowInRange(f - na, B - 1, B, |vb.thrs|);
    }
  }

  lemma LastBucketLeft(va: Side, vb: Side, B: nat, f: nat, c: nat)
    requires ValidSide(va, B) && ValidSide(vb, B) && f < |va.thrs| + |vb.thrs| && c < |va.data| == |vb.data|
    requires 0 <= Row(f, B - 1, B) < Buckets(|va.thrs|, B) + Buckets(|vb.thrs|, B)
    ensures c in JointLeft(va, vb, B, Row(f, B - 1, B))
  {
    LastBucketAt(va, vb, B, f);
    var v, g := if f < |va.thrs| then va else vb, if f < |va.thrs| then f else f - |va.thrs|;
    RowInRange(g, B - 1, B, |v.thrs|);
    LastBucketHoldsAll(v.thrs[g], B, Column(v.data, g), c);
  }
}

/** Quantile binning of one feature column: `experimental/squirrel/binning.cc`. */
module Binning {
  import opened Arith

  /** A double that is not NaN and not minus infinity. */
  datatype Ext = Fin(v: real) | Inf

  predicate Le(a: Ext, b: Ext) {
    b.Inf? || (a.Fin? && a.v <= b.v)
  }

  predicate Lt(a: Ext, b: Ext) {
    a.Fin? && (b.Inf? || a.v < b.v)
  }

  const EPS: real := 0.0000000001

  predicate MathNeq(x: real, y: real) {
    x - y >= EPS || y - x >= EPS
  }

  /** The number of shares of at most `b` that make up `a`. */
  ghost function Shares(a: nat, b: nat): nat
    requires b > 0
  {
    if a <= b then if a == 0 then 0 else 1 else 1 + Shares(a - b, b)
  }

  lemma {:induction false} SharesIsCeilDiv(a: nat, b: nat)
    requires b > 0
    ensures CeilDiv(a, b) == Shares(a, b)
  {
    if a <= b {
      DivModUnique(a + b - 1, b, if a == 0 then 0 else 1, if a == 0 then b - 1 else a - 1);
    } else {
      SharesIsCeilDiv(a - b, b);
      DivBounds(a - 1, b);
      DivModUnique(a + b - 1, b, (a - 1) / b + 1, (a - 1) % b);
    }
  }

  // ---------------------------------------------------------------- sorting

  predicate SortedReals(s: seq<real>) {
    forall i, j :: 0 <= i < j < |s| ==> s[i] <= s[j]
  }

  function Insert(v: real, s: seq<real>): (r: seq<real>)
    ensures multiset(r) == multiset(s) + multiset{v}
  {
    if s == [] || v <= s[0] then [v] + s
    else
      assert s == [s[0]] + s[1..];
      [s[0]] + Insert(v, s[1..])
  }

  lemma InsertMembers(v: real, s: seq<real>, y: real)
    ensures y in Insert(v, s) <==> y == v || y in s
  {
    assert y in Insert(v, s) <==> y in multiset(Insert(v, s));
    assert y in s <==> y in multiset(s);
  }

  lemma {:induction false} InsertSorted(v: real, s: seq<real>)
    requires SortedReals(s)
    ensures SortedReals(Insert(v, s))
  {
    if s != [] && v > s[0] {
      InsertSorted(v, s[1..]);
      var r := Insert(v, s[1..]);
      forall i | 0 <= i < |r| ensures s[0] <= r[i] {
        InsertMembers(v, s[1..], r[i]);
      }
      assert Insert(v, s) == [s[0]] + r;
    }
  }

  function Sort(x: seq<real>): (s: seq<real>)
    ensures multiset(s) == multiset(x) && |s| == |x|
  {
    if x == [] then [] else
      assert x == [x[0]] + x[1..];
      var s := Insert(x[0], Sort(x[1..]));
      assert |multiset(s)| == |multiset(x)|;
      s
  }

  lemma {:induction false} SortIsSorted(x: seq<real>)
    ensures SortedReals(Sort(x))
  {
    if x != [] {
      SortIsSorted(x[1..]);
      InsertSorted(x[0], Sort(x[1..]));
    }
  }

  lemma SortMembers(x: seq<real>, v: real)
    ensures v in Sort(x) <==> v in x
  {
    assert v in Sort(x) <==> v in multiset(Sort(x));
    assert v in x <==> v in multiset(x);
  }

  lemma SortBounded(x: seq<real>, d: real)
    requires x != [] && forall i :: 0 <= i < |x| ==> x[i] <= d
    ensures Bounded(Sort(x), d)
    ensures (forall v :: v in x ==> d - v < EPS) <==> d - Sort(x)[0] < EPS
  {
    SortIsSorted(x);
    var s := Sort(x);
    BoundedMeaning(s, d);
    forall i | 0 <= i < |s| ensures s[i] <= d { SortMembers(x, s[i]); }
    SortMembers(x, s[0]);
    forall v | v in x ensures s[0] <= v { SortMembers(x, v); }
  }

  // ------------------------------------------------------------- categories

  function LastOr(c: seq<real>, d: real): real {
    if c == [] then d else c[|c| - 1]
  }

  /** The values of `s` that differ from the previously kept one; `d` stands before the first. */
  ghost function Categories(s: seq<real>, d: real): seq<real> {
    if s == [] then [] else
      var c := Categories(s[..|s| - 1], d);
      var v := s[|s| - 1];
      if MathNeq(v, LastOr(c, d)) then c + [v] else c
  }

  ghost predicate StrictlyIncreasing(c: seq<real>) {
    forall i, j :: 0 <= i < j < |c| ==> c[i] < c[j]
  }

  lemma CategoriesStep(s: seq<real>, d: real, i: nat)
    requires i < |s|
    ensures Categories(s[..i + 1], d) ==
            if MathNeq(s[i], LastOr(Categories(s[..i], d), d)) then Categories(s[..i], d) + [s[i]]
            else Categories(s[..i], d)
  {
    assert s[..i + 1][..i] == s[..i];
  }

  lemma {:induction false} CategoriesPrefix(s: seq<real>, d: real, i: nat)
    requires i <= |s|
    ensures Categories(s[..i], d) <= Categories(s, d)
    decreases |s| - i
  {
    if i == |s| {
      assert s[..i] == s;
    } else {
      CategoriesStep(s, d, i);
      CategoriesPrefix(s, d, i + 1);
    }
  }

  /** `s` is sorted and no element exceeds `d`; stated without quantifiers to keep the scan's proof cheap. */
  ghost predicate Bounded(s: seq<real>, d: real) {
    s == [] || (s[|s| - 1] <= d && Bounded(s[..|s| - 1], s[|s| - 1]))
  }

  lemma {:induction false} BoundedMeaning(s: seq<real>, d: real)
    ensures Bounded(s, d) <==> SortedReals(s) && forall i :: 0 <= i < |s| ==> s[i] <= d
  {
    if s != [] {
      BoundedMeaning(s[..|s| - 1], s[|s| - 1]);
      assert forall i :: 0 <= i < |s| - 1 ==> s[..|s| - 1][i] == s[i];
    }
  }

  lemma {:induction false} CategoriesShape(s: seq<real>, d: real)
    requires Bounded(s, d)
    ensures StrictlyIncreasing(Categories(s, d))
    ensures forall v :: v in Categories(s, d) ==> v in s
    ensures Categories(s, d) == [] <==> s == [] || !MathNeq(s[0], d)
  {
    if s != [] {
      var p := s[..|s| - 1];
      BoundedMeaning(s, d);
      BoundedMeaning(p, d);
      CategoriesShape(p, d);
      var c := Categories(p, d);
      if c != [] {
        assert c[|c| - 1] in p;
        assert LastOr(c, d) <= s[|s| - 1];
        forall v | v in Categories(s, d) ensures v in s {
          if v in c { assert v in p; }
        }
      }
    }
  }

  /** `u` is at most `v` and counts as equal to it. */
  predicate Covers(u: real, v: real) {
    u <= v < u + 0.0000000001
  }

  ghost predicate Gaps(c: seq<real>) {
    forall i :: 0 <= i < |c| - 1 ==> c[i + 1] - c[i] >= 0.0000000001
  }

  /** Categories start with the smallest value, lie at least 1e-10 apart, and every value lies right above one. */
  lemma {:induction false} CategoriesCover(s: seq<real>, d: real)
    requires Bounded(s, d) && Categories(s, d) != []
    ensures Categories(s, d)[0] == s[0] && Gaps(Categories(s, d))
    ensures forall j :: 0 <= j < |s| ==> Covered(Categories(s, d), s[j])
  {
    var p := s[..|s| - 1];
    LastCategory(s, d);
    if p == [] {
      assert Categories(s, d) == [s[0]];
      CoverFirst(s, Categories(s, d));
    } else {
      CategoriesCover(p, d);
      CoverStep(s, p, Categories(p, d), Categories(s, d));
    }
  }

  lemma CoverFirst(s: seq<real>, c: seq<real>)
    requires |s| == 1 && c == [s[0]]
    ensures Gaps(c) && forall j :: 0 <= j < |s| ==> Covered(c, s[j])
  {
    assert Covers(c[0], s[0]);
  }

  lemma LastCategory(s: seq<real>, d: real)
    requires Bounded(s, d) && Categories(s, d) != []
    ensures var p := s[..|s| - 1];
            Bounded(p, d) && (Categories(p, d) == [] <==> p == []) && LastOr(Categories(p, d), s[|s| - 1]) <= s[|s| - 1]
  {
    var p := s[..|s| - 1];
    BoundedMeaning(s, d);
    BoundedMeaning(p, d);
    CategoriesShape(p, d);
    CategoriesShape(s, d);
    if p != [] {
      assert p[0] == s[0];
      assert LastOr(Categories(p, d), d) in p;
    }
  }

  lemma CoverStep(s: seq<real>, p: seq<real>, b: seq<real>, c: seq<real>)
    requires s != [] && p == s[..|s| - 1] && b != [] && Gaps(b) && b[|b| - 1] <= s[|s| - 1]
    requires c == if MathNeq(s[|s| - 1], b[|b| - 1]) then b + [s[|s| - 1]] else b
    requires forall j :: 0 <= j < |p| ==> Covered(b, p[j])
    ensures c[0] == b[0] && Gaps(c) && forall j :: 0 <= j < |s| ==> Covered(c, s[j])
  {
    assert Covers(c[|c| - 1], s[|s| - 1]);
    forall j | 0 <= j < |s| ensures Covered(c, s[j]) {
      if j < |s| - 1 {
        assert Covered(b, p[j]);
        CoveredStill(b, c, s[j]);
      }
    }
  }

  ghost predicate Covered(c: seq<real>, v: real) {
    exists i :: 0 <= i < |c| && Covers(c[i], v)
  }

  lemma CoveredStill(b: seq<real>, c: seq<real>, v: real)
    requires Covered(b, v) && b <= c
    ensures Covered(c, v)
  {
    var i :| 0 <= i < |b| && Covers(b[i], v);
    assert c[i] == b[i];
  }

  /** State of the category scan before position `idx`. */
  ghost predicate CatInv(s: seq<real>, d: real, nb: nat, idx: nat, fast: bool, vc: seq<real>, last: real) {
    && |vc| <= nb + 1
    && (if fast then idx > 0 && |vc| == nb + 1 && vc <= Categories(s, d)
        else idx <= |s| && vc == Categories(s[..idx], d) && last == LastOr(vc, d))
    && (vc != [] ==> forall p :: idx <= p < |s| ==> last <= s[p])
    && (idx > 0 && s != [] ==> (vc == [] <==> !MathNeq(s[0], d)))
  }

  lemma CatStep(s: seq<real>, d: real, nb: nat, idx: nat, fast: bool, vc: seq<real>, last: real)
    requires Bounded(s, d) && CatInv(s, d, nb, idx, fast, vc, last) && idx < |s|
    ensures var diff := MathNeq(s[idx], last);
            var grow := !fast && diff && |vc| <= nb;
            var fast' := fast || (diff && |vc| > nb);
            var vc' := if grow then vc + [s[idx]] else vc;
            && CatInv(s, d, nb, idx + 1, fast', vc', if !fast && diff then s[idx] else last)
            && (diff ==> CatInv(s, d, nb, idx + 1, fast', vc', s[idx]))
  {
    BoundedMeaning(s, d);
    if !fast {
      BoundedMeaning(s[..idx], d);
      CategoriesStep(s, d, idx);
      CategoriesPrefix(s, d, idx + 1);
      CategoriesShape(s[..idx], d);
      assert idx == 0 ==> Categories(s[..0], d) == [];
    }
  }

  lemma CatJump(s: seq<real>, d: real, nb: nat, idx: nat, vc: seq<real>, last: real, next: nat)
    requires CatInv(s, d, nb, idx, true, vc, last) && 0 < idx <= next
    ensures CatInv(s, d, nb, next, true, vc, last)
  {
  }

  // ------------------------------------------------------------- thresholds

  ghost predicate Finite(thr: seq<Ext>, k: nat)
    requires k <= |thr|
  {
    forall i :: 0 <= i < k ==> thr[i].Fin?
  }

  /** Finite, strictly increasing thresholds taken from the sample, followed by infinity. */
  ghost predicate ValidThresholds(thr: seq<Ext>, nbuckets: nat) {
    && 1 <= |thr| <= nbuckets
    && thr[|thr| - 1].Inf?
    && Finite(thr, |thr| - 1)
    && forall i, j :: 0 <= i < j < |thr| ==> Lt(thr[i], thr[j])
  }

  function ToExt(c: seq<real>): (r: seq<Ext>)
    ensures |r| == |c| && forall i :: 0 <= i < |c| ==> r[i] == Fin(c[i])
  {
    seq(|c|, i requires 0 <= i < |c| => Fin(c[i]))
  }

  /** The first position at which a cut after `cuts` may be made. */
  ghost function Target(cuts: seq<nat>, n: nat, nbuckets: nat): nat
    requires |cuts| + 1 < nbuckets
    requires cuts != [] ==> cuts[|cuts| - 1] < n
  {
    if cuts == [] then Shares(n, nbuckets)
    else cuts[|cuts| - 1] + Shares(n - cuts[|cuts| - 1], nbuckets - |cuts|)
  }

  /** From `lo` on, `hi` is the first sample that differs from `w` (`hi == |s|`: none does). */
  ghost predicate FirstDiffering(s: seq<real>, lo: nat, hi: nat, w: real) {
    && hi <= |s|
    && (hi < |s| ==> lo <= hi && MathNeq(s[hi], w))
    && forall p :: lo <= p < hi ==> !MathNeq(s[p], w)
  }

  /** The scan has met more than `nb + 1` categories before `idx`, and skips from then on. */
  ghost predicate Skips(s: seq<real>, d: real, nb: nat, idx: nat) {
    |Categories(s[..if idx < |s| then idx else |s|], d)| > nb + 1
  }

  /** While skipping: the category at which skipping began, or the last cut's value if that is larger. */
  ghost function SkipValue(s: seq<real>, d: real, nb: nat, cuts: seq<nat>): real
    requires |Categories(s, d)| > nb + 1 && (cuts != [] ==> cuts[|cuts| - 1] < |s|)
  {
    var v := Categories(s, d)[nb + 1];
    if cuts != [] && s[cuts[|cuts| - 1]] > v then s[cuts[|cuts| - 1]] else v
  }

  /** The value samples are compared with from position `lo` on, after `cuts`. */
  ghost function LastKept(s: seq<real>, d: real, nb: nat, cuts: seq<nat>, lo: nat): real
    requires lo < |s| && (cuts != [] ==> cuts[|cuts| - 1] < |s|)
  {
    if Skips(s, d, nb, lo) then
      CategoriesPrefix(s, d, lo);
      SkipValue(s, d, nb, cuts)
    else LastOr(Categories(s[..lo], d), d)
  }

  /** After the cuts `before`, `hi` is the first differing sample at or after the quantile target. */
  ghost predicate NextCut(s: seq<real>, d: real, before: seq<nat>, hi: nat, nbuckets: nat)
    requires |before| + 1 < nbuckets
    requires before != [] ==> before[|before| - 1] < |s|
  {
    var lo := Target(before, |s|, nbuckets);
    if lo < |s| then FirstDiffering(s, lo, hi, LastKept(s, d, nbuckets, before, lo)) else hi == |s|
  }

  /** Every cut is the first differing sample at or after its quantile target; cut values increase. */
  ghost predicate GreedyCuts(s: seq<real>, d: real, cuts: seq<nat>, nbuckets: nat) {
    cuts == [] ||
    (var before, c := cuts[..|cuts| - 1], cuts[|cuts| - 1];
     && GreedyCuts(s, d, before, nbuckets)
     && |cuts| < nbuckets && c < |s|
     && (before != [] ==> before[|before| - 1] < |s| && s[before[|before| - 1]] < s[c])
     && NextCut(s, d, before, c, nbuckets))
  }

  /** Cuts made by the rule until there are enough of them or no sample is left. */
  ghost predicate AllCuts(s: seq<real>, d: real, cuts: seq<nat>, nbuckets: nat) {
    && GreedyCuts(s, d, cuts, nbuckets) && |cuts| < nbuckets
    && (cuts != [] ==> cuts[|cuts| - 1] < |s|)
    && (|cuts| + 1 < nbuckets ==> NextCut(s, d, cuts, |s|, nbuckets))
  }

  /** The sorted column fixes the cuts. */
  lemma AllCutsUnique(s: seq<real>, d: real, a: seq<nat>, b: seq<nat>, nb: nat)
    requires AllCuts(s, d, a, nb) && AllCuts(s, d, b, nb)
    ensures a == b
  {
    if |a| < |b| {
      CutsAgree(s, d, b, a, nb);
    } else {
      CutsAgree(s, d, a, b, nb);
    }
  }

  /** No list made by the rule is longer than a complete one. */
  lemma {:induction false} CutsAgree(s: seq<real>, d: real, a: seq<nat>, b: seq<nat>, nb: nat)
    requires GreedyCuts(s, d, a, nb) && AllCuts(s, d, b, nb) && |b| <= |a|
    ensures a == b
    decreases |a|
  {
    if |a| == |b| {
      SameCuts(s, d, a, b, nb);
    } else {
      CutsAgree(s, d, a[..|a| - 1], b, nb);
      assert false;
    }
  }

  lemma {:induction false} SameCuts(s: seq<real>, d: real, a: seq<nat>, b: seq<nat>, nb: nat)
    requires GreedyCuts(s, d, a, nb) && GreedyCuts(s, d, b, nb) && |a| == |b|
    ensures a == b
  {
    if a != [] {
      SameCuts(s, d, a[..|a| - 1], b[..|b| - 1], nb);
      assert a == a[..|a| - 1] + [a[|a| - 1]] && b == b[..|b| - 1] + [b[|b| - 1]];
    }
  }

  lemma {:induction false} CutsIncrease(s: seq<real>, d: real, cuts: seq<nat>, thr: seq<real>, nb: nat)
    requires CutValues(s, cuts, thr) && GreedyCuts(s, d, cuts, nb)
    ensures StrictlyIncreasing(thr)
  {
    if cuts != [] {
      var before := cuts[..|cuts| - 1];
      CutsIncrease(s, d, before, thr[..|cuts| - 1], nb);
      assert forall i :: 0 <= i < |before| ==> thr[..|cuts| - 1][i] == thr[i];
    }
  }

  /** `thr` lists the samples at the cut positions. */
  ghost predicate CutValues(s: seq<real>, cuts: seq<nat>, thr: seq<real>) {
    |thr| == |cuts| && forall j :: 0 <= j < |cuts| ==> cuts[j] < |s| && thr[j] == s[cuts[j]]
  }

  /** State of the cut scan before position `idx`. */
  ghost predicate CutInv(s: seq<real>, d: real, nb: nat, idx: nat, cuts: seq<nat>, thr: seq<real>, expected: nat,
                         last: real)
  {
    && CutValues(s, cuts, thr) && |cuts| + 1 < nb
    && GreedyCuts(s, d, cuts, nb)
    && expected == Target(cuts, |s|, nb)
    && (thr != [] ==> thr[|thr| - 1] <= last)
    && (expected <= idx && expected < |s| ==> last == LastKept(s, d, nb, cuts, expected))
    && forall p :: expected <= p < idx && p < |s| ==> !MathNeq(s[p], last)
  }

  lemma CutStep(s: seq<real>, d: real, nb: nat, idx: nat, cuts: seq<nat>, thr: seq<real>, expected: nat, last: real)
    requires CutInv(s, d, nb, idx, cuts, thr, expected, last)
    requires expected <= idx < |s| && MathNeq(s[idx], last) && (thr != [] ==> last <= s[idx])
    requires thr != [] ==> thr[|thr| - 1] < s[idx]
    ensures GreedyCuts(s, d, cuts + [idx], nb) && CutValues(s, cuts + [idx], thr + [s[idx]])
  {
    assert FirstDiffering(s, expected, idx, LastKept(s, d, nb, cuts, expected));
    assert (cuts + [idx])[..|cuts|] == cuts;
  }

  /** A position without a cut: the scan moves on by one, or jumps to the target. */
  lemma CutKeep(s: seq<real>, d: real, nb: nat, idx: nat, cuts: seq<nat>, thr: seq<real>, expected: nat, last: real,
                next: nat, last': real)
    requires CutInv(s, d, nb, idx, cuts, thr, expected, last) && idx < |s|
    requires idx >= expected ==> !MathNeq(s[idx], last)
    requires next == idx + 1 || next <= expected
    requires last' == last || (idx < expected && (thr != [] ==> last <= last'))
    requires idx < expected && next == expected < |s| ==> last' == LastKept(s, d, nb, cuts, next)
    ensures CutInv(s, d, nb, next, cuts, thr, expected, last')
  {
  }

  /** The state right after a cut at `idx`. */
  lemma CutMade(s: seq<real>, d: real, nb: nat, idx: nat, cuts: seq<nat>, thr: seq<real>, next: nat)
    requires |cuts| > 0 && cuts[|cuts| - 1] == idx && idx < |s| && |cuts| + 1 < nb
    requires CutValues(s, cuts, thr) && GreedyCuts(s, d, cuts, nb)
    requires next <= Target(cuts, |s|, nb)
    requires next == Target(cuts, |s|, nb) < |s| ==> s[idx] == LastKept(s, d, nb, cuts, next)
    ensures CutInv(s, d, nb, next, cuts, thr, Target(cuts, |s|, nb), s[idx])
  {
  }

  /** Every cut value is also a category beyond the first one. */
  ghost predicate Linked(vc: seq<real>, thr: seq<real>) {
    && (thr != [] ==> |vc| >= |thr| + 1)
    && (|vc| == |thr| + 1 ==> vc[1..] == thr)
  }

  /** What the scan of a sorted sample leaves behind. */
  ghost predicate Scanned(s: seq<real>, d: real, nb: nat, vc: seq<real>, cuts: seq<nat>, thr: seq<real>)
    requires s != []
  {
    var all := Categories(s, d);
    && vc <= all && (|vc| <= nb && vc != [] ==> |all| <= nb ==> vc == all)
    && (|vc| > nb ==> |all| > nb)
    && (|vc| <= nb && vc != [] && |all| > nb ==> vc[1..] == thr)
    && CutValues(s, cuts, thr) && AllCuts(s, d, cuts, nb)
    && (vc == [] <==> !MathNeq(s[0], d))
  }

  ghost predicate Finished(s: seq<real>, d: real, nb: nat, vc: seq<real>, thr: seq<real>)
    requires s != []
  {
    exists cuts :: Scanned(s, d, nb, vc, cuts, thr)
  }

  /** `thr` lists the samples at the cuts the rule makes. */
  ghost predicate QuantileThresholds(s: seq<real>, d: real, nb: nat, thr: seq<real>) {
    exists cuts :: AllCuts(s, d, cuts, nb) && CutValues(s, cuts, thr)
  }

  /** The sorted column fixes the quantile thresholds. */
  lemma QuantileThresholdsUnique(s: seq<real>, d: real, nb: nat, a: seq<real>, b: seq<real>)
    requires QuantileThresholds(s, d, nb, a) && QuantileThresholds(s, d, nb, b)
    ensures a == b
  {
    var p :| AllCuts(s, d, p, nb) && CutValues(s, p, a);
    var q :| AllCuts(s, d, q, nb) && CutValues(s, q, b);
    AllCutsUnique(s, d, p, q, nb);
  }

  /** What the scan has collected of the categories; `whole` when it has looked at every sample. */
  ghost predicate Collected(s: seq<real>, d: real, nb: nat, vc: seq<real>, whole: bool)
    requires s != []
  {
    && vc <= Categories(s, d)
    && (whole && |vc| <= nb ==> vc == Categories(s, d))
    && (vc == [] <==> !MathNeq(s[0], d))
  }

  lemma CollectedSoFar(s: seq<real>, d: real, nb: nat, idx: nat, fast: bool, vc: seq<real>, last: real)
    requires s != [] && CatInv(s, d, nb, idx, fast, vc, last) && idx > 0
    ensures Collected(s, d, nb, vc, idx >= |s|)
  {
    if !fast {
      CategoriesPrefix(s, d, idx);
      assert idx >= |s| ==> s[..idx] == s;
    }
  }

  lemma FinishScan(s: seq<real>, d: real, nb: nat, vc: seq<real>, cuts: seq<nat>, thr: seq<real>, whole: bool)
    requires s != [] && Collected(s, d, nb, vc, whole) && Linked(vc, thr)
    requires CutValues(s, cuts, thr) && AllCuts(s, d, cuts, nb) && (|cuts| + 1 == nb || whole)
    ensures Scanned(s, d, nb, vc, cuts, thr)
  {
  }

  /** State of the whole scan before position `idx`. */
  ghost predicate ScanInv(s: seq<real>, d: real, nb: nat, idx: nat, fast: bool, vc: seq<real>, last: real,
                          cuts: seq<nat>, thr: seq<real>, expected: nat)
  {
    && CatInv(s, d, nb, idx, fast, vc, last) && Linked(vc, thr)
    && CutInv(s, d, nb, idx, cuts, thr, expected, last) && 1 <= expected
    && SkipInv(s, d, nb, idx, fast, last, cuts)
  }

  /** Once the scan skips, only a cut changes the value it compares with. */
  ghost predicate SkipInv(s: seq<real>, d: real, nb: nat, idx: nat, fast: bool, last: real, cuts: seq<nat>) {
    fast ==>
      && Skips(s, d, nb, idx) && |Categories(s, d)| > nb + 1 && (cuts != [] ==> cuts[|cuts| - 1] < |s|)
      && last == SkipValue(s, d, nb, cuts)
  }

  lemma SkipsOn(s: seq<real>, d: real, nb: nat, i: nat, j: nat)
    requires i <= j && Skips(s, d, nb, i)
    ensures Skips(s, d, nb, j) && |Categories(s, d)| > nb + 1
  {
    var a, b := if i < |s| then i else |s|, if j < |s| then j else |s|;
    CategoriesPrefix(s[..b], d, a);
    assert s[..b][..a] == s[..a];
    CategoriesPrefix(s, d, b);
  }

  /** At its target the scan compares with the value the rule names. */
  lemma AtTarget(s: seq<real>, d: real, nb: nat, idx: nat, fast: bool, vc: seq<real>, last: real, cuts: seq<nat>)
    requires CatInv(s, d, nb, idx, fast, vc, last) && SkipInv(s, d, nb, idx, fast, last, cuts) && idx < |s|
    requires cuts != [] ==> cuts[|cuts| - 1] < |s|
    ensures last == LastKept(s, d, nb, cuts, idx)
  {
  }

  /** One pass keeps `SkipInv`, with a cut or without. */
  lemma SkipPass(s: seq<real>, d: real, nb: nat, idx: nat, fast: bool, vc: seq<real>, last: real, cuts: seq<nat>,
                 cut: bool, next: nat)
    requires Bounded(s, d) && idx < |s| && idx < next && CatInv(s, d, nb, idx, fast, vc, last)
    requires SkipInv(s, d, nb, idx, fast, last, cuts)
    requires cuts != [] ==> cuts[|cuts| - 1] < |s| && s[cuts[|cuts| - 1]] <= last
    requires cut ==> MathNeq(s[idx], last)
    requires vc == [] ==> cuts == []
    ensures var diff := MathNeq(s[idx], last);
            SkipInv(s, d, nb, next, fast || (diff && |vc| > nb), if cut || (!fast && diff) then s[idx] else last,
                    if cut then cuts + [idx] else cuts)
  {
    if fast {
      SkipsOn(s, d, nb, idx, next);
    } else if MathNeq(s[idx], last) && |vc| > nb {
      CategoriesStep(s, d, idx);
      CategoriesPrefix(s, d, idx + 1);
      SkipsOn(s, d, nb, idx + 1, next);
    }
  }

  /** The loop ends past the last sample: no further cut can be made. */
  lemma ScanEnds(s: seq<real>, d: real, nb: nat, idx: nat, fast: bool, vc: seq<real>, last: real,
                 cuts: seq<nat>, thr: seq<real>, expected: nat)
    requires Bounded(s, d) && s != [] && nb >= 3 && idx >= |s|
    requires ScanInv(s, d, nb, idx, fast, vc, last, cuts, thr, expected)
    ensures Scanned(s, d, nb, vc, cuts, thr)
  {
    assert expected < |s| ==> FirstDiffering(s, expected, |s|, LastKept(s, d, nb, cuts, expected));
    CollectedSoFar(s, d, nb, idx, fast, vc, last);
    FinishScan(s, d, nb, vc, cuts, thr, true);
  }

  /** The variables of the scan loop. */
  datatype ScanState = ScanState(idx: nat, fast: bool, vc: seq<real>, last: real, cuts: seq<nat>, thr: seq<real>,
                                 expected: nat)

  ghost predicate ScanReady(s: seq<real>, d: real, nb: nat, st: ScanState) {
    ScanInv(s, d, nb, st.idx, st.fast, st.vc, st.last, st.cuts, st.thr, st.expected)
  }

  ghost predicate CutsHere(s: seq<real>, st: ScanState)
    requires st.idx < |s|
  {
    st.idx >= st.expected && MathNeq(s[st.idx], st.last)
  }

  /** The variables after one pass that does not end the loop. */
  ghost function NextState(s: seq<real>, nb: nat, st: ScanState): ScanState
    requires st.idx < |s|
    requires CutsHere(s, st) ==> |st.cuts| + 2 < nb
  {
    var grow := !st.fast && MathNeq(s[st.idx], st.last);
    var fast := st.fast || (grow && |st.vc| > nb);
    var vc := if grow && |st.vc| <= nb then st.vc + [s[st.idx]] else st.vc;
    if CutsHere(s, st) then
      var cuts := st.cuts + [st.idx];
      var expected := Target(cuts, |s|, nb);
      var next := if !fast || st.idx >= expected then st.idx + 1 else expected;
      ScanState(next, fast, vc, s[st.idx], cuts, st.thr + [s[st.idx]], expected)
    else
      ScanState(if !fast || st.idx >= st.expected then st.idx + 1 else st.expected, fast, vc,
                if grow then s[st.idx] else st.last, st.cuts, st.thr, st.expected)
  }

  /** The variables after the pass that makes the last cut wanted. */
  ghost function LastState(s: seq<real>, nb: nat, st: ScanState): ScanState
    requires st.idx < |s|
  {
    var grow := !st.fast && MathNeq(s[st.idx], st.last);
    ScanState(st.idx, st.fast || (grow && |st.vc| > nb), if grow && |st.vc| <= nb then st.vc + [s[st.idx]] else st.vc,
              s[st.idx], st.cuts + [st.idx], st.thr + [s[st.idx]], st.expected)
  }

  lemma StartState(s: seq<real>, d: real, nb: nat, st: ScanState)
    requires Bounded(s, d) && s != [] && nb >= 3 && st == ScanState(0, false, [], d, [], [], CeilDiv(|s|, nb))
    ensures ScanReady(s, d, nb, st)
  {
    SharesIsCeilDiv(|s|, nb);
    TargetIsLater(s, nb, []);
    assert s[..0] == [];
  }

  /** One pass of the scan loop that makes no cut. */
  lemma PassWithoutCut(s: seq<real>, d: real, nb: nat, st: ScanState)
    requires Bounded(s, d) && st.idx < |s| && ScanReady(s, d, nb, st) && !CutsHere(s, st)
    ensures NextState(s, nb, st).idx > st.idx && ScanReady(s, d, nb, NextState(s, nb, st))
  {
    var grow := !st.fast && MathNeq(s[st.idx], st.last);
    var fast := st.fast || (grow && |st.vc| > nb);
    var vc := if grow && |st.vc| <= nb then st.vc + [s[st.idx]] else st.vc;
    var last := if grow then s[st.idx] else st.last;
    var next := if !fast || st.idx >= st.expected then st.idx + 1 else st.expected;
    CategoryKept(s, d, nb, st, fast, vc, last, next);
    if st.idx < st.expected && next == st.expected < |s| {
      AtTarget(s, d, nb, next, fast, vc, last, st.cuts);
    }
    CutKeep(s, d, nb, st.idx, st.cuts, st.thr, st.expected, st.last, next, last);
    assert NextState(s, nb, st) == ScanState(next, fast, vc, last, st.cuts, st.thr, st.expected);
  }

  /** The category scan's part of a pass without a cut. */
  lemma CategoryKept(s: seq<real>, d: real, nb: nat, st: ScanState, fast: bool, vc: seq<real>, last: real, next: nat)
    requires Bounded(s, d) && st.idx < |s| && ScanReady(s, d, nb, st) && !CutsHere(s, st)
    requires var grow := !st.fast && MathNeq(s[st.idx], st.last);
             && fast == (st.fast || (grow && |st.vc| > nb)) && last == (if grow then s[st.idx] else st.last)
             && vc == if grow && |st.vc| <= nb then st.vc + [s[st.idx]] else st.vc
    requires next == if !fast || st.idx >= st.expected then st.idx + 1 else st.expected
    ensures CatInv(s, d, nb, next, fast, vc, last) && Linked(vc, st.thr) && SkipInv(s, d, nb, next, fast, last, st.cuts)
  {
    CatStep(s, d, nb, st.idx, st.fast, st.vc, st.last);
    if fast && st.idx < st.expected {
      CatJump(s, d, nb, st.idx + 1, vc, last, next);
    }
    SkipPass(s, d, nb, st.idx, st.fast, st.vc, st.last, st.cuts, false, next);
  }

  /** What a cut at the current position adds. */
  lemma CutHere(s: seq<real>, d: real, nb: nat, st: ScanState, cuts: seq<nat>, thr: seq<real>, vc: seq<real>)
    requires Bounded(s, d) && st.idx < |s| && nb >= 3 && ScanReady(s, d, nb, st) && CutsHere(s, st)
    requires cuts == st.cuts + [st.idx] && thr == st.thr + [s[st.idx]]
    requires vc == if !st.fast && |st.vc| <= nb then st.vc + [s[st.idx]] else st.vc
    ensures GreedyCuts(s, d, cuts, nb) && CutValues(s, cuts, thr) && Linked(vc, thr)
    ensures CatInv(s, d, nb, st.idx + 1, st.fast || |st.vc| > nb, vc, s[st.idx])
    ensures |st.cuts| + 1 < nb && (|cuts| + 1 == nb ==> AllCuts(s, d, cuts, nb))
  {
    CatStep(s, d, nb, st.idx, st.fast, st.vc, st.last);
    LinkedStep(st.vc, st.thr, s[st.idx], !st.fast && |st.vc| <= nb);
    CutStep(s, d, nb, st.idx, st.cuts, st.thr, st.expected, st.last);
  }

  lemma CategoriesHere(s: seq<real>, d: real, nb: nat, st: ScanState, vc: seq<real>)
    requires Bounded(s, d) && st.idx < |s| && CatInv(s, d, nb, st.idx, st.fast, st.vc, st.last)
    requires MathNeq(s[st.idx], st.last)
    requires vc == if !st.fast && |st.vc| <= nb then st.vc + [s[st.idx]] else st.vc
    ensures Collected(s, d, nb, vc, st.idx + 1 >= |s|)
  {
    CatStep(s, d, nb, st.idx, st.fast, st.vc, st.last);
    CollectedSoFar(s, d, nb, st.idx + 1, st.fast || |st.vc| > nb, vc, s[st.idx]);
  }

  /** One pass of the scan loop that makes a cut, with more to come. */
  lemma PassWithCut(s: seq<real>, d: real, nb: nat, st: ScanState)
    requires Bounded(s, d) && st.idx < |s| && nb >= 3 && ScanReady(s, d, nb, st) && CutsHere(s, st)
    requires |st.cuts| + 2 < nb
    ensures NextState(s, nb, st).idx > st.idx && ScanReady(s, d, nb, NextState(s, nb, st))
  {
    var cuts, thr := st.cuts + [st.idx], st.thr + [s[st.idx]];
    var vc := if !st.fast && |st.vc| <= nb then st.vc + [s[st.idx]] else st.vc;
    var fast := st.fast || |st.vc| > nb;
    CutHere(s, d, nb, st, cuts, thr, vc);
    TargetIsLater(s, nb, cuts);
    var expected := Target(cuts, |s|, nb);
    var next := if fast then expected else st.idx + 1;
    CutTaken(s, d, nb, st, next);
    if fast {
      CatJump(s, d, nb, st.idx + 1, vc, s[st.idx], next);
    }
    if next == expected < |s| {
      AtTarget(s, d, nb, next, fast, vc, s[st.idx], cuts);
    }
    CutMade(s, d, nb, st.idx, cuts, thr, next);
    StateAfterCut(s, nb, st, fast, vc, next, expected);
  }

  lemma StateAfterCut(s: seq<real>, nb: nat, st: ScanState, fast: bool, vc: seq<real>, next: nat, expected: nat)
    requires st.idx < |s| && CutsHere(s, st) && |st.cuts| + 2 < nb && expected == Target(st.cuts + [st.idx], |s|, nb)
    requires fast == (st.fast || |st.vc| > nb) && MathNeq(s[st.idx], st.last)
    requires vc == if !st.fast && |st.vc| <= nb then st.vc + [s[st.idx]] else st.vc
    requires st.idx < expected && next == if fast then expected else st.idx + 1
    ensures NextState(s, nb, st) ==
            ScanState(next, fast, vc, s[st.idx], st.cuts + [st.idx], st.thr + [s[st.idx]], expected)
  {
  }

  lemma CutTaken(s: seq<real>, d: real, nb: nat, st: ScanState, next: nat)
    requires Bounded(s, d) && st.idx < next && st.idx < |s| && ScanReady(s, d, nb, st) && CutsHere(s, st)
    ensures SkipInv(s, d, nb, next, st.fast || |st.vc| > nb, s[st.idx], st.cuts + [st.idx])
  {
    SkipPass(s, d, nb, st.idx, st.fast, st.vc, st.last, st.cuts, true, next);
  }

  /** The pass that makes the last cut wanted ends the scan. */
  lemma LastCut(s: seq<real>, d: real, nb: nat, st: ScanState)
    requires Bounded(s, d) && st.idx < |s| && nb >= 3 && ScanReady(s, d, nb, st) && CutsHere(s, st)
    requires |st.cuts| + 2 >= nb
    ensures var last := LastState(s, nb, st); Scanned(s, d, nb, last.vc, last.cuts, last.thr)
  {
    var cuts, thr := st.cuts + [st.idx], st.thr + [s[st.idx]];
    var vc := if !st.fast && |st.vc| <= nb then st.vc + [s[st.idx]] else st.vc;
    assert LastState(s, nb, st).vc == vc && LastState(s, nb, st).cuts == cuts && LastState(s, nb, st).thr == thr;
    assert Scanned(s, d, nb, vc, cuts, thr) by {
      CutHere(s, d, nb, st, cuts, thr, vc);
      CategoriesHere(s, d, nb, st, vc);
      FinishScan(s, d, nb, vc, cuts, thr, st.idx + 1 >= |s|);
    }
  }

  /** One pass of the scan loop moves on, or ends the scan with the last cut wanted. */
  lemma Pass(s: seq<real>, d: real, nb: nat, st: ScanState)
    requires Bounded(s, d) && st.idx < |s| && nb >= 3 && ScanReady(s, d, nb, st)
    ensures |st.thr| == |st.cuts| && |st.cuts| + 1 < nb
    ensures if CutsHere(s, st) && |st.cuts| + 2 >= nb then
              var last := LastState(s, nb, st); Scanned(s, d, nb, last.vc, last.cuts, last.thr)
            else NextState(s, nb, st).idx > st.idx && ScanReady(s, d, nb, NextState(s, nb, st))
  {
    CutCount(s, d, nb, st);
    if CutsHere(s, st) {
      if |st.cuts| + 2 >= nb {
        LastCut(s, d, nb, st);
      } else {
        PassWithCut(s, d, nb, st);
      }
    } else {
      PassWithoutCut(s, d, nb, st);
    }
  }

  lemma CutCount(s: seq<real>, d: real, nb: nat, st: ScanState)
    requires ScanReady(s, d, nb, st)
    ensures |st.thr| == |st.cuts| && |st.cuts| + 1 < nb
  {
  }

  /** The thresholds chosen from a finished scan. */
  lemma ChosenThresholds(s: seq<real>, d: real, nb: nat, vc: seq<real>, cuts: seq<nat>, thr: seq<real>)
    requires Bounded(s, d) && s != [] && nb >= 3 && Scanned(s, d, nb, vc, cuts, thr) && vc != []
    ensures var t := if |vc| <= nb then vc[1..] else thr;
            && |t| + 1 <= nb && StrictlyIncreasing(t) && forall v :: v in t ==> v in s
  {
    if |vc| <= nb {
      assert vc <= Categories(s, d);
      CategoriesChosen(s, d, vc);
    } else {
      assert GreedyCuts(s, d, cuts, nb) && |cuts| < nb && CutValues(s, cuts, thr);
      CutsIncrease(s, d, cuts, thr, nb);
    }
  }

  lemma CategoriesChosen(s: seq<real>, d: real, vc: seq<real>)
    requires Bounded(s, d) && vc <= Categories(s, d) && vc != []
    ensures StrictlyIncreasing(vc[1..]) && forall v :: v in vc[1..] ==> v in s
  {
    CategoriesShape(s, d);
    forall i | 0 <= i < |vc| ensures vc[i] in s {
      assert vc[i] == Categories(s, d)[i];
    }
  }

  /** Increasing values followed by infinity are valid thresholds. */
  lemma WithInfinity(t: seq<real>, nb: nat)
    requires |t| + 1 <= nb && StrictlyIncreasing(t)
    ensures ValidThresholds(ToExt(t) + [Inf], nb)
    ensures forall e :: e in ToExt(t) + [Inf] && e.Fin? ==> e.v in t
  {
    forall e | e in ToExt(t) + [Inf] && e.Fin? ensures e.v in t {
      var i :| 0 <= i < |t| && ToExt(t)[i] == e;
      assert t[i] == e.v;
    }
  }

  lemma LinkedStep(vc: seq<real>, thr: seq<real>, v: real, grow: bool)
    requires Linked(vc, thr) && (grow ==> vc != []) && (!grow ==> |vc| > |thr| + 2)
    ensures Linked(if grow then vc + [v] else vc, thr + [v])
  {
  }

  lemma TargetIsLater(s: seq<real>, nb: nat, cuts: seq<nat>)
    requires |cuts| + 1 < nb && (cuts != [] ==> cuts[|cuts| - 1] < |s|) && s != []
    ensures Target(cuts, |s|, nb) > if cuts == [] then 0 else cuts[|cuts| - 1]
  {
  }

  // ------------------------------------------------------- where the cuts lie

  /** The position before the next one: the last cut, or the start of the column. */
  function Before(cuts: seq<nat>): nat {
    if cuts == [] then 0 else cuts[|cuts| - 1]
  }

  /** `c` is the first position after `p` that leaves the bins before it an equal share of the samples from `p` on. */
  predicate AtShare(p: nat, c: nat, n: nat, bins: nat) {
    (c - p - 1) * bins < n - p <= (c - p) * bins
  }

  lemma {:induction false} SharesMeans(a: nat, b: nat)
    requires a > 0 && b > 0
    ensures (Shares(a, b) - 1) * b < a <= Shares(a, b) * b
    decreases a
  {
    if a > b {
      SharesMeans(a - b, b);
      var k := Shares(a - b, b);
      assert (k + 1) * b == k * b + b && k * b == (k - 1) * b + b;
    }
  }

  /** The target of a cut is the first position at which the remaining bins can take equal shares of what is left. */
  lemma TargetMeans(cuts: seq<nat>, n: nat, nb: nat)
    requires |cuts| + 1 < nb && Before(cuts) < n
    ensures AtShare(Before(cuts), Target(cuts, n, nb), n, nb - |cuts|)
  {
    SharesMeans(n - Before(cuts), nb - |cuts|);
  }

  /** Neighbouring samples differ. */
  ghost predicate Apart(s: seq<real>) {
    forall i :: 0 <= i < |s| - 1 ==> s[i + 1] - s[i] >= 0.0000000001
  }

  lemma {:induction false} ApartFrom(s: seq<real>, i: nat, j: nat)
    requires Apart(s) && i < j < |s|
    ensures s[j] - s[i] >= 0.0000000001
    decreases j
  {
    if i < j - 1 { ApartFrom(s, i, j - 1); }
  }

  /** Then every sample is a category of its own. */
  lemma {:induction false} ApartCategories(s: seq<real>, d: real)
    requires Apart(s) && (s == [] || d - s[0] >= 0.0000000001)
    ensures Categories(s, d) == s
  {
    if s != [] {
      var last := |s| - 1;
      ApartCategories(s[..last], d);
      if last > 0 { ApartFrom(s, last - 1, last); }
    }
  }

  /** The rule cuts such a column exactly at its targets. */
  lemma ApartCut(s: seq<real>, d: real, nb: nat, before: seq<nat>, c: nat)
    requires Bounded(s, d) && Apart(s) && |s| >= 2 && |before| + 1 < nb
    requires before != [] ==> before[|before| - 1] < |s|
    requires NextCut(s, d, before, c, nb)
    ensures var lo := Target(before, |s|, nb); c == if lo < |s| then lo else |s|
  {
    var lo := Target(before, |s|, nb);
    TargetIsLater(s, nb, before);
    if lo < |s| {
      ApartKept(s, d, nb, before, lo);
    }
  }

  /** The value a later sample is compared with is that of an earlier one. */
  lemma ApartKept(s: seq<real>, d: real, nb: nat, before: seq<nat>, lo: nat)
    requires Bounded(s, d) && Apart(s) && |s| >= 2 && Before(before) < lo < |s|
    ensures MathNeq(s[lo], LastKept(s, d, nb, before, lo))
  {
    ApartBelow(s, d);
    ApartCategories(s[..lo], d);
    if Skips(s, d, nb, lo) {
      ApartCategories(s, d);
      ApartFrom(s, nb + 1, lo);
      ApartFrom(s, Before(before), lo);
    } else {
      ApartFrom(s, lo - 1, lo);
    }
  }

  lemma ApartBelow(s: seq<real>, d: real)
    requires Bounded(s, d) && Apart(s) && |s| >= 2
    ensures d - s[0] >= 0.0000000001
  {
    BoundedMeaning(s, d);
    assert s[1] - s[0] >= 0.0000000001;
  }

  /** The value a later sample is compared with is not above it, unless it is the largest double. */
  lemma KeptBelow(s: seq<real>, d: real, nb: nat, before: seq<nat>, lo: nat)
    requires Bounded(s, d) && Before(before) < lo < |s|
    ensures LastKept(s, d, nb, before, lo) <= s[lo] || LastKept(s, d, nb, before, lo) == d
  {
    var head := Categories(s[..lo], d);
    BoundedMeaning(s, d);
    BoundedMeaning(s[..lo], d);
    CategoriesShape(s[..lo], d);
    CategoriesPrefix(s, d, lo);
    forall i | 0 <= i < |head| ensures head[i] <= s[lo] {
      assert head[i] in s[..lo];
    }
  }

  /** In any column the samples from the share up to the cut count as equal: the cut comes as soon as values differ. */
  lemma {:induction false} SoonAfterShare(s: seq<real>, d: real, nb: nat, cuts: seq<nat>, k: nat) returns (lo: nat)
    requires Bounded(s, d) && GreedyCuts(s, d, cuts, nb) && k < |cuts|
    ensures AtShare(Before(cuts[..k]), lo, |s|, nb - k) && lo <= cuts[k] < |s|
    ensures forall q :: lo <= q < cuts[k] ==> s[q] - s[lo] < 0.0000000001
    decreases |cuts|
  {
    var before := cuts[..|cuts| - 1];
    if k < |before| {
      lo := SoonAfterShare(s, d, nb, before, k);
      assert before[..k] == cuts[..k];
    } else {
      lo := Target(before, |s|, nb);
      TargetMeans(before, |s|, nb);
      TargetIsLater(s, nb, before);
      KeptBelow(s, d, nb, before, lo);
      BoundedMeaning(s, d);
      CloseTogether(s, d, lo, cuts[k], LastKept(s, d, nb, before, lo));
    }
  }

  lemma CloseTogether(s: seq<real>, d: real, lo: nat, hi: nat, w: real)
    requires SortedReals(s) && lo <= hi < |s| && FirstDiffering(s, lo, hi, w) && (w <= s[lo] || w == d)
    requires forall i :: 0 <= i < |s| ==> s[i] <= d
    ensures forall q :: lo <= q < hi ==> s[q] - s[lo] < 0.0000000001
  {
    if lo < hi {
      assert !MathNeq(s[lo], w);
    }
  }

  /** Without close values a cut comes exactly at its share. */
  lemma {:induction false} AtItsShare(s: seq<real>, d: real, nb: nat, cuts: seq<nat>, k: nat)
    requires Bounded(s, d) && Apart(s) && |s| >= 2 && GreedyCuts(s, d, cuts, nb) && k < |cuts|
    ensures cuts[k] < |s| && AtShare(Before(cuts[..k]), cuts[k], |s|, nb - k)
    decreases |cuts|
  {
    var before := cuts[..|cuts| - 1];
    if k < |before| {
      AtItsShare(s, d, nb, before, k);
      assert before[..k] == cuts[..k];
    } else {
      TargetMeans(before, |s|, nb);
      ApartCut(s, d, nb, before, cuts[k]);
    }
  }

  /** What is left can be put into that many bins of at least `q` and at most `Q`. */
  predicate LeftFor(left: int, bins: int, q: nat, Q: nat) {
    q * bins <= left <= Q * bins
  }

  /** A share of what is left is `q` or `q + 1` at most `Q`, and leaves the others as much. */
  lemma ShareLeaves(p: nat, c: nat, n: nat, bins: nat, q: nat, Q: nat)
    requires bins >= 2 && q <= Q <= q + 1 && LeftFor(n - p, bins, q, Q) && AtShare(p, c, n, bins)
    ensures q <= c - p <= Q && LeftFor(n - c, bins - 1, q, Q)
  {
    var size := c - p;
    assert (size + 1) * bins == size * bins + bins;
    if size < q { MulLe(size + 1, q, bins); }
    if size > Q { MulLe(Q, size - 1, bins); }
    assert (size - 1) * bins == size * bins - bins;
    assert q * (bins - 1) == q * bins - q && Q * (bins - 1) == Q * bins - Q;
    if size == q + 1 { assert (q + 1) * bins == q * bins + bins; }
  }

  /** The samples from one cut to the next; the last stretch goes to the end. */
  function Stretch(cuts: seq<nat>, n: nat, k: nat): int
    requires k <= |cuts|
  {
    (if k == |cuts| then n else cuts[k]) - Before(cuts[..k])
  }

  /** Enough cuts, and equal stretches between them up to rounding. */
  ghost predicate EvenStretches(cuts: seq<nat>, n: nat, nb: nat)
    requires nb > 0
  {
    && |cuts| == nb - 1
    && forall k :: 0 <= k < nb ==> Stretch(cuts, n, k) == n / nb || Stretch(cuts, n, k) == CeilDiv(n, nb)
  }

  /** After `k` cuts the samples left are as many as that many equal bins can take. */
  lemma {:induction false} LeftEven(s: seq<real>, d: real, nb: nat, cuts: seq<nat>, k: nat, q: nat, Q: nat)
    requires Bounded(s, d) && Apart(s) && |s| >= nb >= 3 && GreedyCuts(s, d, cuts, nb) && k <= |cuts| < nb
    requires q <= Q <= q + 1 && LeftFor(|s|, nb, q, Q)
    ensures LeftFor(|s| - Before(cuts[..k]), nb - k, q, Q)
  {
    if k > 0 {
      LeftEven(s, d, nb, cuts, k - 1, q, Q);
      AtItsShare(s, d, nb, cuts, k - 1);
      ShareLeaves(Before(cuts[..k - 1]), cuts[k - 1], |s|, nb - (k - 1), q, Q);
    }
  }

  lemma QuotientAndCeil(n: nat, b: nat)
    requires b > 0
    ensures n / b <= CeilDiv(n, b) <= n / b + 1 && LeftFor(n, b, n / b, CeilDiv(n, b))
  {
    var q, r := n / b, n % b;
    DivBounds(n, b);
    if r == 0 {
      DivModUnique(n + b - 1, b, q, b - 1);
    } else {
      assert (q + 1) * b == q * b + b;
      DivModUnique(n + b - 1, b, q + 1, r - 1);
    }
  }

  /** While cuts are missing there is a sample at the next target. */
  lemma RoomLeft(s: seq<real>, d: real, nb: nat, cuts: seq<nat>)
    requires Bounded(s, d) && Apart(s) && |s| > nb >= 3 && GreedyCuts(s, d, cuts, nb) && |cuts| + 1 < nb
    ensures Target(cuts, |s|, nb) < |s|
  {
    var n, m := |s|, |cuts|;
    QuotientAndCeil(n, nb);
    LeftEven(s, d, nb, cuts, m, n / nb, CeilDiv(n, nb));
    assert cuts[..m] == cuts;
    TwoLeft(n, nb, n - Before(cuts), nb - m, CeilDiv(n, nb));
    TargetMeans(cuts, n, nb);
    RoomForOne(Before(cuts), Target(cuts, n, nb), n, nb - m);
  }

  lemma TwoLeft(n: nat, nb: nat, left: int, bins: int, Q: nat)
    requires n >= nb > 0 && bins >= 2 && LeftFor(left, bins, n / nb, Q)
    ensures left >= 2
  {
    DivBounds(n, nb);
    if n / nb < 1 { MulLe(n / nb + 1, 1, nb); }
    MulLe(1, n / nb, bins);
  }

  lemma RoomForOne(p: nat, t: nat, n: nat, bins: nat)
    requires bins >= 2 && n - p >= 2 && AtShare(p, t, n, bins)
    ensures t < n
  {
    if t >= n { MulLe(n - p - 1, t - p - 1, bins); MulLe(2, bins, n - p - 1); }
  }

  /** A sorted column of more than `nb` values, none close to another, is cut into equal stretches up to rounding. */
  lemma EvenCuts(s: seq<real>, d: real, nb: nat, cuts: seq<nat>)
    requires Bounded(s, d) && Apart(s) && |s| > nb >= 3 && AllCuts(s, d, cuts, nb)
    ensures EvenStretches(cuts, |s|, nb)
    ensures forall k :: 0 <= k < nb - 1 ==> AtShare(Before(cuts[..k]), cuts[k], |s|, nb - k)
  {
    AllCutsMade(s, d, nb, cuts);
    forall k | 0 <= k < nb - 1 ensures AtShare(Before(cuts[..k]), cuts[k], |s|, nb - k) {
      AtItsShare(s, d, nb, cuts, k);
    }
    forall k | 0 <= k < nb
      ensures Stretch(cuts, |s|, k) == |s| / nb || Stretch(cuts, |s|, k) == CeilDiv(|s|, nb)
    {
      StretchEven(s, d, nb, cuts, k);
    }
  }

  lemma AllCutsMade(s: seq<real>, d: real, nb: nat, cuts: seq<nat>)
    requires Bounded(s, d) && Apart(s) && |s| > nb >= 3 && AllCuts(s, d, cuts, nb)
    ensures |cuts| == nb - 1
  {
    if |cuts| + 1 < nb {
      RoomLeft(s, d, nb, cuts);
      ApartCut(s, d, nb, cuts, |s|);
    }
  }

  lemma StretchEven(s: seq<real>, d: real, nb: nat, cuts: seq<nat>, k: nat)
    requires Bounded(s, d) && Apart(s) && |s| >= nb >= 3 && GreedyCuts(s, d, cuts, nb) && k <= |cuts| == nb - 1
    ensures Stretch(cuts, |s|, k) == |s| / nb || Stretch(cuts, |s|, k) == CeilDiv(|s|, nb)
  {
    QuotientAndCeil(|s|, nb);
    StretchTakes(s, d, nb, cuts, k, |s| / nb, CeilDiv(|s|, nb));
  }

  lemma StretchTakes(s: seq<real>, d: real, nb: nat, cuts: seq<nat>, k: nat, q: nat, Q: nat)
    requires Bounded(s, d) && Apart(s) && |s| >= nb >= 3 && GreedyCuts(s, d, cuts, nb) && k <= |cuts| == nb - 1
    requires q <= Q <= q + 1 && LeftFor(|s|, nb, q, Q)
    ensures Stretch(cuts, |s|, k) == q || Stretch(cuts, |s|, k) == Q
  {
    LeftEven(s, d, nb, cuts, k, q, Q);
    if k == |cuts| {
      OneBin(q, |s| - Before(cuts[..k]), Q, nb - k);
    } else {
      AtItsShare(s, d, nb, cuts, k);
      ShareLeaves(Before(cuts[..k]), cuts[k], |s|, nb - k, q, Q);
    }
  }

  /** Even stretches between positions whose values are the thresholds, with infinity last. */
  ghost predicate EvenlyCut(s: seq<real>, nb: nat, thresholds: seq<Ext>)
    requires nb > 0
  {
    exists cuts: seq<nat> :: EvenStretches(cuts, |s|, nb) && ValuesAt(s, cuts, thresholds)
  }

  ghost predicate ValuesAt(s: seq<real>, cuts: seq<nat>, thresholds: seq<Ext>) {
    && |thresholds| == |cuts| + 1 && thresholds[|cuts|] == Inf
    && forall k :: 0 <= k < |cuts| ==> cuts[k] < |s| && thresholds[k] == Fin(s[cuts[k]])
  }

  lemma QuantilesEven(s: seq<real>, d: real, nb: nat, thr: seq<real>)
    requires Bounded(s, d) && Apart(s) && |s| > nb >= 3 && QuantileThresholds(s, d, nb, thr)
    ensures EvenlyCut(s, nb, ToExt(thr) + [Inf])
  {
    var cuts :| AllCuts(s, d, cuts, nb) && CutValues(s, cuts, thr);
    EvenCuts(s, d, nb, cuts);
    EvenValues(s, nb, cuts, thr);
  }

  lemma EvenValues(s: seq<real>, nb: nat, cuts: seq<nat>, thr: seq<real>)
    requires nb > 0 && EvenStretches(cuts, |s|, nb) && CutValues(s, cuts, thr)
    ensures EvenlyCut(s, nb, ToExt(thr) + [Inf])
  {
    assert ValuesAt(s, cuts, ToExt(thr) + [Inf]);
  }

  lemma OneBin(q: nat, x: int, Q: nat, bins: int)
    requires bins == 1 && LeftFor(x, bins, q, Q) && q <= Q <= q + 1
    ensures x == q || x == Q
  {
  }


  // ------------------------------------------------------------ bin lookup

  /** The index of the first threshold that is at least `x`: `std::lower_bound`. */
  function LowerBound(thr: seq<Ext>, x: Ext): (i: nat)
    ensures i <= |thr|
    ensures i < |thr| ==> Le(x, thr[i])
    ensures forall j :: 0 <= j < i ==> !Le(x, thr[j])
  {
    if thr == [] || Le(x, thr[0]) then 0 else 1 + LowerBound(thr[1..], x)
  }

  /** `thr[i-1] < x <= thr[i]` */
  ghost predicate InBin(thr: seq<Ext>, x: Ext, i: nat) {
    i < |thr| && Le(x, thr[i]) && (i > 0 ==> Lt(thr[i - 1], x))
  }

  /** `LowerBound` names the one bin that contains `x`. */
  lemma LowerBoundIsTheBin(thr: seq<Ext>, nbuckets: nat, x: Ext, i: nat)
    requires ValidThresholds(thr, nbuckets)
    ensures InBin(thr, x, i) <==> i == LowerBound(thr, x)
  {
    var l := LowerBound(thr, x);
    assert l < |thr| by { assert Le(x, thr[|thr| - 1]); }
    assert i < l ==> !Le(x, thr[i]);
    assert l < i - 1 < |thr| ==> Lt(thr[l], thr[i - 1]);
    assert l > 0 ==> !Le(x, thr[l - 1]);
  }

  /** Two values share a bin exactly when no threshold lies between them, the lower value included. */
  lemma SharedBinIff(thr: seq<Ext>, nbuckets: nat, x: Ext, y: Ext)
    requires ValidThresholds(thr, nbuckets) && Le(x, y)
    ensures LowerBound(thr, x) == LowerBound(thr, y) <==> forall t :: t in thr ==> !(Le(x, t) && Lt(t, y))
  {
    var i, j := LowerBound(thr, x), LowerBound(thr, y);
    LowerBoundIsTheBin(thr, nbuckets, x, i);
    LowerBoundIsTheBin(thr, nbuckets, y, j);
    if i == j {
      forall t | t in thr ensures !(Le(x, t) && Lt(t, y)) {
        var k :| 0 <= k < |thr| && thr[k] == t;
        assert k < i ==> !Le(x, thr[k]);
        assert i < k ==> Lt(thr[i], thr[k]);
      }
    } else {
      assert Le(x, thr[j]) && i < j;
      assert !Le(y, thr[i]) && thr[i] in thr;
    }
  }

  /** With the categories as thresholds, category `k` lies in bin `k - 1`: the two smallest share bin 0. */
  lemma CategoryBin(c: seq<real>, nbuckets: nat, k: nat)
    requires StrictlyIncreasing(c) && k < |c| <= nbuckets
    ensures LowerBound(ToExt(c[1..]) + [Inf], Fin(c[k])) == if k == 0 then 0 else k - 1
  {
    var thr := ToExt(c[1..]) + [Inf];
    WithInfinity(c[1..], nbuckets);
    assert forall i :: 0 <= i < |c| - 1 ==> thr[i] == Fin(c[i + 1]);
    LowerBoundIsTheBin(thr, nbuckets, Fin(c[k]), if k == 0 then 0 else k - 1);
  }

  /** With the categories as thresholds, two values share a bin exactly when no category but the smallest lies
      between them, the lower value included. */
  lemma ValuesShareIff(c: seq<real>, nbuckets: nat, x: real, y: real)
    requires StrictlyIncreasing(c) && 1 <= |c| <= nbuckets && x <= y
    ensures var thr := ToExt(c[1..]) + [Inf];
      LowerBound(thr, Fin(x)) == LowerBound(thr, Fin(y)) <==> forall k :: 1 <= k < |c| ==> !(x <= c[k] < y)
  {
    var thr := ToExt(c[1..]) + [Inf];
    WithInfinity(c[1..], nbuckets);
    SharedBinIff(thr, nbuckets, Fin(x), Fin(y));
    if forall t :: t in thr ==> !(Le(Fin(x), t) && Lt(t, Fin(y))) {
      forall k | 1 <= k < |c| ensures !(x <= c[k] < y) {
        assert thr[k - 1] == Fin(c[k]) && thr[k - 1] in thr;
      }
    }
    if forall k :: 1 <= k < |c| ==> !(x <= c[k] < y) {
      forall t | t in thr ensures !(Le(Fin(x), t) && Lt(t, Fin(y))) {
        NotBetween(c, x, y, t);
      }
    }
  }

  lemma NotBetween(c: seq<real>, x: real, y: real, t: Ext)
    requires c != [] && t in ToExt(c[1..]) + [Inf] && forall k :: 1 <= k < |c| ==> !(x <= c[k] < y)
    ensures !(Le(Fin(x), t) && Lt(t, Fin(y)))
  {
    var thr := ToExt(c[1..]) + [Inf];
    var i: nat :| i < |thr| && thr[i] == t;
    if i < |c| - 1 { assert t == Fin(c[i + 1]); }
  }

  /** Two categories share a bin exactly if they are the two smallest. */
  lemma CategoriesShareIff(c: seq<real>, nbuckets: nat, i: nat, j: nat)
    requires StrictlyIncreasing(c) && i < j < |c| <= nbuckets
    ensures var thr := ToExt(c[1..]) + [Inf];
      LowerBound(thr, Fin(c[i])) == LowerBound(thr, Fin(c[j])) <==> i == 0 && j == 1
  {
    CategoryBin(c, nbuckets, i);
    CategoryBin(c, nbuckets, j);
  }

  /** With at least two categories, the last bin is empty exactly when no sample lies above the last category. */
  lemma LastBinEmptyIff(s: seq<real>, c: seq<real>, nbuckets: nat)
    requires StrictlyIncreasing(c) && 2 <= |c| <= nbuckets
    ensures var thr := ToExt(c[1..]) + [Inf];
      (forall v :: v in s ==> LowerBound(thr, Fin(v)) < |c| - 1) <==> forall v :: v in s ==> v <= c[|c| - 1]
  {
    var thr := ToExt(c[1..]) + [Inf];
    WithInfinity(c[1..], nbuckets);
    assert thr[|c| - 2] == Fin(c[|c| - 1]);
    forall v | v in s ensures LowerBound(thr, Fin(v)) < |c| - 1 <==> v <= c[|c| - 1] {
      LowerBoundIsTheBin(thr, nbuckets, Fin(v), |c| - 1);
      LowerBoundIsTheBin(thr, nbuckets, Fin(v), LowerBound(thr, Fin(v)));
    }
  }

  /** The column 0, 1: two categories, one bin for both, so that no split can separate them. */
  lemma ZeroAndOneShareABin(d: real)
    requires d >= 2.0
    ensures Categories(Sort([0.0, 1.0]), d) == [0.0, 1.0]
    ensures var thr := ToExt([0.0, 1.0][1..]) + [Inf];
      LowerBound(thr, Fin(0.0)) == LowerBound(thr, Fin(1.0)) == 0
  {
    var c := [0.0, 1.0];
    assert Sort([1.0]) == [1.0] && Sort(c) == c;
    assert c[..1] == [0.0] && Categories([0.0], d) == [0.0];
    CategoriesShareIff(c, 3, 0, 1);
    CategoryBin(c, 3, 0);
  }

  /** A column of nothing but the largest double has no category. */
  lemma LargestDoubleHasNoCategory(d: real)
    ensures Categories(Sort([d]), d) == []
  {
    assert Sort([d]) == [d] && [d][..0] == [];
  }

  /** The 16-bit bin numbers are right for every value exactly when there are at most 65536 bins. */
  lemma SixteenBitBins(thr: seq<Ext>, nbuckets: nat)
    requires ValidThresholds(thr, nbuckets)
    ensures (forall x: Ext :: InBin(thr, x, LowerBound(thr, x) % 0x10000)) <==> |thr| <= 0x10000
  {
    if |thr| <= 0x10000 {
      forall x: Ext
        ensures InBin(thr, x, LowerBound(thr, x) % 0x10000)
      {
        LowerBoundIsTheBin(thr, nbuckets, x, LowerBound(thr, x));
      }
    } else {
      var x := thr[0x10000];
      LowerBoundIsTheBin(thr, nbuckets, x, 0x10000);
      LowerBoundIsTheBin(thr, nbuckets, x, 0);
      assert Lt(thr[0x10000 - 1], thr[0x10000]);
      assert LowerBound(thr, x) % 0x10000 == 0;
      assert !InBin(thr, x, LowerBound(thr, x) % 0x10000);
    }
  }

  /** 65537 thresholds 0, 1, .. and infinity: every value above 65535 belongs to bin 65536 and is put into bin 0. */
  lemma LargeBinIsCut(n: nat, x: real)
    requires n == 0x10000 && x > 65535.0
    ensures var thr := ToExt(seq(n, i => i as real)) + [Inf];
      ValidThresholds(thr, n + 1) && LowerBound(thr, Fin(x)) == n && n % 0x10000 == 0 && !InBin(thr, Fin(x), 0)
  {
    var c: seq<real> := seq(n, i => i as real);
    var thr := ToExt(c) + [Inf];
    WithInfinity(c, n + 1);
    assert thr[n - 1] == Fin(65535.0);
    LowerBoundIsTheBin(thr, n + 1, Fin(x), n);
    LowerBoundIsTheBin(thr, n + 1, Fin(x), 0);
  }

  // ---------------------------------------------------------------- class

  datatype FitResult = Fitted | EmptyInput | NoCategory

  class Binner {
    const nbuckets: nat
    const maxFinite: real  // the largest finite double
    var thresholds: seq<Ext>

    constructor (nbuckets: nat, maxFinite: real)
      requires nbuckets >= 3
      ensures this.nbuckets == nbuckets && this.maxFinite == maxFinite && thresholds == []
    {
      this.nbuckets := nbuckets;
      this.maxFinite := maxFinite;
      thresholds := [];
    }

    /** The earliest position for the cut after the one at `idx`. */
    method NextTarget(ghost cuts: seq<nat>, idx: nat, nsamples: nat, nn: nat) returns (expectedIdx: nat)
      requires idx < nsamples && |cuts| == nn > 0 && cuts[nn - 1] == idx && nn + 1 < nbuckets
      ensures expectedIdx == Target(cuts, nsamples, nbuckets)
    {
      var remainSamples := nsamples - idx;
      var expectedBinCount := CeilDiv(remainSamples, nbuckets - nn);
      expectedIdx := idx + expectedBinCount;
      SharesIsCeilDiv(remainSamples, nbuckets - nn);
    }

    /** One pass of the scan loop of `Fit`; `done` when it leaves the loop with the last cut wanted. */
    method ScanPass(sorted: seq<real>, st: ScanState) returns (done: bool, next: ScanState)
      requires st.idx < |sorted| && |st.thr| == |st.cuts| && |st.cuts| + 1 < nbuckets
      ensures done <==> CutsHere(sorted, st) && |st.cuts| + 2 >= nbuckets
      ensures next == if done then LastState(sorted, nbuckets, st) else NextState(sorted, nbuckets, st)
    {
      var v := sorted[st.idx];
      var isDiff := MathNeq(v, st.last);
      var grow := !st.fast && isDiff;
      var valueCategory := if grow && |st.vc| <= nbuckets then st.vc + [v] else st.vc;
      var fastSkip := st.fast || (grow && |st.vc| > nbuckets);
      var lastValue := if grow then v else st.last;
      var binThresholds, cuts, expectedIdx := st.thr, st.cuts, st.expected;
      if st.idx >= expectedIdx && isDiff {
        binThresholds, cuts := binThresholds + [v], cuts + [st.idx];
        var nn := |binThresholds|;
        lastValue := v;
        if nn + 1 == nbuckets {
          return true, ScanState(st.idx, fastSkip, valueCategory, lastValue, cuts, binThresholds, expectedIdx);
        }
        expectedIdx := NextTarget(cuts, st.idx, |sorted|, nn);
      }
      var idx := if !fastSkip || st.idx >= expectedIdx then st.idx + 1 else expectedIdx;
      return false, ScanState(idx, fastSkip, valueCategory, lastValue, cuts, binThresholds, expectedIdx);
    }

    /** The scan loop of `Fit` over the sorted column. */
    method Scan(sorted: seq<real>) returns (valueCategory: seq<real>, binThresholds: seq<real>)
      requires nbuckets >= 3 && sorted != [] && Bounded(sorted, maxFinite)
      ensures Finished(sorted, maxFinite, nbuckets, valueCategory, binThresholds)
    {
      var done, st := false, ScanState(0, false, [], maxFinite, [], [], CeilDiv(|sorted|, nbuckets));
      StartState(sorted, maxFinite, nbuckets, st);
      while !done && st.idx < |sorted|
        invariant !done ==> ScanReady(sorted, maxFinite, nbuckets, st)
        invariant done ==> Scanned(sorted, maxFinite, nbuckets, st.vc, st.cuts, st.thr)
        decreases !done, |sorted| - st.idx
      {
        Pass(sorted, maxFinite, nbuckets, st);
        done, st := ScanPass(sorted, st);
      }
      if !done {
        ScanEnds(sorted, maxFinite, nbuckets, st.idx, st.fast, st.vc, st.last, st.cuts, st.thr, st.expected);
      }
      return st.vc, st.thr;
    }

    method Fit(x: seq<real>) returns (res: FitResult)
      requires nbuckets >= 3
      requires forall i :: 0 <= i < |x| ==> x[i] <= maxFinite
      modifies this
      ensures res == EmptyInput <==> x == []
      ensures res == NoCategory <==> x != [] && forall v :: v in x ==> maxFinite - v < EPS
      ensures !res.Fitted? ==> thresholds == old(thresholds)
      ensures res.Fitted? ==> ValidThresholds(thresholds, nbuckets)
      ensures res.Fitted? ==> forall t :: t in thresholds && t.Fin? ==> t.v in x
      ensures res.Fitted? ==> Categories(Sort(x), maxFinite) != []
      ensures res.Fitted? && |Categories(Sort(x), maxFinite)| <= nbuckets ==>
                thresholds == ToExt(Categories(Sort(x), maxFinite)[1..]) + [Inf]
      ensures res.Fitted? && |Categories(Sort(x), maxFinite)| > nbuckets ==>
                exists thr :: QuantileThresholds(Sort(x), maxFinite, nbuckets, thr) && thresholds == ToExt(thr) + [Inf]
      ensures res.Fitted? && |x| > nbuckets && Apart(Sort(x)) ==> EvenlyCut(Sort(x), nbuckets, thresholds)
    {
      if |x| == 0 {
        return EmptyInput;
      }
      var sorted := Sort(x);
      SortIsSorted(x);
      SortBounded(x, maxFinite);
      var valueCategory, binThresholds;
      valueCategory, binThresholds := Scan(sorted);
      ghost var cuts :| Scanned(sorted, maxFinite, nbuckets, valueCategory, cuts, binThresholds);
      if |valueCategory| <= nbuckets {
        if valueCategory == [] {
          return NoCategory;
        }
        ChosenThresholds(sorted, maxFinite, nbuckets, valueCategory, cuts, binThresholds);
        binThresholds := valueCategory[1..];
      } else {
        ChosenThresholds(sorted, maxFinite, nbuckets, valueCategory, cuts, binThresholds);
      }
      assert |Categories(sorted, maxFinite)| > nbuckets ==>
             QuantileThresholds(sorted, maxFinite, nbuckets, binThresholds);
      WithInfinity(binThresholds, nbuckets);
      thresholds := ToExt(binThresholds) + [Inf];
      forall t | t in thresholds && t.Fin? ensures t.v in x { SortMembers(x, t.v); }
      if |x| > nbuckets && Apart(sorted) {
        ApartBelow(sorted, maxFinite);
        ApartCategories(sorted, maxFinite);
        QuantilesEven(sorted, maxFinite, nbuckets, binThresholds);
      }
      res := Fitted;
    }

    method Transform(x: seq<Ext>) returns (ret: seq<nat>)
      ensures |ret| == |x|
      ensures forall i :: 0 <= i < |x| ==> ret[i] == LowerBound(thresholds, x[i]) % 0x10000
    {
      ret := [];
      for i := 0 to |x|
        invariant |ret| == i
        invariant forall j :: 0 <= j < i ==> ret[j] == LowerBound(thresholds, x[j]) % 0x10000
      {
        var bin := LowerBound(thresholds, x[i]);
        ret := ret + [bin % 0x10000];
      }
    }
  }
}

/** Copies between places of one buffer, one element at a time: `src/libspu/core/ndarray_ref.cc`. */
module Copying {

  ghost predicate InRange(places: seq<nat>, size: nat) {
    forall j :: 0 <= j < |places| ==> places[j] < size
  }

  ghost predicate AllDifferent(places: seq<nat>) {
    forall i, j :: 0 <= i < j < |places| ==> places[i] != places[j]
  }

  /** The buffer after the first `n` places have been given the first `n` values. */
  ghost function WriteAll<T>(b: seq<T>, to: seq<nat>, vals: seq<T>, n: nat): (r: seq<T>)
    requires InRange(to, |b|) && n <= |to| && n <= |vals|
    ensures |r| == |b|
  {
    if n == 0 then b else WriteAll(b, to, vals, n - 1)[to[n - 1] := vals[n - 1]]
  }

  lemma {:induction false} WriteHit<T>(b: seq<T>, to: seq<nat>, vals: seq<T>, n: nat, j: nat)
    requires InRange(to, |b|) && AllDifferent(to) && j < n <= |to| && n <= |vals|
    ensures WriteAll(b, to, vals, n)[to[j]] == vals[j]
  {
    if j < n - 1 {
      WriteHit(b, to, vals, n - 1, j);
    }
  }

  lemma {:induction false} WriteMiss<T>(b: seq<T>, to: seq<nat>, vals: seq<T>, n: nat, a: nat)
    requires InRange(to, |b|) && n <= |to| && n <= |vals| && a < |b|
    requires forall j :: 0 <= j < n ==> to[j] != a
    ensures WriteAll(b, to, vals, n)[a] == b[a]
  {
    if n > 0 {
      WriteMiss(b, to, vals, n - 1, a);
    }
  }

  /** `b` with the first `n` values put in from `off` on. */
  function Patched<T>(b: seq<T>, off: nat, vals: seq<T>, n: nat): (r: seq<T>)
    requires off + n <= |b| && n <= |vals|
    ensures |r| == |b|
  {
    b[..off] + vals[..n] + b[off + n..]
  }

  /** Writing consecutive places replaces a stretch. */
  lemma {:induction false} WriteRun<T>(b: seq<T>, to: seq<nat>, off: nat, vals: seq<T>, n: nat)
    requires InRange(to, |b|) && n <= |to| && n <= |vals| && off + n <= |b|
    requires forall j :: 0 <= j < n ==> to[j] == off + j
    ensures WriteAll(b, to, vals, n) == Patched(b, off, vals, n)
  {
    if n == 0 {
      assert b == b[..off] + vals[..0] + b[off..];
    } else {
      WriteRun(b, to, off, vals, n - 1);
      assert Patched(b, off, vals, n - 1)[off + n - 1 := vals[n - 1]] == Patched(b, off, vals, n);
    }
  }

  // ------------------------------------------------------------ overlapping copies

  /** The buffer after `n` steps of a copying loop: every step reads what the earlier ones left. */
  ghost function CopyRun<T>(b: seq<T>, from: seq<nat>, to: seq<nat>, n: nat): (r: seq<T>)
    requires InRange(from, |b|) && InRange(to, |b|) && n <= |from| && n <= |to|
    ensures |r| == |b|
  {
    if n == 0 then b else
      var was := CopyRun(b, from, to, n - 1);
      was[to[n - 1] := was[from[n - 1]]]
  }

  /**
   * The buffer after `n` steps of a loop that reads its values from the buffer itself or, if not `same`,
   * from `vals`.
   */
  ghost predicate Progress<T>(now: seq<T>, same: bool, b: seq<T>, from: seq<nat>, to: seq<nat>, vals: seq<T>, n: nat) {
    && InRange(to, |b|) && |from| == |to| == |vals| && n <= |to|
    && if same then InRange(from, |b|) && now == CopyRun(b, from, to, n) else now == WriteAll(b, to, vals, n)
  }

  lemma ProgressStep<T>(was: seq<T>, same: bool, b: seq<T>, from: seq<nat>, to: seq<nat>, vals: seq<T>, n: nat, x: T)
    requires Progress(was, same, b, from, to, vals, n) && n < |to|
    requires x == if same then was[from[n]] else vals[n]
    ensures Progress(was[to[n] := x], same, b, from, to, vals, n + 1)
  {
  }

  /** The elements at the given places. */
  ghost function ElementsAt<T>(b: seq<T>, from: seq<nat>): (r: seq<T>)
    requires InRange(from, |b|)
    ensures |r| == |from| && forall j :: 0 <= j < |from| ==> r[j] == b[from[j]]
  {
    seq(|from|, j requires 0 <= j < |from| => b[from[j]])
  }

  /** If step `i` writes what step `j` reads, it writes back the same element. */
  ghost predicate CleanAt(from: seq<nat>, to: seq<nat>, i: nat, j: nat)
    requires i < |from| && i < |to| && j < |from|
  {
    to[i] == from[j] ==> from[i] == from[j]
  }

  /** No step of the copy changes an element that a later step still has to read. */
  ghost predicate ReadsClean(from: seq<nat>, to: seq<nat>, n: nat)
    requires n <= |from| && n <= |to|
  {
    forall i: nat, j: nat :: i < j < n ==> CleanAt(from, to, i, j)
  }

  lemma StillThere<T>(b: seq<T>, from: seq<nat>, to: seq<nat>, k: nat)
    requires InRange(from, |b|) && InRange(to, |b|) && AllDifferent(to) && k < |from| && k < |to|
    requires ReadsClean(from, to, k + 1)
    ensures WriteAll(b, to, ElementsAt(b, from), k)[from[k]] == b[from[k]]
  {
    if i: nat :| i < k && to[i] == from[k] {
      assert CleanAt(from, to, i, k);
      WriteHit(b, to, ElementsAt(b, from), k, i);
    } else {
      WriteMiss(b, to, ElementsAt(b, from), k, from[k]);
    }
  }

  /** A clean copy writes the original elements. */
  lemma {:induction false} CleanCopy<T>(b: seq<T>, from: seq<nat>, to: seq<nat>, n: nat)
    requires InRange(from, |b|) && InRange(to, |b|) && AllDifferent(to) && n <= |from| && n <= |to|
    requires ReadsClean(from, to, n)
    ensures CopyRun(b, from, to, n) == WriteAll(b, to, ElementsAt(b, from), n)
  {
    if n > 0 {
      CleanCopy(b, from, to, n - 1);
      StillThere(b, from, to, n - 1);
    }
  }

  /** A copy that is not clean gets some element wrong, if all elements are different. */
  lemma {:induction false} UncleanCopy(b: seq<int>, from: seq<nat>, to: seq<nat>, n: nat) returns (k: nat)
    requires InRange(from, |b|) && InRange(to, |b|) && AllDifferent(to) && n <= |from| && n <= |to|
    requires !ReadsClean(from, to, n) && forall a :: 0 <= a < |b| ==> b[a] == a
    ensures k < n && CopyRun(b, from, to, n)[to[k]] != WriteAll(b, to, ElementsAt(b, from), n)[to[k]]
  {
    var last := n - 1;
    if ReadsClean(from, to, last) {
      var i: nat :| i < last && !CleanAt(from, to, i, last);
      CleanCopy(b, from, to, last);
      WriteHit(b, to, ElementsAt(b, from), last, i);
      k := last;
    } else {
      k := UncleanCopy(b, from, to, last);
    }
  }

  /** The copy within a buffer of the given size puts the original elements in place. */
  ghost predicate CopiesRight(b: seq<int>, size: nat, from: seq<nat>, to: seq<nat>)
    requires InRange(from, size) && InRange(to, size) && |from| == |to|
  {
    |b| == size ==> CopyRun(b, from, to, |to|) == WriteAll(b, to, ElementsAt(b, from), |to|)
  }

  /** A copy to different places of the same buffer is right, whatever the contents, exactly when it is clean. */
  lemma CopyRightIff(size: nat, from: seq<nat>, to: seq<nat>)
    requires InRange(from, size) && InRange(to, size) && AllDifferent(to) && |from| == |to|
    ensures ReadsClean(from, to, |to|) <==> forall b: seq<int> :: CopiesRight(b, size, from, to)
  {
    if ReadsClean(from, to, |to|) {
      forall b: seq<int> ensures CopiesRight(b, size, from, to) {
        if |b| == size {
          CleanCopy(b, from, to, |to|);
        }
      }
    } else {
      var b := Numbered(size);
      var k := UncleanCopy(b, from, to, |to|);
      assert !CopiesRight(b, size, from, to);
    }
  }

  /** A buffer with all elements different. */
  ghost function Numbered(size: nat): (b: seq<int>)
    ensures |b| == size && forall a :: 0 <= a < |b| ==> b[a] == a
  {
    seq(size, a => a)
  }
}

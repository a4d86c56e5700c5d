/** Product of a private 0/1 matrix and a secret-shared vector: `experimental/squirrel/bin_matvec_prot.cc`.
    Encryption is ideal: a ciphertext is its polynomial, homomorphic addition is exact. */
module BinMatVec {
  import opened Arith
  import opened Ring

  type Bit = b: int | 0 <= b <= 1

  /** Smallest power of two that is at least `n`: `absl::bit_ceil`. */
  function BitCeil(n: nat): (r: nat)
    requires n > 0
    ensures n <= r < 2 * n
  {
    if n == 1 then 1 else 2 * BitCeil((n + 1) / 2)
  }

  predicate IsPow2(n: nat) {
    n == 1 || (n > 0 && n % 2 == 0 && IsPow2(n / 2))
  }

  /** A power of two that bounds `n` is a multiple of `BitCeil(n)`. */
  lemma {:induction false} BitCeilDivides(n: nat, N: nat)
    requires 0 < n <= N && IsPow2(N)
    ensures N == (N / BitCeil(n)) * BitCeil(n)
    ensures N / BitCeil(n) >= 1
  {
    if n == 1 {
    } else {
      BitCeilDivides((n + 1) / 2, N / 2);
      var q := (N / 2) / BitCeil((n + 1) / 2);
      DivModUnique(N, BitCeil(n), q, 0);
    }
  }

  /** Distance between two neighbours when `n` samples share a polynomial of degree `N`. */
  function Gap(n: nat, N: nat): int
    requires 0 < n
  {
    N / BitCeil(n)
  }

  lemma {:induction false} BitCeilIsPow2(n: nat)
    requires n > 0
    ensures IsPow2(BitCeil(n))
  {
    if n > 1 { BitCeilIsPow2((n + 1) / 2); }
  }

  /** The degree is the gap times the one power of two that is at least `n` and below `2 * n`. */
  ghost predicate EvenlySpaced(gap: int, n: nat, N: nat) {
    exists p: nat :: IsPow2(p) && n <= p < 2 * n && gap * p == N
  }

  lemma GapIsEven(n: nat, N: nat)
    requires 0 < n <= N && IsPow2(N)
    ensures EvenlySpaced(Gap(n, N), n, N)
  {
    BitCeilDivides(n, N);
    BitCeilIsPow2(n);
    assert Gap(n, N) * BitCeil(n) == N;
  }

  /** `n` samples at this distance fit, each with a slot of its own. */
  lemma GapFits(i: nat, n: nat, N: nat)
    requires i < n <= N && IsPow2(N)
    ensures Gap(n, N) >= 1 && 0 <= i * Gap(n, N) < N
    ensures (i + 1) * Gap(n, N) == i * Gap(n, N) + Gap(n, N)
    ensures (i * Gap(n, N)) / Gap(n, N) == i && (i * Gap(n, N)) % Gap(n, N) == 0
  {
    BitCeilDivides(n, N);
    MultiplesFit(i, BitCeil(n), Gap(n, N));
  }

  lemma MultiplesFit(i: nat, c: nat, g: nat)
    requires i < c && g >= 1
    ensures 0 <= i * g < g * c && (i + 1) * g == i * g + g
    ensures (i * g) / g == i && (i * g) % g == 0
  {
    MulLe(i + 1, c, g);
    MulLe(0, i, g);
    DivModUnique(i * g, g, i, 0);
  }

  function Min(a: int, b: int): int {
    if a <= b then a else b
  }

  /** Number of samples in batch `b` of `n` samples, `N` to a batch. */
  function BatchLen(b: nat, n: nat, N: nat): int {
    Min(b * N + N, n) - b * N
  }

  lemma BatchLenPositive(b: nat, n: nat, N: nat)
    requires n > 0 && N > 0 && b < CeilDiv(n, N)
    ensures 0 < BatchLen(b, n, N) <= N
  {
    DivBounds(n + N - 1, N);
    MulLe(b + 1, CeilDiv(n, N), N);
    assert (b + 1) * N == b * N + N;
  }

  /** Sample `i` is number `i % N` of the existing batch `i / N`. */
  lemma BatchOf(i: nat, n: nat, N: nat)
    requires i < n && N > 0
    ensures 0 <= i / N < CeilDiv(n, N)
    ensures i == (i / N) * N + i % N && 0 <= i % N < BatchLen(i / N, n, N) <= N
  {
    DivBounds(i, N);
    DivBounds(n + N - 1, N);
    var q, c := i / N, CeilDiv(n, N);
    if q < 0 {
      MulLe(q + 1, 0, N);
    }
    if c <= q {
      MulLe(c + 1, q + 1, N);
    }
  }

  /** Slot of sample `i` among `n`: polynomial and coefficient. */
  function Loc(i: nat, n: nat, N: nat): (loc: (int, int))
    requires i < n && N > 0
  {
    BatchOf(i, n, N);
    (i / N, (i % N) * Gap(BatchLen(i / N, n, N), N))
  }

  /** Different samples have different slots, and every slot exists. */
  lemma LocInjective(i: nat, j: nat, n: nat, N: nat)
    requires i < n && j < n && IsPow2(N)
    ensures 0 <= Loc(i, n, N).0 < CeilDiv(n, N) && 0 <= Loc(i, n, N).1 < N
    ensures Loc(i, n, N) == Loc(j, n, N) <==> i == j
  {
    BatchOf(i, n, N);
    BatchOf(j, n, N);
    GapFits(i % N, BatchLen(i / N, n, N), N);
    if i / N == j / N {
      GapFits(j % N, BatchLen(i / N, n, N), N);
    }
  }

  class IndexMapper {
    const numSamples: nat
    const batchSize: nat
    var gaps: seq<int>

    ghost predicate Valid()
      reads this
    {
      && numSamples > 0 && IsPow2(batchSize) && |gaps| == CeilDiv(numSamples, batchSize)
      && forall b :: 0 <= b < |gaps| ==> GapAt(b, gaps[b], numSamples, batchSize)
    }

    constructor (numSamples: nat, batchSize: nat)
      requires numSamples > 0 && IsPow2(batchSize)
      ensures Valid() && this.numSamples == numSamples && this.batchSize == batchSize
      ensures forall b :: 0 <= b < |gaps| ==> EvenlySpaced(gaps[b], BatchLen(b, numSamples, batchSize), batchSize)
    {
      this.numSamples := numSamples;
      this.batchSize := batchSize;
      new;
      var numBatch := CeilDiv(numSamples, batchSize);
      BatchOf(0, numSamples, batchSize);
      var gs := seq(numBatch, _ => 1);
      for i := 0 to numBatch
        invariant |gs| == numBatch
        invariant forall b :: 0 <= b < i ==> GapAt(b, gs[b], numSamples, batchSize)
        invariant forall b :: 0 <= b < i ==> EvenlySpaced(gs[b], BatchLen(b, numSamples, batchSize), batchSize)
      {
        BatchLenPositive(i, numSamples, batchSize);
        var len := BatchLen(i, numSamples, batchSize);  // min(bgn + size, n) - bgn
        gs := gs[i := batchSize / BitCeil(len)];
        assert GapAt(i, gs[i], numSamples, batchSize);
        GapIsEven(len, batchSize);
      }
      gaps := gs;
    }

    method MapToLoc(sampleIndex: nat) returns (loc: (int, int))
      requires Valid() && sampleIndex < numSamples
      ensures loc == Loc(sampleIndex, numSamples, batchSize)
    {
      BatchOf(sampleIndex, numSamples, batchSize);
      var rlweIdx := sampleIndex / batchSize;
      assert GapAt(rlweIdx, gaps[rlweIdx], numSamples, batchSize);
      loc := (rlweIdx, (sampleIndex % batchSize) * gaps[rlweIdx]);
    }
  }

  ghost predicate GapAt(b: nat, gap: int, n: nat, N: nat) {
    0 < BatchLen(b, n, N) && gap == Gap(BatchLen(b, n, N), N)
  }

  /** The value `poly` must hold at position `j` when it encodes the first `upto` samples of `vec`. */
  function EncodedAt(j: nat, vec: seq<int>, upto: nat, gap: int): int
    requires gap >= 1 && upto <= |vec|
  {
    if j % gap == 0 && 0 <= j / gap < upto then vec[j / gap] else 0
  }

  /** `poly` holds `vec` at the multiples of the gap and zero elsewhere. */
  ghost predicate Encodes(poly: seq<int>, vec: seq<int>, N: nat)
    requires 0 < |vec|
  {
    && |poly| == N && Gap(|vec|, N) >= 1
    && forall j :: 0 <= j < N ==> poly[j] == EncodedAt(j, vec, |vec|, Gap(|vec|, N))
  }

  method EncodeVectorToPoly(vec: seq<int>, N: nat) returns (poly: seq<int>)
    requires 0 < |vec| <= N && IsPow2(N)
    ensures Encodes(poly, vec, N)
  {
    var n := |vec|;
    GapFits(0, n, N);
    if n == N {
      FullGap(N);
      poly := vec;
      return;
    }
    poly := seq(N, _ => 0);
    var gap := N / BitCeil(n);
    var i, j := 0, 0;
    while i < n
      invariant 0 <= i <= n && j == i * gap && |poly| == N && gap == Gap(n, N) >= 1
      invariant forall t :: 0 <= t < N ==> poly[t] == EncodedAt(t, vec, i, gap)
    {
      GapFits(i, n, N);
      forall t | 0 <= t < N && t != j ensures EncodedAt(t, vec, i, gap) == EncodedAt(t, vec, i + 1, gap) {
        DivBounds(t, gap);
      }
      poly := poly[j := vec[i]];
      i, j := i + 1, j + gap;
    }
  }

  lemma FullGap(N: nat)
    requires IsPow2(N)
    ensures Gap(N, N) == 1
  {
    GapFits(0, N, N);
    BitCeilDivides(N, N);
    var g := Gap(N, N);
    if g >= 2 {
      MulLe(2, g, BitCeil(N));
    }
  }

  method DecodePolyToVector(numel: nat, poly: seq<int>, N: nat) returns (ret: seq<int>)
    requires 0 < numel <= N == |poly| && IsPow2(N)
    ensures |ret| == numel
    ensures forall i {:trigger ret[i]} :: 0 <= i < numel ==> SlotIs(poly, i * Gap(numel, N), ret[i])
  {
    if N == numel {
      FullGap(N);
      ret := poly;
      return;
    }
    GapFits(0, numel, N);
    ret := seq(numel, _ => 0);
    var gap := N / BitCeil(numel);
    var i, j := 0, 0;
    while i < numel
      invariant 0 <= i <= numel && j == i * gap && |ret| == numel && gap == Gap(numel, N)
      invariant forall t {:trigger ret[t]} :: 0 <= t < i ==> SlotIs(poly, t * gap, ret[t])
    {
      GapFits(i, numel, N);
      ret := ret[i := poly[j]];
      i, j := i + 1, j + gap;
    }
  }

  ghost predicate SlotIs(poly: seq<int>, j: int, v: int) {
    0 <= j < |poly| && poly[j] == v
  }

  /** Encoding then decoding gives the vector back. */
  method EncodeDecode(vec: seq<int>, N: nat) returns (back: seq<int>)
    requires 0 < |vec| <= N && IsPow2(N)
    ensures back == vec
  {
    var poly := EncodeVectorToPoly(vec, N);
    back := DecodePolyToVector(|vec|, poly, N);
    forall i | 0 <= i < |vec| ensures back[i] == vec[i] {
      GapFits(i, |vec|, N);
      assert SlotIs(poly, i * Gap(|vec|, N), back[i]);
    }
  }

  // ------------------------------------------------------------ the product

  /** Samples selected by an indicator; the empty indicator selects all. */
  ghost function Selected(ind: seq<Bit>, n: nat): set<nat>
    requires ind == [] || |ind| == n
  {
    set c | 0 <= c < n && (ind == [] || ind[c] != 0)
  }

  /** Both parties' shares of a batch, added under encryption. */
  method AddEncoded(m: Modulus, p: seq<int>, q: seq<int>) returns (r: seq<int>)
    requires |p| == |q|
    ensures |r| == |p| && forall j :: 0 <= j < |p| ==> r[j] == (p[j] + q[j]) % m
  {
    r := seq(|p|, j requires 0 <= j < |p| => (p[j] + q[j]) % m);
  }

  /** The slot of sample `i` holds the sum of its two shares. */
  ghost predicate SlotHolds(polys: seq<seq<int>>, m: Modulus, v0: seq<int>, v1: seq<int>, i: nat, N: nat)
    requires |v0| == |v1| && i < |v0| && N > 0
  {
    var loc := Loc(i, |v0|, N);
    0 <= loc.0 < |polys| && SlotIs(polys[loc.0], loc.1, (v0[i] + v1[i]) % m)
  }

  /** `A2hSend` and `A2hRecv`: the polynomials that hold `v0 + v1`, batch by batch. */
  method ShareToPolys(m: Modulus, v0: seq<int>, v1: seq<int>, N: nat) returns (polys: seq<seq<int>>)
    requires |v0| == |v1| > 0 && IsPow2(N)
    ensures |polys| == CeilDiv(|v0|, N)
    ensures forall i: nat :: i < |v0| ==> SlotHolds(polys, m, v0, v1, i, N)
  {
    var n := |v0|;
    var numRlwes := CeilDiv(n, N);
    BatchOf(0, n, N);
    polys := [];
    forall i: nat | i < n ensures 0 <= i / N { BatchOf(i, n, N); }
    for b := 0 to numRlwes
      invariant |polys| == b
      invariant forall i: nat :: i < n && i / N < b ==> SlotHolds(polys, m, v0, v1, i, N)
    {
      BatchLenPositive(b, n, N);
      var bgn := b * N;
      MulLe(0, b, N);
      var end := Min(bgn + N, n);
      assert 0 <= bgn < end <= n && 0 < end - bgn <= N;
      var p := EncodeVectorToPoly(v0[bgn..end], N);
      var q := EncodeVectorToPoly(v1[bgn..end], N);
      var r := AddEncoded(m, p, q);
      forall i: nat | i < n && i / N < b + 1 ensures SlotHolds(polys + [r], m, v0, v1, i, N) {
        BatchOf(i, n, N);
        if i / N == b {
          NewBatchSlot(m, v0, v1, p, q, r, b, i, N);
        } else {
          assert SlotHolds(polys, m, v0, v1, i, N);
        }
      }
      polys := polys + [r];
    }
    forall i: nat | i < n ensures SlotHolds(polys, m, v0, v1, i, N) {
      BatchOf(i, n, N);
    }
  }

  lemma NewBatchSlot(m: Modulus, v0: seq<int>, v1: seq<int>, p: seq<int>, q: seq<int>, r: seq<int>, b: nat, i: nat,
                     N: nat)
    requires IsPow2(N) && |v0| == |v1| && i < |v0| && i / N == b
    requires var bgn, end := b * N, Min(b * N + N, |v0|);
             0 <= bgn < end <= |v0| && Encodes(p, v0[bgn..end], N) && Encodes(q, v1[bgn..end], N)
    requires |r| == N && forall j :: 0 <= j < N ==> r[j] == (p[j] + q[j]) % m
    ensures SlotIs(r, Loc(i, |v0|, N).1, (v0[i] + v1[i]) % m)
  {
    BatchOf(i, |v0|, N);
    var bgn, end, t := b * N, Min(b * N + N, |v0|), i % N;
    GapFits(t, end - bgn, N);
    assert v0[bgn..end][t] == v0[i] && v1[bgn..end][t] == v1[i];
  }

  /** Picks the coefficients of the selected samples of one row, in any order, and adds them. */
  method PickThenSum(m: Modulus, mapper: IndexMapper, row: set<nat>, ind: seq<Bit>, polys: seq<seq<int>>,
                     ghost v0: seq<int>, ghost v1: seq<int>)
    returns (acc: int)
    requires mapper.Valid() && |v0| == |v1| == mapper.numSamples
    requires ind == [] || |ind| == |v0|
    requires forall c :: c in row ==> c < |v0|
    requires forall i: nat :: i < |v0| ==> SlotHolds(polys, m, v0, v1, i, mapper.batchSize)
    ensures Cong(m, acc, TwoSums(v0, v1, row * Selected(ind, |v0|)))
  {
    ghost var n := |v0|;
    ghost var sel := Selected(ind, n);
    ghost var picked: set<nat> := {};
    acc := 0;
    var todo := row;
    MaskSumEmpty(v0, picked, n);
    MaskSumEmpty(v1, picked, n);
    while todo != {}
      invariant todo <= row && picked == (row - todo) * sel
      invariant Cong(m, acc, TwoSums(v0, v1, picked))
      decreases todo
    {
      var c :| c in todo;
      PickOne(row, todo, sel, c);
      todo := todo - {c};
      if ind != [] && ind[c] == 0 {
        continue;
      }
      var loc := mapper.MapToLoc(c);
      assert SlotHolds(polys, m, v0, v1, c, mapper.batchSize);
      AddOneSample(m, v0, v1, picked, c, acc, polys[loc.0][loc.1]);
      acc := acc + polys[loc.0][loc.1];
      picked := picked + {c};
    }
    assert row - todo == row;
  }

  lemma PickOne(row: set<nat>, todo: set<nat>, sel: set<nat>, c: nat)
    requires todo <= row && c in todo
    ensures (row - (todo - {c})) * sel == (row - todo) * sel + (if c in sel then {c} else {})
    ensures todo - {c} < todo
  {
  }

  /** The sum over `s` of both shares. */
  ghost function TwoSums(v0: seq<int>, v1: seq<int>, s: set<nat>): int
    requires |v0| == |v1|
  {
    MaskSum(v0, s, |v0|) + MaskSum(v1, s, |v1|)
  }

  lemma AddOneSample(m: Modulus, v0: seq<int>, v1: seq<int>, s: set<nat>, c: nat, acc: int, coeff: int)
    requires |v0| == |v1| && c < |v0| && c !in s
    requires Cong(m, acc, TwoSums(v0, v1, s)) && coeff == (v0[c] + v1[c]) % m
    ensures Cong(m, acc + coeff, TwoSums(v0, v1, s + {c}))
  {
    MaskSumAddOne(v0, s, c, |v0|);
    MaskSumAddOne(v1, s, c, |v1|);
    CongReduce(m, v0[c] + v1[c]);
    CongAdd(m, acc, TwoSums(v0, v1, s), coeff, v0[c] + v1[c]);
  }

  /** The two parties' outputs: shares of M * diag(ind) * (v0 + v1), masked arbitrarily. */
  method Multiply(m: Modulus, N: nat, rows: seq<set<nat>>, ind: seq<Bit>, v0: seq<int>, v1: seq<int>)
    returns (z0: seq<int>, z1: seq<int>)
    requires |v0| == |v1| > 0 && IsPow2(N) && (ind == [] || |ind| == |v0|)
    requires forall r, c :: 0 <= r < |rows| && c in rows[r] ==> c < |v0|
    ensures |z0| == |z1| == |rows|
    ensures forall r :: 0 <= r < |rows| ==>
              Cong(m, z0[r] + z1[r], TwoSums(v0, v1, rows[r] * Selected(ind, |v0|)))
  {
    var polys := ShareToPolys(m, v0, v1, N);
    var mapper := new IndexMapper(|v0|, N);
    z0, z1 := [], [];
    ghost var n := |v0|;
    for r := 0 to |rows|
      invariant |z0| == |z1| == r && mapper.Valid()
      invariant forall t :: 0 <= t < r ==>
                  Cong(m, z0[t] + z1[t], TwoSums(v0, v1, rows[t] * Selected(ind, n)))
    {
      var acc := PickThenSum(m, mapper, rows[r], ind, polys, v0, v1);
      var mask: int := *;
      ghost var want := TwoSums(v0, v1, rows[r] * Selected(ind, n));
      CongReduce(m, mask);
      CongReduce(m, acc - mask);
      CongAdd(m, mask % m, mask, (acc - mask) % m, acc - mask);
      CongTrans(m, mask % m + (acc - mask) % m, acc, want);
      z0 := z0 + [mask % m];
      z1 := z1 + [(acc - mask) % m];
    }
  }
}

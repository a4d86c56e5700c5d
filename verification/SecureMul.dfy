/** Products of additive shares and private bits: `experimental/squirrel/utils.cc`.
    Correlated oblivious transfer and the private-bit product are ideal: masks are arbitrary. */
module SecureMul {
  import opened Ring
  import opened BinMatVec

  /** Correlated OT: the receiver's output minus the sender's is `corr * choice`. */
  method CorrelatedOT(m: Modulus, corr: seq<int>, choice: seq<Bit>) returns (sent: seq<int>, received: seq<int>)
    requires |corr| == |choice|
    ensures |sent| == |received| == |corr|
    ensures forall i :: 0 <= i < |corr| ==> Cong(m, received[i] - sent[i], corr[i] * choice[i])
  {
    sent, received := [], [];
    for i := 0 to |corr|
      invariant |sent| == |received| == i
      invariant forall j :: 0 <= j < i ==> Cong(m, received[j] - sent[j], corr[j] * choice[j])
    {
      var mask: int := *;
      CongReduce(m, mask);
      CongReduce(m, mask + corr[i] * choice[i]);
      CongSub(m, (mask + corr[i] * choice[i]) % m, mask + corr[i] * choice[i], mask % m, mask);
      sent := sent + [mask % m];
      received := received + [(mask + corr[i] * choice[i]) % m];
    }
  }

  /** The vector of `x[i] * (b[i] & 1)`. */
  method Correlation(m: Modulus, x: seq<int>, b: seq<Bit>) returns (corr: seq<int>)
    requires |x| == |b|
    ensures |corr| == |x| && forall i :: 0 <= i < |x| ==> corr[i] == x[i] * b[i] % m
  {
    corr := [];
    for i := 0 to |x|
      invariant |corr| == i && forall j :: 0 <= j < i ==> corr[j] == x[j] * b[j] % m
    {
      corr := corr + [x[i] * b[i] % m];
    }
  }

  method Minus(m: Modulus, x: seq<int>, y: seq<int>) returns (r: seq<int>)
    requires |x| == |y|
    ensures |r| == |x| && forall i :: 0 <= i < |x| ==> Cong(m, r[i], x[i] - y[i])
  {
    r := [];
    for i := 0 to |x|
      invariant |r| == i && forall j :: 0 <= j < i ==> Cong(m, r[j], x[j] - y[j])
    {
      CongReduce(m, x[i] - y[i]);
      r := r + [(x[i] - y[i]) % m];
    }
  }

  /** `(x0 + x1) * (b0 & b1)`, shared again. */
  method MulArithShareWithANDBoolShare(m: Modulus, x0: seq<int>, b0: seq<Bit>, x1: seq<int>, b1: seq<Bit>)
    returns (out0: seq<int>, out1: seq<int>)
    requires |x0| == |x1| == |b0| == |b1|
    ensures |out0| == |out1| == |x0|
    ensures forall i :: 0 <= i < |x0| ==> Cong(m, out0[i] + out1[i], (x0[i] + x1[i]) * (b0[i] * b1[i]))
  {
    var corr0 := Correlation(m, x0, b0);
    var corr1 := Correlation(m, x1, b1);
    var temp0, oup1 := CorrelatedOT(m, corr0, b1);  // party 0 sends, party 1 chooses
    var temp1, oup0 := CorrelatedOT(m, corr1, b0);  // and the other way round
    out0 := Minus(m, oup0, temp0);
    out1 := Minus(m, oup1, temp1);
    forall i | 0 <= i < |x0|
      ensures Cong(m, out0[i] + out1[i], (x0[i] + x1[i]) * (b0[i] * b1[i]))
    {
      TwoTransfers(m, x0[i], b0[i], x1[i], b1[i], temp0[i], oup1[i], temp1[i], oup0[i]);
      CongAdd(m, out0[i], oup0[i] - temp0[i], out1[i], oup1[i] - temp1[i]);
      CongTrans(m, out0[i] + out1[i], (oup0[i] - temp0[i]) + (oup1[i] - temp1[i]), (x0[i] + x1[i]) * (b0[i] * b1[i]));
    }
  }

  lemma TwoTransfers(m: Modulus, x0: int, b0: Bit, x1: int, b1: Bit, t0: int, r1: int, t1: int, r0: int)
    requires Cong(m, r1 - t0, (x0 * b0 % m) * b1) && Cong(m, r0 - t1, (x1 * b1 % m) * b0)
    ensures Cong(m, (r0 - t0) + (r1 - t1), (x0 + x1) * (b0 * b1))
  {
    var p, q := x0 * b0, x1 * b1;
    OneTransfer(m, p, b1, r1 - t0);
    OneTransfer(m, q, b0, r0 - t1);
    JoinedProducts(x0, b0, p, x1, b1, q);
    SumOfTransfers(m, r1 - t0, p * b1, r0 - t1, q * b0, (r0 - t0) + (r1 - t1), (x0 + x1) * (b0 * b1));
  }

  lemma OneTransfer(m: Modulus, p: int, b: Bit, d: int)
    requires Cong(m, d, (p % m) * b)
    ensures Cong(m, d, p * b)
  {
    CongReduce(m, p);
    CongMul(m, p % m, p, b);
    CongTrans(m, d, (p % m) * b, p * b);
  }

  lemma JoinedProducts(x0: int, b0: Bit, p: int, x1: int, b1: Bit, q: int)
    requires p == x0 * b0 && q == x1 * b1
    ensures p * b1 + q * b0 == (x0 + x1) * (b0 * b1)
  {
    if b0 == 0 {
      assert p == 0 && b0 * b1 == 0;
    } else if b1 == 0 {
      assert q == 0 && b0 * b1 == 0;
    } else {
      assert p == x0 && q == x1 && b0 * b1 == 1;
    }
  }

  lemma SumOfTransfers(m: Modulus, d: int, a: int, e: int, b: int, sum: int, value: int)
    requires Cong(m, d, a) && Cong(m, e, b) && sum == d + e && value == a + b
    ensures Cong(m, sum, value)
  {
    CongAdd(m, d, a, e, b);
  }

  /** Weight `w` times the `w`-th stretch of `n` bits; the results are concatenated. */
  method BatchMulArithShareWithANDBoolShare(m: Modulus, a0: seq<int>, bits0: seq<Bit>, a1: seq<int>, bits1: seq<Bit>,
                                            n: nat)
    returns (out0: seq<int>, out1: seq<int>)
    requires |a0| == |a1| && n > 0
    requires |bits0| == |bits1| == |a0| * n
    ensures |out0| == |out1| == |a0| * n
    ensures forall w, i :: 0 <= w < |a0| && 0 <= i < n ==> ProductAt(m, a0, bits0, a1, bits1, out0, out1, w, i, n)
  {
    out0, out1 := [], [];
    for w := 0 to |a0|
      invariant |out0| == |out1| == w * n
      invariant forall v, i :: 0 <= v < w && 0 <= i < n ==> ProductAt(m, a0, bits0, a1, bits1, out0, out1, v, i, n)
    {
      RowFits(w, |a0|, n);
      var p0, p1 := MulArithShareWithANDBoolShare(m, seq(n, _ => a0[w]), bits0[w * n..w * n + n],
                                                  seq(n, _ => a1[w]), bits1[w * n..w * n + n]);
      ghost var old0, old1 := out0, out1;
      out0, out1 := out0 + p0, out1 + p1;
      forall v, i | 0 <= v < w + 1 && 0 <= i < n
        ensures ProductAt(m, a0, bits0, a1, bits1, out0, out1, v, i, n)
      {
        RowFits(v, w + 1, n);
        if v < w {
          RowFits(v, w, n);
          assert ProductAt(m, a0, bits0, a1, bits1, old0, old1, v, i, n);
        } else {
          assert bits0[w * n..w * n + n][i] == bits0[w * n + i] && bits1[w * n..w * n + n][i] == bits1[w * n + i];
          assert out0[w * n + i] == p0[i] && out1[w * n + i] == p1[i];
        }
      }
    }
  }

  /** Position `i` of row `w` holds `weight w * (bit & bit)`. */
  ghost predicate ProductAt(m: Modulus, a0: seq<int>, bits0: seq<Bit>, a1: seq<int>, bits1: seq<Bit>,
                            out0: seq<int>, out1: seq<int>, w: nat, i: nat, n: nat)
    requires w < |a0| == |a1|
  {
    var p := w * n + i;
    && 0 <= p < |out0| && p < |out1| && p < |bits0| && p < |bits1|
    && Cong(m, out0[p] + out1[p], (a0[w] + a1[w]) * (bits0[p] * bits1[p]))
  }

  lemma RowFits(w: nat, rows: nat, n: nat)
    requires w < rows
    ensures 0 <= w * n && w * n + n <= rows * n && (w + 1) * n == w * n + n
  {
    Arith.MulLe(w + 1, rows, n);
    Arith.MulLe(0, w, n);
  }

  /** `(x0 + x1) * b` for a bit `b` that one party holds; the empty vector is all ones. */
  method MulArithShareWithPrivateBoolean(m: Modulus, x0: seq<int>, x1: seq<int>, b: seq<Bit>)
    returns (out0: seq<int>, out1: seq<int>)
    requires |x0| == |x1| == |b|
    ensures |out0| == |out1| == |x0|
    ensures forall i :: 0 <= i < |x0| ==> Cong(m, out0[i] + out1[i], (x0[i] + x1[i]) * b[i])
  {
    out0, out1 := [], [];
    for i := 0 to |x0|
      invariant |out0| == |out1| == i
      invariant forall j :: 0 <= j < i ==> Cong(m, out0[j] + out1[j], (x0[j] + x1[j]) * b[j])
    {
      var mask: int := *;
      var p := (x0[i] + x1[i]) * b[i];
      CongReduce(m, mask);
      CongReduce(m, p - mask);
      CongAdd(m, mask % m, mask, (p - mask) % m, p - mask);
      out0 := out0 + [mask % m];
      out1 := out1 + [(p - mask) % m];
    }
  }
}

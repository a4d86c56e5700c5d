/** Arithmetic in the ring Z_m, additive two-party shares, and sums over sets of positions. */
module Ring {
  import opened Arith

  /** The ring modulus; the program uses 2^32, 2^64 and 2^128. */
  type Modulus = m: int | 1 <= m witness 1

  /** `a` and `b` denote the same element of Z_m: steps of `m` lead from one to the other. */
  ghost predicate Cong(m: Modulus, a: int, b: int)
    decreases if a >= b then a - b else b - a
  {
    if a - b >= m then Cong(m, a - m, b) else if b - a >= m then Cong(m, a + m, b) else a == b
  }

  lemma {:induction false} CongIff(m: Modulus, a: int, b: int)
    ensures Cong(m, a, b) <==> (a - b) % m == 0
    decreases if a >= b then a - b else b - a
  {
    var q, r := (a - b) / m, (a - b) % m;
    assert a - b == q * m + r;
    if a - b >= m {
      CongIff(m, a - m, b);
      assert (a - m) - b == (q - 1) * m + r;
      DivModUnique((a - m) - b, m, q - 1, r);
    } else if b - a >= m {
      CongIff(m, a + m, b);
      assert (a + m) - b == (q + 1) * m + r;
      DivModUnique((a + m) - b, m, q + 1, r);
    } else {
      if a == b { MultipleMod(m, 0); }
      if r == 0 && q >= 1 { MulLe(1, q, m); }
      if r == 0 && q <= -1 { MulLe(q, -1, m); }
    }
  }

  /** The multiple of `m` between two congruent numbers. */
  lemma CongQuotient(m: Modulus, a: int, b: int) returns (k: int)
    requires Cong(m, a, b)
    ensures a - b == k * m
  {
    CongIff(m, a, b);
    k := (a - b) / m;
  }

  lemma CongMultiple(m: Modulus, a: int, b: int, k: int)
    requires a - b == k * m
    ensures Cong(m, a, b)
  {
    CongIff(m, a, b);
    MultipleMod(m, k);
  }

  lemma MultipleMod(m: Modulus, k: int)
    ensures (k * m) % m == 0
  {
    DivModUnique(k * m, m, k, 0);
  }

  lemma CongReduce(m: Modulus, a: int)
    ensures Cong(m, a % m, a)
  {
    assert a % m - a == (-(a / m)) * m;
    CongMultiple(m, a % m, a, -(a / m));
  }

  lemma CongAdd(m: Modulus, a: int, b: int, c: int, d: int)
    requires Cong(m, a, b) && Cong(m, c, d)
    ensures Cong(m, a + c, b + d)
  {
    var j := CongQuotient(m, a, b);
    var k := CongQuotient(m, c, d);
    assert (a + c) - (b + d) == j * m + k * m == (j + k) * m;
    CongMultiple(m, a + c, b + d, j + k);
  }

  lemma CongMul(m: Modulus, a: int, b: int, c: int)
    requires Cong(m, a, b)
    ensures Cong(m, a * c, b * c)
  {
    var j := CongQuotient(m, a, b);
    assert a * c - b * c == (a - b) * c == (j * m) * c;
    assert (j * m) * c == (j * c) * m;
    CongMultiple(m, a * c, b * c, j * c);
  }

  lemma CongSub(m: Modulus, a: int, b: int, c: int, d: int)
    requires Cong(m, a, b) && Cong(m, c, d)
    ensures Cong(m, a - c, b - d)
  {
    CongMul(m, c, d, -1);
    CongAdd(m, a, b, -c, -d);
  }

  lemma CongSym(m: Modulus, a: int, b: int)
    requires Cong(m, a, b)
    ensures Cong(m, b, a)
  {
    var k := CongQuotient(m, a, b);
    assert b - a == (-k) * m;
    CongMultiple(m, b, a, -k);
  }

  lemma CongTrans(m: Modulus, a: int, b: int, c: int)
    requires Cong(m, a, b) && Cong(m, b, c)
    ensures Cong(m, a, c)
  {
    var j := CongQuotient(m, a, b);
    var k := CongQuotient(m, b, c);
    assert a - c == j * m + k * m == (j + k) * m;
    CongMultiple(m, a, c, j + k);
  }

  /** Congruence is equality of residues. */
  lemma CongMod(m: Modulus, a: int, b: int)
    ensures Cong(m, a, b) <==> a % m == b % m
  {
    if Cong(m, a, b) {
      var k := CongQuotient(m, a, b);
      assert a == (b / m + k) * m + b % m by {
        assert b == (b / m) * m + b % m;
        assert (b / m + k) * m == (b / m) * m + k * m;
      }
      DivModUnique(a, m, b / m + k, b % m);
    }
    if a % m == b % m {
      assert a - b == (a / m) * m - (b / m) * m == (a / m - b / m) * m;
      CongMultiple(m, a, b, a / m - b / m);
    }
  }

  /** The sum of `v[c]` over the positions `c < n` that lie in `s`. */
  ghost function MaskSum(v: seq<int>, s: set<nat>, n: nat): int
    requires n <= |v|
  {
    if n == 0 then 0 else MaskSum(v, s, n - 1) + (if n - 1 in s then v[n - 1] else 0)
  }

  lemma {:induction false} MaskSumAddOne(v: seq<int>, s: set<nat>, c: nat, n: nat)
    requires n <= |v| && c !in s
    ensures MaskSum(v, s + {c}, n) == MaskSum(v, s, n) + (if c < n then v[c] else 0)
  {
    if n > 0 {
      MaskSumAddOne(v, s, c, n - 1);
    }
  }

  lemma {:induction false} MaskSumUnion(v: seq<int>, s: set<nat>, t: set<nat>, n: nat)
    requires n <= |v| && s !! t
    ensures MaskSum(v, s + t, n) == MaskSum(v, s, n) + MaskSum(v, t, n)
  {
    if n > 0 {
      MaskSumUnion(v, s, t, n - 1);
    }
  }

  lemma {:induction false} MaskSumEmpty(v: seq<int>, s: set<nat>, n: nat)
    requires n <= |v|
    requires forall c: nat :: c < n ==> c !in s
    ensures MaskSum(v, s, n) == 0
  {
    if n > 0 {
      MaskSumEmpty(v, s, n - 1);
    }
  }

  /** Only the positions below `n` matter. */
  lemma {:induction false} MaskSumSame(v: seq<int>, s: set<nat>, t: set<nat>, n: nat)
    requires n <= |v|
    requires forall c: nat :: c < n ==> (c in s <==> c in t)
    ensures MaskSum(v, s, n) == MaskSum(v, t, n)
  {
    if n > 0 {
      MaskSumSame(v, s, t, n - 1);
    }
  }

  /** If two shares sum to `r` masked by `t`, sums of shares over `s` are sums of `r` over `s * t`. */
  lemma {:induction false} MaskSumShares(m: Modulus, x: seq<int>, y: seq<int>, r: seq<int>, s: set<nat>, t: set<nat>,
                                         n: nat)
    requires n <= |x| && |x| == |y| == |r|
    requires forall c: nat :: c < n ==> Cong(m, x[c] + y[c], if c in t then r[c] else 0)
    ensures Cong(m, MaskSum(x, s, n) + MaskSum(y, s, n), MaskSum(r, s * t, n))
  {
    if n > 0 {
      MaskSumShares(m, x, y, r, s, t, n - 1);
      if n - 1 in s {
        CongAdd(m, MaskSum(x, s, n - 1) + MaskSum(y, s, n - 1), MaskSum(r, s * t, n - 1),
                x[n - 1] + y[n - 1], if n - 1 in t then r[n - 1] else 0);
      }
    }
  }
}

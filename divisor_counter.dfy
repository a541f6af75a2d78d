/** The mixed-radix counter behind `Divisors(pf)`: digit `i` runs over the
    exponents `0..e_i` of prime `p_i`, and one extra top digit signals the
    wrap-around. A digit vector has a rank (its number in mixed radix, the
    weight of digit `i` being the number of divisors of the first `i` prime
    powers) and a value (the divisor it selects). */
module DivisorCounter {
  import opened NumberTheory
  import opened Factorization

  /** Weight of digit `i`: `prod_{j < i} (e_j + 1)`. */
  function Weight(pf: seq<PrimePower>, i: nat): nat
    requires i <= |pf|
  {
    NumDivisors(pf[..i])
  }

  /** Rank of the digits `d[..k]`: `sum_{i < k} d_i * Weight(i)`. */
  function Rank(pf: seq<PrimePower>, d: seq<nat>, k: nat): int
    requires k <= |pf| + 1 && k <= |d|
  {
    if k == 0 then 0 else Rank(pf, d, k - 1) + d[k - 1] * Weight(pf, k - 1)
  }

  /** Value of the digits `d[..k]`: `prod_{i < k} p_i^(d_i)`. */
  function Val(pf: seq<PrimePower>, d: seq<nat>, k: nat): int
    requires k <= |pf| && k <= |d|
  {
    if k == 0 then 1 else Val(pf, d, k - 1) * Pow(pf[k - 1].prime, d[k - 1])
  }

  /** Every digit below `k` is an exponent the factorization allows. */
  predicate InRange(pf: seq<PrimePower>, d: seq<nat>, k: nat)
    requires k <= |pf| && k <= |d|
  {
    forall i :: 0 <= i < k ==> d[i] <= pf[i].exp
  }

  lemma WeightStep(pf: seq<PrimePower>, i: nat)
    requires i < |pf|
    ensures Weight(pf, i + 1) == Weight(pf, i) * (pf[i].exp + 1)
  {
    PrefixLast(pf, i);
  }

  // ---------------------------------------------------------------------
  // Rank and value depend only on the digits they read.

  lemma {:induction false} RankFrame(pf: seq<PrimePower>, d: seq<nat>, d': seq<nat>, k: nat)
    requires k <= |pf| + 1 && k <= |d| && k <= |d'|
    requires forall j :: 0 <= j < k ==> d[j] == d'[j]
    ensures Rank(pf, d, k) == Rank(pf, d', k)
  {
    if k > 0 {
      RankFrame(pf, d, d', k - 1);
    }
  }

  lemma {:induction false} ValFrame(pf: seq<PrimePower>, d: seq<nat>, d': seq<nat>, k: nat)
    requires k <= |pf| && k <= |d| && k <= |d'|
    requires forall j :: 0 <= j < k ==> d[j] == d'[j]
    ensures Val(pf, d, k) == Val(pf, d', k)
  {
    if k > 0 {
      ValFrame(pf, d, d', k - 1);
    }
  }

  // ---------------------------------------------------------------------
  // Changing one digit.

  /** Setting digit `i` to `x` moves the rank by `(x - d_i) * Weight(i)`. */
  lemma {:induction false} RankUpdate(pf: seq<PrimePower>, d: seq<nat>, k: nat, i: nat, x: nat)
    requires i < k <= |pf| + 1 && k <= |d|
    ensures Rank(pf, d[i := x], k) == Rank(pf, d, k) + (x - d[i]) * Weight(pf, i)
  {
    if k - 1 > i {
      RankUpdate(pf, d, k - 1, i, x);
    } else {
      RankFrame(pf, d, d[i := x], i);
    }
  }

  /** Clearing digit `i` divides the value by `p_i^(d_i)`. */
  lemma {:induction false} ValClear(pf: seq<PrimePower>, d: seq<nat>, k: nat, i: nat)
    requires i < k <= |pf| && k <= |d|
    ensures Val(pf, d, k) == Val(pf, d[i := 0], k) * Pow(pf[i].prime, d[i])
  {
    var d0 := d[i := 0];
    if k - 1 > i {
      ValClear(pf, d, k - 1, i);
      MulSwap(Val(pf, d0, k - 1), Pow(pf[i].prime, d[i]), Pow(pf[k - 1].prime, d[k - 1]));
    } else {
      ValFrame(pf, d, d0, i);
    }
  }

  /** Incrementing digit `i` multiplies the value by `p_i`. */
  lemma {:induction false} ValIncrement(pf: seq<PrimePower>, d: seq<nat>, k: nat, i: nat)
    requires i < k <= |pf| && k <= |d|
    ensures Val(pf, d[i := d[i] + 1], k) == Val(pf, d, k) * pf[i].prime
  {
    var d1 := d[i := d[i] + 1];
    if k - 1 > i {
      ValIncrement(pf, d, k - 1, i);
      MulSwap(Val(pf, d, k - 1), pf[i].prime, Pow(pf[k - 1].prime, d[k - 1]));
    } else {
      ValFrame(pf, d, d1, i);
      MulAssoc(Val(pf, d, i), Pow(pf[i].prime, d[i]), pf[i].prime);
    }
  }

  // ---------------------------------------------------------------------
  // The range of the counter.

  /** Digits in range have rank below the weight of the next digit, and
      reach its last value only when every digit is at its maximum. */
  lemma {:induction false} RankBound(pf: seq<PrimePower>, d: seq<nat>, k: nat)
    requires k <= |pf| && k <= |d| && InRange(pf, d, k)
    ensures 0 <= Rank(pf, d, k) < Weight(pf, k)
    ensures Rank(pf, d, k) == Weight(pf, k) - 1 ==> forall i :: 0 <= i < k ==> d[i] == pf[i].exp
  {
    if k > 0 {
      RankBound(pf, d, k - 1);
      RankStepBound(pf, d, k - 1);
    }
  }

  lemma RankStepBound(pf: seq<PrimePower>, d: seq<nat>, k: nat)
    requires k < |pf| && k < |d| && d[k] <= pf[k].exp
    requires 0 <= Rank(pf, d, k) < Weight(pf, k)
    ensures 0 <= Rank(pf, d, k + 1) < Weight(pf, k + 1)
    ensures Rank(pf, d, k + 1) == Weight(pf, k + 1) - 1 ==>
      d[k] == pf[k].exp && Rank(pf, d, k) == Weight(pf, k) - 1
  {
    WeightStep(pf, k);
    MixedRadixStep(Rank(pf, d, k), Weight(pf, k), d[k], pf[k].exp);
  }

  // ---------------------------------------------------------------------
  // Values of particular digit vectors.

  lemma {:induction false} ZeroDigits(pf: seq<PrimePower>, d: seq<nat>, k: nat)
    requires k <= |pf| + 1 && k <= |d| && forall i :: 0 <= i < k ==> d[i] == 0
    ensures Rank(pf, d, k) == 0
    ensures k <= |pf| ==> Val(pf, d, k) == 1
  {
    if k > 0 {
      ZeroDigits(pf, d, k - 1);
    }
  }

  /** All digits at their maximum select the whole product. */
  lemma {:induction false} TopValue(pf: seq<PrimePower>, d: seq<nat>, k: nat)
    requires k <= |pf| && k <= |d| && forall i :: 0 <= i < k ==> d[i] == pf[i].exp
    ensures Val(pf, d, k) == Product(pf[..k])
  {
    if k > 0 {
      TopValue(pf, d, k - 1);
      PrefixLast(pf, k - 1);
    }
  }

  /** A value in range divides the product of the first `k` powers. */
  lemma {:induction false} ValDivides(pf: seq<PrimePower>, d: seq<nat>, k: nat) returns (c: int)
    requires k <= |pf| && k <= |d| && InRange(pf, d, k) && NonZeroPrimes(pf)
    ensures Val(pf, d, k) != 0 && Product(pf[..k]) == Val(pf, d, k) * c
  {
    if k == 0 {
      c := 1;
    } else {
      var c' := ValDivides(pf, d, k - 1);
      PrefixLast(pf, k - 1);
      var p, x, e := pf[k - 1].prime, d[k - 1], pf[k - 1].exp;
      PowAdd(p, x, e - x);
      PowNonZero(p, x);
      c := c' * Pow(p, e - x);
      MulRegroup(Val(pf, d, k - 1), c', Pow(p, x), Pow(p, e - x));
    }
  }

  // ---------------------------------------------------------------------
  // The values in the order the counter visits them.

  /** The divisors selected by the digit vectors, listed by rank: digit 0
      runs fastest, so the list for `pf` followed by `(p, e)` is the list
      for `pf`, then that list times `p`, and so on up to times `p^e`. */
  function CounterOrder(pf: seq<PrimePower>): (r: seq<int>)
    ensures |r| == NumDivisors(pf)
  {
    if pf == [] then [1] else Blocks(CounterOrder(pf[..|pf| - 1]), Last(pf).prime, Last(pf).exp + 1)
  }

  /** `s`, `s * p`, ..., `s * p^(k-1)`, one after the other. */
  function Blocks(s: seq<int>, p: int, k: nat): (r: seq<int>)
    ensures |r| == k * |s|
  {
    if k == 0 then [] else Blocks(s, p, k - 1) + Scaled(s, Pow(p, k - 1))
  }

  function Scaled(s: seq<int>, c: int): seq<int> {
    seq(|s|, i requires 0 <= i < |s| => s[i] * c)
  }

  /** Block `j` starts at `j * |s|` and holds `s` times `p^j`. */
  lemma {:induction false} BlocksAt(s: seq<int>, p: int, k: nat, j: nat, i: nat)
    requires j < k && i < |s|
    ensures i + j * |s| < k * |s| && Blocks(s, p, k)[i + j * |s|] == s[i] * Pow(p, j)
  {
    if j < k - 1 {
      BlocksAt(s, p, k - 1, j, i);
    } else {
      assert i + j * |s| == i + (k - 1) * |s|;
    }
  }

  /** Entry `r` of `s` reappears in block `x` at `r + x * |s|`, times `p^x`. */
  lemma EntryInBlock(s: seq<int>, p: int, e: nat, x: nat, r: int, v: int)
    requires x <= e && 0 <= r < |s| && s[r] == v
    ensures 0 <= r + x * |s| < |Blocks(s, p, e + 1)|
    ensures Blocks(s, p, e + 1)[r + x * |s|] == v * Pow(p, x)
  {
    BlocksAt(s, p, e + 1, x, r);
  }

  /** The order for a prefix one pair longer. */
  lemma OrderStep(pf: seq<PrimePower>, k: nat)
    requires k < |pf|
    ensures CounterOrder(pf[..k + 1]) == Blocks(CounterOrder(pf[..k]), pf[k].prime, pf[k].exp + 1)
    ensures |CounterOrder(pf[..k])| == Weight(pf, k)
  {
    PrefixLast(pf, k);
  }

  /** The entry at the rank of in-range digits is the value they select. */
  lemma {:induction false} CounterOrderAt(pf: seq<PrimePower>, d: seq<nat>, k: nat)
    requires k <= |pf| && k <= |d| && InRange(pf, d, k)
    ensures 0 <= Rank(pf, d, k) < |CounterOrder(pf[..k])|
    ensures CounterOrder(pf[..k])[Rank(pf, d, k)] == Val(pf, d, k)
  {
    if k == 0 {
      assert pf[..0] == [];
    } else {
      CounterOrderAt(pf, d, k - 1);
      OrderStep(pf, k - 1);
      EntryInBlock(CounterOrder(pf[..k - 1]), pf[k - 1].prime, pf[k - 1].exp, d[k - 1],
        Rank(pf, d, k - 1), Val(pf, d, k - 1));
    }
  }

  // ---------------------------------------------------------------------
  // Power sums of the listed divisors.

  /** `sum_i s_i^m`; with `m == 1` the plain sum. */
  function PowerSum(s: seq<int>, m: nat): int {
    if s == [] then 0 else PowerSum(s[..|s| - 1], m) + Pow(s[|s| - 1], m)
  }

  lemma {:induction false} PowerSumConcat(a: seq<int>, b: seq<int>, m: nat)
    ensures PowerSum(a + b, m) == PowerSum(a, m) + PowerSum(b, m)
    decreases |b|
  {
    if b == [] {
      assert a + b == a;
    } else {
      assert (a + b)[..|a + b| - 1] == a + b[..|b| - 1];
      PowerSumConcat(a, b[..|b| - 1], m);
    }
  }

  lemma {:induction false} PowerSumScaled(s: seq<int>, c: int, m: nat)
    ensures PowerSum(Scaled(s, c), m) == PowerSum(s, m) * Pow(c, m)
    decreases |s|
  {
    if s != [] {
      var s' := s[..|s| - 1];
      assert Scaled(s, c)[..|s| - 1] == Scaled(s', c);
      PowerSumScaled(s', c, m);
      PowOfProduct(s[|s| - 1], c, m);
    }
  }

  /** The blocks `s * p^j` for `j < k` add up to the sum over `s` times the
      geometric series of `p^m`. */
  lemma {:induction false} PowerSumBlocks(s: seq<int>, p: int, k: nat, m: nat)
    ensures PowerSum(Blocks(s, p, k), m) == PowerSum(s, m) * GeomSum(Pow(p, m), k)
  {
    if k > 0 {
      PowerSumBlocks(s, p, k - 1, m);
      PowerSumConcat(Blocks(s, p, k - 1), Scaled(s, Pow(p, k - 1)), m);
      PowerSumScaled(s, Pow(p, k - 1), m);
      PowSwap(p, k - 1, m);
      Distribute(PowerSum(s, m), GeomSum(Pow(p, m), k - 1), Pow(Pow(p, m), k - 1));
    }
  }

  lemma Distribute(a: int, b: int, c: int)
    ensures a * b + a * c == a * (b + c)
  {
  }

  lemma PowSwap(p: int, j: nat, m: nat)
    ensures Pow(Pow(p, j), m) == Pow(Pow(p, m), j)
  {
    PowMul(p, j, m);
    PowMul(p, m, j);
    assert j * m == m * j;
  }

  /** The `m`-th powers of the divisors the counter visits add up to
      `sigma_m`: the closed form `Sigma(pf, m)` is the sum it names. */
  lemma {:induction false} CounterOrderPowerSum(pf: seq<PrimePower>, m: nat)
    ensures PowerSum(CounterOrder(pf), m) == Sigma(pf, m)
  {
    if pf == [] {
      assert [1][..0] == [];
      PowOne(m);
    } else {
      CounterOrderPowerSum(pf[..|pf| - 1], m);
      PowerSumBlocks(CounterOrder(pf[..|pf| - 1]), Last(pf).prime, Last(pf).exp + 1, m);
    }
  }

  /** Reordering does not change a power sum. */
  lemma {:induction false} PowerSumPermutation(a: seq<int>, b: seq<int>, m: nat)
    requires multiset(a) == multiset(b)
    ensures PowerSum(a, m) == PowerSum(b, m)
    decreases |a|
  {
    assert |a| == |multiset(a)| == |multiset(b)| == |b|;
    if a != [] {
      var a', x := a[..|a| - 1], a[|a| - 1];
      assert a == a' + [x];
      assert x in multiset(b);
      var i :| 0 <= i < |b| && b[i] == x;
      var b' := b[..i] + b[i + 1..];
      assert b == b[..i] + [x] + b[i + 1..];
      assert multiset(b') == multiset(b) - multiset{x};
      assert multiset(a') == multiset(a) - multiset{x};
      PowerSumPermutation(a', b', m);
      PowerSumConcat(b[..i] + [x], b[i + 1..], m);
      PowerSumConcat(b[..i], [x], m);
      PowerSumConcat(b[..i], b[i + 1..], m);
      assert [x][..0] == [];
    }
  }
}

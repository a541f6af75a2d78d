/** The functions of `PrimeEngine` that fold a factorization into one number:
    `IntegerFromFactors`, `DivisorCount`, `DivisorSum`, `DivisorSigma_`,
    `DivisorSigma` and the `EulerPhi` loop, each proved to compute the closed
    form of its multiplicative function, together with the multiplicativity
    of those closed forms. */
module Multiplicative {
  import opened NumberTheory
  import opened Factorization

  // ---------------------------------------------------------------------
  // The closed forms are multiplicative: splitting a factorization splits
  // the value.

  lemma {:induction false} ProductConcat(a: seq<PrimePower>, b: seq<PrimePower>)
    ensures Product(a + b) == Product(a) * Product(b)
    decreases |b|
  {
    if b != [] {
      var b' := b[..|b| - 1];
      assert (a + b)[..|a + b| - 1] == a + b';
      assert Last(a + b) == Last(b);
      ProductConcat(a, b');
      MulAssoc(Product(a), Product(b'), Pow(Last(b).prime, Last(b).exp));
    } else {
      assert a + b == a;
    }
  }

  lemma {:induction false} NumDivisorsConcat(a: seq<PrimePower>, b: seq<PrimePower>)
    ensures NumDivisors(a + b) == NumDivisors(a) * NumDivisors(b)
    decreases |b|
  {
    if b != [] {
      var b' := b[..|b| - 1];
      assert (a + b)[..|a + b| - 1] == a + b';
      assert Last(a + b) == Last(b);
      NumDivisorsConcat(a, b');
      MulAssoc(NumDivisors(a), NumDivisors(b'), Last(b).exp + 1);
    } else {
      assert a + b == a;
    }
  }

  lemma {:induction false} SigmaConcat(a: seq<PrimePower>, b: seq<PrimePower>, m: nat)
    ensures Sigma(a + b, m) == Sigma(a, m) * Sigma(b, m)
    decreases |b|
  {
    if b != [] {
      var b' := b[..|b| - 1];
      assert (a + b)[..|a + b| - 1] == a + b';
      assert Last(a + b) == Last(b);
      SigmaConcat(a, b', m);
      MulAssoc(Sigma(a, m), Sigma(b', m), GeomSum(Pow(Last(b).prime, m), Last(b).exp + 1));
    } else {
      assert a + b == a;
    }
  }

  lemma {:induction false} TotientConcat(a: seq<PrimePower>, b: seq<PrimePower>)
    ensures Totient(a + b) == Totient(a) * Totient(b)
    decreases |b|
  {
    if b != [] {
      var b' := b[..|b| - 1];
      assert (a + b)[..|a + b| - 1] == a + b';
      assert Last(a + b) == Last(b);
      TotientConcat(a, b');
      MulAssoc(Totient(a), Totient(b'), TotientFactor(Last(b)));
    } else {
      assert a + b == a;
    }
  }

  /** The value of a suffix, unfolded at its first pair. */
  lemma ProductFrom(pf: seq<PrimePower>, k: nat)
    requires k < |pf|
    ensures Product(pf[k..]) == Pow(pf[k].prime, pf[k].exp) * Product(pf[k + 1..])
  {
    assert pf[k..] == [pf[k]] + pf[k + 1..];
    assert [pf[k]][..0] == [];
    ProductConcat([pf[k]], pf[k + 1..]);
  }

  /** With no divisor counted at exponent 0, `sigma_0` is the number of
      divisors. */
  lemma {:induction false} SigmaZero(pf: seq<PrimePower>)
    ensures Sigma(pf, 0) == NumDivisors(pf)
  {
    if pf != [] {
      SigmaZero(pf[..|pf| - 1]);
      GeomSumOfOne(Last(pf).exp + 1);
    }
  }

  /** Euler's product formula: `phi(n) * prod p == n * prod (p - 1)`. */
  lemma {:induction false} TotientClosedForm(pf: seq<PrimePower>)
    requires forall i :: 0 <= i < |pf| ==> pf[i].exp >= 1
    ensures Totient(pf) * Primes(pf) == Product(pf) * PrimesLessOne(pf)
  {
    if pf != [] {
      var q, p, e := pf[..|pf| - 1], Last(pf).prime, Last(pf).exp;
      TotientClosedForm(q);
      var a := Pow(p, e - 1);
      assert Pow(p, e) == a * p;
      MulRegroup(Totient(q), a * (p - 1), Primes(q), p);
      MulRegroup(Product(q), a * p, PrimesLessOne(q), p - 1);
      MulSwap(a, p - 1, p);
    }
  }

  /** The primes of a prime factorization are at least 2, and so is every
      positive power of them: none of the divisions above is by zero. */
  lemma FactorizationPrimes(pf: seq<PrimePower>, m: nat)
    requires IsPrimeFactorization(pf)
    ensures NonZeroPrimes(pf)
    ensures forall i :: 0 <= i < |pf| ==> pf[i].prime != 1
    ensures m >= 1 ==> forall i :: 0 <= i < |pf| ==> Pow(pf[i].prime, m) != 1
  {
    if m >= 1 {
      forall i | 0 <= i < |pf|
        ensures Pow(pf[i].prime, m) != 1
      {
        PowAtLeast(pf[i].prime, m);
      }
    }
  }

  // ---------------------------------------------------------------------
  // IntegerFromFactors.

  predicate InInt32(x: int) {
    -0x8000_0000 <= x < 0x8000_0000
  }

  /** Conversion to a 32-bit `int`, modulo `2^32`. */
  function Wrap32(x: int): (r: int)
    ensures InInt32(r)
    ensures InInt32(x) ==> r == x
    ensures (r - x) % 0x1_0000_0000 == 0
  {
    (x + 0x8000_0000) % 0x1_0000_0000 - 0x8000_0000
  }

  /** `IntegerFromFactors` as written: `std::accumulate` is seeded with the
      literal `1`, so its running total is an `int`, and after each pair the
      product is converted back to 32 bits. */
  function IntegerFromFactorsAsWritten(pf: seq<PrimePower>): (r: int)
    ensures InInt32(r)
  {
    if pf == [] then 1
    else Wrap32(IntegerFromFactorsAsWritten(pf[..|pf| - 1]) * Pow(Last(pf).prime, Last(pf).exp))
  }

  /** While every partial product fits in an `int`, the narrow accumulator
      does no harm. */
  lemma {:induction false} AsWrittenAgrees(pf: seq<PrimePower>)
    requires forall k :: 0 <= k <= |pf| ==> InInt32(Product(pf[..k]))
    ensures IntegerFromFactorsAsWritten(pf) == Product(pf)
  {
    if pf != [] {
      var q := pf[..|pf| - 1];
      forall k | 0 <= k <= |q|
        ensures InInt32(Product(q[..k]))
      {
        assert q[..k] == pf[..k];
      }
      AsWrittenAgrees(q);
      assert pf[..|pf|] == pf;
    }
  }

  /** `65537^2`, a factorization `FactorInteger` returns once the table
      reaches 65538, is rebuilt as `131073`. */
  lemma AsWrittenOverflows()
    ensures Product([PrimePower(65537, 2)]) == 4295098369
    ensures IntegerFromFactorsAsWritten([PrimePower(65537, 2)]) == 131073
  {
    var pf := [PrimePower(65537, 2)];
    assert pf[..0] == [];
    assert Pow(65537, 2) == 4295098369;
  }

  /** `IntegerFromFactors` with an accumulator as wide as `INT`: multiply the
      total by each prime, exponent times. */
  method IntegerFromFactors(pf: seq<PrimePower>) returns (total: int)
    ensures total == Product(pf)
  {
    total := 1;
    var k := 0;
    while k < |pf|
      invariant 0 <= k <= |pf|
      invariant total == Product(pf[..k])
    {
      var p := pf[k].prime;
      ghost var t0 := total;
      var i := 0;
      while i < pf[k].exp
        invariant 0 <= i <= pf[k].exp
        invariant total == t0 * Pow(p, i)
      {
        MulAssoc(t0, Pow(p, i), p);
        total := total * p;
        i := i + 1;
      }
      PrefixLast(pf, k);
      k := k + 1;
    }
    assert pf[..|pf|] == pf;
  }

  // ---------------------------------------------------------------------
  // The divisor functions.

  /** `DivisorCount(pf)`: `prod (e + 1)`. */
  method DivisorCount(pf: seq<PrimePower>) returns (r: int)
    ensures r == NumDivisors(pf)
  {
    r := 1;
    var k := 0;
    while k < |pf|
      invariant 0 <= k <= |pf|
      invariant r == NumDivisors(pf[..k])
    {
      PrefixLast(pf, k);
      r := r * (pf[k].exp + 1);
      k := k + 1;
    }
    assert pf[..|pf|] == pf;
  }

  /** Exact division of a geometric series in the powers of `p^m`:
      `(p^(m k) - 1) / (p^m - 1)`, with C++ division, is its sum. */
  lemma SeriesQuotient(p: int, m: nat, k: nat)
    requires Pow(p, m) != 1
    ensures TruncDiv(Pow(p, m * k) - 1, Pow(p, m) - 1) == GeomSum(Pow(p, m), k)
  {
    PowMul(p, m, k);
    GeomSumClosedForm(Pow(p, m), k);
    ExactDiv(Pow(p, m * k) - 1, Pow(p, m) - 1, GeomSum(Pow(p, m), k));
  }

  /** `DivisorSum(pf)`: `prod (p^(e+1) - 1) / (p - 1)`, the power computed by
      repeated multiplication. A prime of 1 would divide by zero. */
  method DivisorSum(pf: seq<PrimePower>) returns (r: int)
    requires forall i :: 0 <= i < |pf| ==> pf[i].prime != 1
    ensures r == Sigma(pf, 1)
  {
    r := 1;
    var k := 0;
    while k < |pf|
      invariant 0 <= k <= |pf|
      invariant r == Sigma(pf[..k], 1)
    {
      var p, e := pf[k].prime, pf[k].exp;
      var v := 1;
      var i := 0;
      while i <= e
        invariant 0 <= i <= e + 1
        invariant v == Pow(p, i)
      {
        v := v * p;
        i := i + 1;
      }
      v := v - 1;
      assert Pow(p, 1) == p;
      SeriesQuotient(p, 1, e + 1);
      PrefixLast(pf, k);
      r := r * TruncDiv(v, p - 1);
      k := k + 1;
    }
    assert pf[..|pf|] == pf;
  }

  /** `DivisorSigma_(pf, m)`: `prod (p^((e+1) m) - 1) / (p^m - 1)`. The
      quotient is undefined when `p^m == 1`. */
  method DivisorSigmaPower(pf: seq<PrimePower>, m: nat) returns (r: int)
    requires forall i :: 0 <= i < |pf| ==> Pow(pf[i].prime, m) != 1
    ensures r == Sigma(pf, m)
  {
    r := 1;
    var k := 0;
    while k < |pf|
      invariant 0 <= k <= |pf|
      invariant r == Sigma(pf[..k], m)
    {
      var p, e := pf[k].prime, pf[k].exp;
      SeriesQuotient(p, m, e + 1);
      assert (e + 1) * m == m * (e + 1);
      PrefixLast(pf, k);
      r := r * TruncDiv(Pow(p, (e + 1) * m) - 1, Pow(p, m) - 1);
      k := k + 1;
    }
    assert pf[..|pf|] == pf;
  }

  /** `DivisorSigma(pf, m)`: `m` must not be negative; 0 and 1 go to the
      divisor count and the divisor sum. */
  method DivisorSigma(pf: seq<PrimePower>, m: int) returns (r: int)
    requires m >= 0
    requires m >= 1 ==> forall i :: 0 <= i < |pf| ==> Pow(pf[i].prime, m) != 1
    ensures r == Sigma(pf, m)
  {
    if m == 0 {
      r := DivisorCount(pf);
      SigmaZero(pf);
    } else if m == 1 {
      forall i | 0 <= i < |pf|
        ensures pf[i].prime != 1
      {
        assert Pow(pf[i].prime, 1) == pf[i].prime;
      }
      r := DivisorSum(pf);
    } else {
      r := DivisorSigmaPower(pf, m);
    }
  }

  // ---------------------------------------------------------------------
  // EulerPhi.

  /** One pass of the `EulerPhi` loop: dividing by `p` and multiplying by
      `p - 1` turns the first factor `p^e` of what is left into the totient
      factor `p^(e-1) (p - 1)`. */
  lemma PhiStep(pf: seq<PrimePower>, k: nat, r: int)
    requires k < |pf| && pf[k].prime != 0 && pf[k].exp >= 1
    requires r == Totient(pf[..k]) * Product(pf[k..])
    ensures TruncDiv(r, pf[k].prime) * (pf[k].prime - 1)
         == Totient(pf[..k + 1]) * Product(pf[k + 1..])
  {
    var p, e := pf[k].prime, pf[k].exp;
    var t, a, rest := Totient(pf[..k]), Pow(p, e - 1), Product(pf[k + 1..]);
    ProductFrom(pf, k);
    assert Pow(p, e) == a * p;
    PhiRegroup(t, a, p, rest);
    ExactDiv(r, p, (t * a) * rest);
    PrefixLast(pf, k);
    assert Totient(pf[..k + 1]) == t * (a * (p - 1));
  }

  lemma PhiRegroup(t: int, a: int, p: int, rest: int)
    ensures t * ((a * p) * rest) == p * ((t * a) * rest)
    ensures ((t * a) * rest) * (p - 1) == (t * (a * (p - 1))) * rest
  {
  }

  /** `EulerPhi(n, pf)`: for each pair, `n /= p; n *= p - 1`. Started from
      the number the factorization stands for, it ends at the totient. */
  method EulerPhiFrom(n: int, pf: seq<PrimePower>) returns (r: int)
    requires NonZeroPrimes(pf)
    ensures n == Product(pf) && (forall i :: 0 <= i < |pf| ==> pf[i].exp >= 1) ==> r == Totient(pf)
  {
    ghost var exact := n == Product(pf) && forall i :: 0 <= i < |pf| ==> pf[i].exp >= 1;
    r := n;
    var k := 0;
    assert pf[k..] == pf;
    while k < |pf|
      invariant 0 <= k <= |pf|
      invariant exact ==> r == Totient(pf[..k]) * Product(pf[k..])
    {
      if exact {
        PhiStep(pf, k, r);
      }
      r := TruncDiv(r, pf[k].prime);
      r := r * (pf[k].prime - 1);
      k := k + 1;
    }
    assert pf[..|pf|] == pf;
  }

  /** `EulerPhi(pf)`: the loop started from `IntegerFromFactors(pf)`. */
  method EulerPhi(pf: seq<PrimePower>) returns (r: int)
    requires NonZeroPrimes(pf)
    ensures (forall i :: 0 <= i < |pf| ==> pf[i].exp >= 1) ==> r == Totient(pf)
  {
    var n := IntegerFromFactors(pf);
    r := EulerPhiFrom(n, pf);
  }

  // ---------------------------------------------------------------------
  // Two values worked out.

  /** `28 = 2^2 * 7`: `sigma_1(28) = 7 * 8 = 56`. */
  lemma DivisorSumOfTwentyEight()
    ensures Product([PrimePower(2, 2), PrimePower(7, 1)]) == 28
    ensures Sigma([PrimePower(2, 2), PrimePower(7, 1)], 1) == 56
  {
    var pf := [PrimePower(2, 2), PrimePower(7, 1)];
    assert pf[..1] == [PrimePower(2, 2)] && pf[..1][..0] == [];
    assert GeomSum(2, 3) == 7 && GeomSum(7, 2) == 8;
  }

  /** `36 = 2^2 * 3^2`: `phi(36) = 2 * 6 = 12`. */
  lemma EulerPhiOfThirtySix()
    ensures Product([PrimePower(2, 2), PrimePower(3, 2)]) == 36
    ensures Totient([PrimePower(2, 2), PrimePower(3, 2)]) == 12
  {
    var pf := [PrimePower(2, 2), PrimePower(3, 2)];
    assert pf[..1] == [PrimePower(2, 2)] && pf[..1][..0] == [];
    assert TotientFactor(PrimePower(2, 2)) == 2 && TotientFactor(PrimePower(3, 2)) == 6;
  }
}

/** A factorization is a sequence of (prime, exponent) pairs, the value
    `FactorInteger` returns and every divisor function consumes. This module
    gives its meaning (the integer it stands for) and the closed forms of
    the multiplicative functions computed from it. */
module Factorization {
  import opened NumberTheory

  /** One `std::pair<INT,INT>` of a factorization. */
  datatype PrimePower = PrimePower(prime: int, exp: nat)

  function Last(pf: seq<PrimePower>): PrimePower
    requires pf != []
  {
    pf[|pf| - 1]
  }

  /** The integer a factorization stands for: the product of `p^e`. */
  function Product(pf: seq<PrimePower>): int {
    if pf == [] then 1 else Product(pf[..|pf| - 1]) * Pow(Last(pf).prime, Last(pf).exp)
  }

  /** The prefix of length `k + 1` is the prefix of length `k` followed by
      entry `k`; the prefix-recursive functions below unfold along it. */
  lemma PrefixLast(pf: seq<PrimePower>, k: nat)
    requires k < |pf|
    ensures pf[..k + 1] != [] && pf[..k + 1][..k] == pf[..k] && Last(pf[..k + 1]) == pf[k]
  {
  }

  lemma NumDivisorsPositive(pf: seq<PrimePower>)
    ensures NumDivisors(pf) >= 1
  {
    if pf != [] {
      NumDivisorsPositive(pf[..|pf| - 1]);
    }
  }

  /** Appending a pair multiplies the value by its prime power. */
  lemma ProductAppend(pf: seq<PrimePower>, f: PrimePower)
    ensures Product(pf + [f]) == Product(pf) * Pow(f.prime, f.exp)
  {
    assert (pf + [f])[..|pf|] == pf;
  }

  /** Primes in strictly increasing order, each with exponent at least 1. */
  predicate IsPrimeFactorization(pf: seq<PrimePower>) {
    (forall i :: 0 <= i < |pf| ==> IsPrime(pf[i].prime) && pf[i].exp >= 1)
    && (forall i, j :: 0 <= i < j < |pf| ==> pf[i].prime < pf[j].prime)
  }

  /** Each exponent is the whole multiplicity: once `p_i^e_i` is divided out
      of what remains, `p_i` no longer divides the rest. */
  predicate FullMultiplicity(pf: seq<PrimePower>)
    requires forall i :: 0 <= i < |pf| ==> pf[i].prime != 0
  {
    forall i :: 0 <= i < |pf| ==> Product(pf[i + 1..]) % pf[i].prime != 0
  }

  /** Every recorded exponent is complete with respect to the cofactor `m`
      still to be factored: `p_i` does not divide the rest of the product
      times `m`. */
  ghost predicate Complete(pf: seq<PrimePower>, m: int)
    requires NonZeroPrimes(pf)
  {
    forall i :: 0 <= i < |pf| ==> (Product(pf[i + 1..]) * m) % pf[i].prime != 0
  }

  predicate NonZeroPrimes(pf: seq<PrimePower>) {
    forall i :: 0 <= i < |pf| ==> pf[i].prime != 0
  }

  /** The number of exponent vectors `0 <= d_i <= e_i`: `prod (e_i + 1)`. */
  function NumDivisors(pf: seq<PrimePower>): nat {
    if pf == [] then 1 else NumDivisors(pf[..|pf| - 1]) * (Last(pf).exp + 1)
  }

  /** The divisor power sum in closed form: `prod (1 + p^m + ... + p^(e m))`. */
  function Sigma(pf: seq<PrimePower>, m: nat): int {
    if pf == [] then 1 else Sigma(pf[..|pf| - 1], m) * GeomSum(Pow(Last(pf).prime, m), Last(pf).exp + 1)
  }

  /** Euler's totient in closed form: `prod p^(e-1) (p - 1)`. */
  function Totient(pf: seq<PrimePower>): int {
    if pf == [] then 1
    else Totient(pf[..|pf| - 1]) * TotientFactor(Last(pf))
  }

  function TotientFactor(f: PrimePower): int {
    if f.exp == 0 then 1 else Pow(f.prime, f.exp - 1) * (f.prime - 1)
  }

  /** `prod p_i` and `prod (p_i - 1)`. */
  function Primes(pf: seq<PrimePower>): int {
    if pf == [] then 1 else Primes(pf[..|pf| - 1]) * Last(pf).prime
  }

  function PrimesLessOne(pf: seq<PrimePower>): int {
    if pf == [] then 1 else PrimesLessOne(pf[..|pf| - 1]) * (Last(pf).prime - 1)
  }

  // ---------------------------------------------------------------------
  // Extending a factorization by one pair, as `FactorInteger` does.

  /** `pf` is a prime factorization whose pairs are complete with respect to
      the cofactor `n` still to be factored, and no prime among them (or
      below them) divides `n`. */
  ghost predicate Recorded(pf: seq<PrimePower>, n: int) {
    IsPrimeFactorization(pf)
    && (forall i :: 0 <= i < |pf| ==> NoPrimeFactorBelow(n, pf[i].prime + 1))
    && NonZeroPrimes(pf) && Complete(pf, n)
  }

  /** Dividing the full power `f` of a prime out of `n`, where no smaller
      prime divides `n`, and recording it keeps `Recorded`. */
  lemma RecordPower(pf: seq<PrimePower>, f: PrimePower, n: int, m: int)
    requires Recorded(pf, n) && IsPrime(f.prime) && f.exp >= 1
    requires 1 <= m && 1 <= n && n == Pow(f.prime, f.exp) * m && n % m == 0
    requires n % f.prime == 0 && m % f.prime != 0 && NoPrimeFactorBelow(n, f.prime)
    ensures Recorded(pf + [f], m)
  {
    FactorsGrow(pf, f, n);
    AppendRemainders(pf, f, n, m);
    var pf' := pf + [f];
    forall i | 0 <= i < |pf'|
      ensures NoPrimeFactorBelow(m, pf'[i].prime + 1)
    {
      if i < |pf| {
        DividesOut(n, m, pf[i].prime + 1);
      } else {
        DividesOut(n, m, f.prime);
      }
    }
  }

  /** `pf'` extends `pf` by pairs of primes at most `top`, each divided out
      while the remainder, `n0` over the product of the pairs before it, was
      above `limit`. */
  ghost predicate DividedAbove(pf: seq<PrimePower>, pf': seq<PrimePower>, limit: int, n0: int, top: int) {
    |pf| <= |pf'| && pf'[..|pf|] == pf
    && forall k :: |pf| <= k < |pf'| ==> Product(pf'[..k]) * limit < n0 && pf'[k].prime <= top
  }

  /** One more pair, divided out above `limit`, keeps `DividedAbove`. */
  lemma DivideAboveStep(pf: seq<PrimePower>, before: seq<PrimePower>, pf': seq<PrimePower>, limit: int, n0: int, top: int)
    requires DividedAbove(pf, before, limit, n0, top) && Product(before) * limit < n0
    requires pf' == before || (|pf'| == |before| + 1 && pf'[..|before|] == before && pf'[|before|].prime <= top)
    ensures DividedAbove(pf, pf', limit, n0, top)
  {
    if pf' != before {
      forall k | |pf| <= k < |pf'|
        ensures Product(pf'[..k]) * limit < n0 && pf'[k].prime <= top
      {
        PrefixOfPrefix(pf', before, k);
      }
      PrefixOfPrefix(pf', before, |pf|);
    }
  }

  lemma PrefixOfPrefix(s: seq<PrimePower>, t: seq<PrimePower>, k: nat)
    requires |t| <= |s| && s[..|t|] == t && k <= |t|
    ensures s[..k] == t[..k]
  {
    assert s[..k] == s[..|t|][..k];
  }

  /** A prime remainder closes the factorization as the pair `(n, 1)`. */
  lemma RecordPrime(pf: seq<PrimePower>, n: int)
    requires Recorded(pf, n) && IsPrime(n)
    ensures Recorded(pf + [PrimePower(n, 1)], 1)
  {
    RecordPower(pf, PrimePower(n, 1), n, 1);
  }

  /** With nothing left to factor, the recorded pairs are complete. */
  lemma RecordedAll(pf: seq<PrimePower>)
    requires Recorded(pf, 1)
    ensures IsPrimeFactorization(pf) && FullMultiplicity(pf)
  {
  }

  /** A prime dividing `n` that none of the recorded primes' prefixes rule
      out is larger than all of them, so it extends the factorization. */
  lemma FactorsGrow(pf: seq<PrimePower>, f: PrimePower, n: int)
    requires IsPrimeFactorization(pf) && IsPrime(f.prime) && f.exp >= 1 && n % f.prime == 0
    requires forall i :: 0 <= i < |pf| ==> NoPrimeFactorBelow(n, pf[i].prime + 1)
    ensures IsPrimeFactorization(pf + [f])
  {
    forall i | 0 <= i < |pf|
      ensures pf[i].prime < f.prime
    {
      assert NoPrimeFactorBelow(n, pf[i].prime + 1);
    }
  }

  /** Prime factors of a divisor `m` of `n` are prime factors of `n`. */
  lemma DividesOut(n: int, m: int, b: int)
    requires 1 <= m && 1 <= n && n % m == 0 && NoPrimeFactorBelow(n, b)
    ensures NoPrimeFactorBelow(m, b)
  {
    forall q | 2 <= q < b && IsPrime(q)
      ensures m % q != 0
    {
      if m % q == 0 {
        DividesTrans(q, m, n);
      }
    }
  }

  /** Moving the factor `p^e` from the cofactor `n == p^e * m` into the
      recorded pairs keeps the running product. */
  lemma ProductShift(pf: seq<PrimePower>, f: PrimePower, n: int, m: int)
    requires n == Pow(f.prime, f.exp) * m
    ensures Product(pf + [f]) * m == Product(pf) * n
  {
    ProductAppend(pf, f);
    var a, w := Product(pf), Pow(f.prime, f.exp);
    assert (a * w) * m == a * (w * m);
  }

  /** Entry `i` of the extended factorization is complete against `m`. */
  lemma RemainderAt(pf: seq<PrimePower>, f: PrimePower, n: int, m: int, i: nat)
    requires i < |pf| && pf[i].prime != 0 && n == Pow(f.prime, f.exp) * m
    requires (Product(pf[i + 1..]) * n) % pf[i].prime != 0
    ensures (Product((pf + [f])[i + 1..]) * m) % pf[i].prime != 0
  {
    assert (pf + [f])[i + 1..] == pf[i + 1..] + [f];
    ProductShift(pf[i + 1..], f, n, m);
  }

  /** Recording `f` while the cofactor goes from `n` to `m == n / p^e`
      keeps every recorded exponent complete, and the new one is complete
      when `p` no longer divides `m`. */
  lemma AppendRemainders(pf: seq<PrimePower>, f: PrimePower, n: int, m: int)
    requires NonZeroPrimes(pf) && f.prime != 0 && n == Pow(f.prime, f.exp) * m
    requires Complete(pf, n) && m % f.prime != 0
    ensures NonZeroPrimes(pf + [f]) && Complete(pf + [f], m)
  {
    var pf' := pf + [f];
    forall i | 0 <= i < |pf|
      ensures (Product(pf'[i + 1..]) * m) % pf'[i].prime != 0
    {
      RemainderAt(pf, f, n, m, i);
    }
    assert pf'[|pf| + 1..] == [] && pf'[|pf|] == f;
    assert (Product(pf'[|pf| + 1..]) * m) % pf'[|pf|].prime != 0;
  }
}

# PrimeEngine in Dafny

A model of `PrimeEngine<INT>` from `src/prime_engine.cpp` (Alex Doran's
prime engine). The constructor runs a sieve of Eratosthenes over
`[0, maxPrime)` into the boolean table `primeQ_`. It then compacts the table
into the ascending list `primes_`. Every query is answered from these two:

- primality, by lookup or by trial division;
- the prime-counting function pi and the k-th prime;
- the factorization of an integer into `(prime, exponent)` pairs;
- the divisor list, divisor count, divisor sums and Euler's totient, each
  computed from a factorization.

The model follows the source's form:

- **The engine** is a class, `Engine.PrimeEngine`:
  - the table is an `array<bool>` that the sieve (`GeneratePrimeQ`,
    `StrikeMultiples`) strikes in place;
  - the list is a `seq<int>` field that `GeneratePrimes` fills;
  - `Valid()` is the state the constructor establishes: the table holds
    `IsPrime`, and the list is exactly the table's true indices, ascending.
- **The loops become methods** with invariants, each proved against a
  closed form stated as a function (the factorization's in
  `module Factorization`, the counter's in `module DivisorCounter`, the
  table's in `module Sieve`):
  - `FactorInteger`'s two trial-division loops, split into phases;
  - the mixed-radix counter of `Divisors`;
  - the folds of `IntegerFromFactors`, `DivisorCount`, `DivisorSum`,
    `DivisorSigma_` and `EulerPhi`.
- **The closed forms:**
  - `Product` is `prod p^e`;
  - `NumDivisors` is `prod (e+1)`;
  - `Sigma(pf, m)` is `prod (1 + p^m + ... + p^(e m))`;
  - `Totient` is `prod p^(e-1) (p-1)`;
  - `CounterOrder` lists the divisors `prod p^(d_i)` by the mixed-radix
    rank of their exponent vectors, the order in which `Divisors` visits
    them;
  - the `m`-th powers of the entries of `CounterOrder(pf)` add up to
    `Sigma(pf, m)`, so `Sigma` is the divisor power sum it is named for.
  - Lemmas prove that the first four split over a concatenation of
    factorizations (the value of `a + b` is the value of `a` times that of
    `b`), and Euler's product formula.
- **Arithmetic:**
  - integers are unbounded;
  - C++ division is `TruncDiv`, which truncates toward zero;
  - `sqrt` is replaced by the integer square root `Isqrt`;
  - a comparison `p < sqrt(n)` becomes `p * p < n`;
  - `pow` is the integer `Pow`.
- **Where the code as written misbehaves**, an `...AsWritten` member models
  it. The corrected member is the one the rest of the model uses (see
  Findings).

## Model

| member | source | states |
|---|---|---|
| Engine.PrimeEngine.constructor | src/prime_engine.cpp:9-13 | after sieving and compacting, the table holds primality for every index below the bound and the list is exactly its true indices, ascending (`Valid`) |
| Engine.PrimeEngine.GeneratePrimeQ | src/prime_engine.cpp:15-38 | after the even pass and the odd passes up to `i * i < maxPrime`, entry `k` is true iff `k` is prime |
| Engine.PrimeEngine.StrikeMultiples | src/prime_engine.cpp:25-34 | striking `i*i, i*i + s, ...` turns the table sieved by candidates below `i` into the table sieved by candidates up to `i` |
| Sieve.StrikeStep | src/prime_engine.cpp:32-34 | for odd candidates the stride `2i` strikes exactly the multiples of `i` from `i*i` on that survived the even pass |
| Sieve.SieveGap | src/prime_engine.cpp:30-31 | entries skipped between consecutive candidates are already struck, so jumping to the next true entry changes nothing |
| NumberTheory.SievedIsPrime | src/prime_engine.cpp:29-37 | below `(b+1)^2`, surviving every candidate up to `b` is the same as being prime, which is why the sieve stops at `i * i >= maxPrime` |
| Sieve.FindTrue | src/prime_engine.cpp:21 | `std::find`: the first true entry at or after `from`, or the end |
| Sieve.CountOf | src/prime_engine.cpp:42 | `std::count`: the number of true entries |
| Engine.PrimeEngine.GeneratePrimes | src/prime_engine.cpp:41-51 | the list written through `jt` equals the true indices of the table, in index order |
| Sieve.TrueIndicesFacts | src/prime_engine.cpp:41-51 | the compacted list holds only true indices, is strictly ascending, and misses none |
| Sieve.TrueIndicesPrefix | src/prime_engine.cpp:41-51 | the list for a shorter table is a prefix of the list, and later entries are at least the shorter length |
| Engine.PrimeEngine.PrimeListFacts | src/prime_engine.cpp:41-51 | the list holds exactly the primes below the bound, strictly ascending, and its length is pi(maxPrime - 1) |
| Engine.PrimeEngine.PrimeQ | src/prime_engine.cpp:54-57 | for `0 <= n < maxPrime` the lookup is `IsPrime(n)` |
| Engine.PrimeEngine.PrimeQForce | src/prime_engine.cpp:60-74 | for `n < maxPrime^2`: the lookup below the bound, trial division by listed primes with `p * p <= n` above it; the answer is `IsPrime(n)` |
| Engine.PrimeEngine.PrimeQForceAsWritten | src/prime_engine.cpp:60-74 | the loop as written: false iff some listed prime with `p * p < n` divides `n`; a read past the list (None) iff every listed prime has `p * p < n` and none divides |
| NumberTheory.PrimeByTrialDivision | src/prime_engine.cpp:66-73 | if no prime with `p * p <= n` divides `n >= 2`, then `n` is prime |
| NumberTheory.TrialDivisionBound | src/prime_engine.cpp:66-73 | `n` is prime iff `n >= 2` and no `d` in `[2, Isqrt(n)]` divides it |
| Engine.PrimeEngine.PrimePi | src/prime_engine.cpp:77-81 | `std::upper_bound` position: every listed prime before it is `<= n`, every one after is `> n`, and the position is pi(n) |
| Search.UpperBound | src/prime_engine.cpp:79 | binary search on an ascending sequence: the first position whose entry exceeds `x`, with both sides of the partition |
| Sieve.PrimeCountMonotone | src/prime_engine.cpp:77-81 | pi is non-decreasing, so `PrimePi` is monotone in `n` |
| Sieve.CountTrueIsPrimeCount | src/prime_engine.cpp:77-81 | on a table holding primality, the number of true entries below `n` is pi(n - 1) |
| Engine.PrimeEngine.Prime | src/prime_engine.cpp:84-87 | `primes_[k-1]` is a prime below the bound with pi(`primes_[k-1]`) == k, i.e. the k-th prime |
| Engine.PrimeEngine.NumPrimes | src/prime_engine.cpp:90-92 | the number of listed primes is pi(maxPrime - 1) |
| Engine.PrimeEngine.FactorInteger | src/prime_engine.cpp:95-137 | for `0 <= n < maxPrime^2` the product of `p^e` is `n`; for `n >= 1` the primes strictly increase, exponents are at least 1 and each is the full multiplicity; for 0 the result is `[(0, 1)]` |
| Engine.PrimeEngine.FactorIntegerAsWritten | src/prime_engine.cpp:95-137 | the loop bound `n > maxPrime_` as written. `done` holds the pairs the first loop divides out and `rest` what it leaves. Their product is `n`, `done` is complete with respect to `rest`, and each pair is of a listed prime at most `Isqrt(n)`, divided out while `n` over the pairs before it was above the bound. `rest` is a divisor of `n`, equal to `n` when `n <= maxPrime`, and free of primes up to `Isqrt(n)` when above the bound. The method reads `primeQ_[maxPrime_]` (None) iff `n >= 4` and `rest == maxPrime`, so it always answers for `n < maxPrime`; otherwise the result is a correct factorization |
| Engine.PrimeEngine.FirstLoopRest | src/prime_engine.cpp:103-117 | what the first loop with bound `maxPrime_` leaves divides `n`; above the bound it has no prime factor up to `Isqrt(n)`; with the primes exhausted it equals the bound only for `n < 4` |
| Engine.PrimeEngine.StartTrial | src/prime_engine.cpp:99-102 | the trial state holds at the start, with `stop` (`upper_bound` of `Isqrt(n)`) past every listed prime up to `Isqrt(n)`; `stop > 0` iff `n >= 4` |
| Engine.PrimeEngine.TrialAbove | src/prime_engine.cpp:103-115 | the first loop keeps the trial state (product times remainder is `n`, no untried small prime divides the remainder, pairs complete) and leaves only when `it == stop` or the remainder is at most its limit; it reaches `stop` only with the remainder above the limit or without a step; it only appends pairs, each of a listed prime at most `Isqrt(n)` and divided out while the remainder was above the limit (`DividedAbove`) |
| Engine.PrimeEngine.NextFactor | src/prime_engine.cpp:104-114 | one `find_if` plus divide-out step: keeps the trial state and either exhausts the primes or shrinks the remainder and appends exactly one pair, of the prime found |
| Factorization.DivideAboveStep | src/prime_engine.cpp:103-114 | one more pair, of a prime at most the top and divided out while the remainder was above the limit, keeps `DividedAbove` |
| Engine.DivideOut | src/prime_engine.cpp:109-113 | the `do/while` divides out the full power: `n == p^count * m`, `count >= 1`, and `p` does not divide `m` |
| Search.FindDivisor | src/prime_engine.cpp:104 | `std::find_if` with "divides n": the first position in `[from, stop)` whose entry divides `n`, or `stop` |
| Engine.PrimeEngine.TablePhase | src/prime_engine.cpp:117-131 | the second loop keeps the trial state and ends with the primes exhausted, the remainder 1, or a prime by the table; it overruns the table exactly when the remainder equals the bound |
| Engine.PrimeEngine.Finish | src/prime_engine.cpp:133-136 | pushing a remainder other than 1 as `(n, 1)` completes a prime factorization of the input |
| Engine.PrimeEngine.RemainderIsPrime | src/prime_engine.cpp:133-134 | a remainder of at least 2 left after every listed prime up to `Isqrt(n0)` has been tried is prime |
| Factorization.RecordPower | src/prime_engine.cpp:109-114 | appending the full power of the least prime dividing the remainder keeps the recorded pairs a prime factorization complete with respect to the new remainder |
| Multiplicative.IntegerFromFactors | src/prime_engine.cpp:140-148 | with an accumulator as wide as `INT`, the result is the product of `p^e` |
| Engine.PrimeEngine.RoundTrip | src/prime_engine.cpp:95-148 | `IntegerFromFactors(FactorInteger(n)) == n` for `0 <= n < maxPrime^2`, the factorization being a prime factorization for `n >= 1` |
| Multiplicative.IntegerFromFactorsAsWritten | src/prime_engine.cpp:140-148 | the fold as written, converting the running total to a 32-bit `int` after each pair: the result is always in the `int` range |
| Multiplicative.AsWrittenAgrees | src/prime_engine.cpp:140-148 | with the `int` accumulator as written, the result is still the product while every partial product fits in 32 bits |
| Multiplicative.AsWrittenOverflows | src/prime_engine.cpp:141 | for `65537^2` the `int` accumulator yields 131073 instead of 4295098369 |
| Engine.PrimeEngine.DivisorsOf | src/prime_engine.cpp:151-154 | for `2 <= n < maxPrime^2`: ascending, contains 1 and `n`, every entry divides `n`, and it is a permutation of `CounterOrder` of the factorization of `n`, with `prod (e+1)` entries adding up to `sigma_1` of it |
| DivisorFunctions.Divisors | src/prime_engine.cpp:157-189 | the sorted list is ascending and a permutation of `CounterOrder(pf)`: it has `prod (e+1)` entries, one per exponent vector, each a nonzero divisor of the product, among them 1 and the product, and their `m`-th powers add up to `Sigma(pf, m)` for every `m` |
| Engine.PrimeEngine.SumOfDivisors | src/prime_engine.cpp:151-277 | from one factorization of `n`, the sum of the entries of `Divisors` is what `DivisorSum` computes, and the sum of their `m`-th powers what `DivisorSigma` computes |
| DivisorCounter.CounterOrderPowerSum | src/prime_engine.cpp:157-189 | the `m`-th powers of the divisors the counter visits add up to `prod (1 + p^m + ... + p^(e m))` |
| DivisorCounter.PowerSumBlocks | src/prime_engine.cpp:170-185 | the blocks `s * p^j`, `j < k`, have power sum that of `s` times `1 + p^m + ... + p^(m(k-1))` |
| DivisorCounter.PowerSumPermutation | src/prime_engine.cpp:187 | sorting does not change a power sum: equal multisets have equal power sums |
| DivisorFunctions.DivisorList | src/prime_engine.cpp:162-186 | the counting loop pushes exactly `CounterOrder(pf)`: the value `prod p_i^(d_i)` of every in-range exponent vector, in rank order, `prod (e+1)` values in all |
| DivisorFunctions.PushNext | src/prime_engine.cpp:167-168 | pushing the value of a live counter whose rank is the list's length extends the list by the next entry of `CounterOrder(pf)` |
| DivisorCounter.CounterOrderAt | src/prime_engine.cpp:162-186 | the entry of `CounterOrder` at the mixed-radix rank of in-range digits is the divisor those digits select |
| DivisorCounter.BlocksAt | src/prime_engine.cpp:170-185 | in the list for one more prime, block `j` (the states with that digit at `j`) holds the shorter list times `p^j` |
| DivisorFunctions.DivisorsOfTwentyEight | src/prime_engine.cpp:157-189 | for `28 = 2^2 * 7` the sorted result is exactly `1, 2, 4, 7, 14, 28` |
| DivisorFunctions.Advance | src/prime_engine.cpp:170-185 | one counter step raises the mixed-radix rank of the digits by one and keeps `v` equal to `prod p_i^(d_i)`, ending live or wrapped |
| DivisorFunctions.CarryStep | src/prime_engine.cpp:174-184 | one carry clears the overflowing digit, divides its full power out of `v`, increments the next digit and keeps the rank |
| DivisorFunctions.DivideOutPower | src/prime_engine.cpp:175-177 | `e + 1` exact divisions by `p` turn `base * p^(e+1)` back into `base` |
| DivisorFunctions.LiveBound | src/prime_engine.cpp:167-173 | while the top digit is 0 the rank is below `prod (e+1)`, the value divides the product, and the last rank has the product as value |
| DivisorFunctions.WrappedRank | src/prime_engine.cpp:167 | once the top digit is 1 the rank is `prod (e+1)`, so the outer loop ran exactly that often |
| DivisorCounter.RankBound | src/prime_engine.cpp:173-185 | digits in range give a rank below `prod (e_i + 1)`, and the maximal rank only comes from all-maximal digits |
| DivisorCounter.ValDivides | src/prime_engine.cpp:172-184 | the value of in-range digits is a nonzero divisor of the product |
| Search.SortAscending | src/prime_engine.cpp:187 | `std::sort` as insertion sort: the result has the input's length (its order and entries are the two lemmas below) |
| Search.SortOrders | src/prime_engine.cpp:187 | `std::sort`: the result is ascending |
| Search.SortPermutes | src/prime_engine.cpp:187 | `std::sort`: the result is a permutation of its input |
| Search.AscendingUnique | src/prime_engine.cpp:187 | an ascending permutation is unique, so the sorted result is determined by the entries alone |
| Engine.PrimeEngine.EulerPhiOf | src/prime_engine.cpp:192-195 | for `1 <= n < maxPrime^2` the result is the totient of the factorization of `n`, and `phi * prod p == n * prod (p-1)` |
| Multiplicative.EulerPhi | src/prime_engine.cpp:198-200 | started from `IntegerFromFactors(pf)`, the loop yields `Totient(pf)` when every exponent is at least 1 |
| Multiplicative.EulerPhiFrom | src/prime_engine.cpp:203-209 | started from the product of the factorization, `n /= p; n *= p-1` per pair ends at `prod p^(e-1) (p-1)`, each division exact |
| Multiplicative.PhiStep | src/prime_engine.cpp:205-206 | one pass exactly divides the remaining `p^e` by `p` and multiplies by `p - 1` |
| Multiplicative.TotientClosedForm | src/prime_engine.cpp:203-209 | Euler's product formula: `Totient(pf) * prod p == Product(pf) * prod (p - 1)` |
| Multiplicative.EulerPhiOfThirtySix | src/prime_engine.cpp:203-209 | for `36 = 2^2 * 3^2` the totient is 12 |
| Multiplicative.TotientConcat | src/prime_engine.cpp:203-209 | the totient of a concatenation of factorizations is the product of the totients |
| Engine.PrimeEngine.DivisorSumOf | src/prime_engine.cpp:212-215 | for `1 <= n < maxPrime^2` the result is `sigma_1` of the factorization of `n` |
| Multiplicative.DivisorSum | src/prime_engine.cpp:218-230 | `prod (p^(e+1) - 1) / (p - 1)` with the power built by `e + 1` multiplications equals `Sigma(pf, 1)`, each division exact |
| Multiplicative.DivisorSumOfTwentyEight | src/prime_engine.cpp:218-230 | for `28 = 2^2 * 7` the divisor sum is 56 |
| Multiplicative.SeriesQuotient | src/prime_engine.cpp:227 | `(p^(m k) - 1) / (p^m - 1)` with truncating division is exactly `1 + p^m + ... + p^(m(k-1))` |
| NumberTheory.GeomSumClosedForm | src/prime_engine.cpp:226-227 | `(x - 1) * (1 + x + ... + x^(k-1)) == x^k - 1` |
| Engine.PrimeEngine.DivisorCountOf | src/prime_engine.cpp:233-236 | for `1 <= n < maxPrime^2` the result is `prod (e+1)` of the factorization of `n` |
| Multiplicative.DivisorCount | src/prime_engine.cpp:239-245 | the fold `rVal *= e + 1` equals `NumDivisors(pf)` |
| Multiplicative.NumDivisorsConcat | src/prime_engine.cpp:239-245 | the divisor count of a concatenation of factorizations is the product of the counts |
| Engine.PrimeEngine.DivisorSigmaOf | src/prime_engine.cpp:248-257 | for `m >= 0` and `1 <= n < maxPrime^2` the result is `sigma_m` of the factorization of `n` |
| Multiplicative.DivisorSigma | src/prime_engine.cpp:260-268 | for `m >= 0` (the assert), dispatching to the count for 0, the sum for 1 and `DivisorSigma_` otherwise gives `Sigma(pf, m)` |
| Multiplicative.SigmaZero | src/prime_engine.cpp:262-263 | `sigma_0` is the divisor count, so the `m == 0` branch agrees with the general formula |
| Multiplicative.DivisorSigmaPower | src/prime_engine.cpp:271-277 | `prod (p^((e+1) m) - 1) / (p^m - 1)` equals `Sigma(pf, m)`, each division exact |
| Multiplicative.SigmaConcat | src/prime_engine.cpp:271-277 | `sigma_m` of a concatenation of factorizations is the product of the parts |
| Multiplicative.ProductConcat | src/prime_engine.cpp:140-148 | the value of a concatenation of factorizations is the product of the values |
| Findings.SquareOfLastTried | src/prime_engine.cpp:66-73 | with the bound 10, the loop as written calls 25 prime; the corrected test does not |
| Findings.PastTheList | src/prime_engine.cpp:66-73 | with the bound 10, the loop as written runs past `primes_` on 97; the corrected test answers true |
| Findings.FactorTheBound | src/prime_engine.cpp:103-118 | with the bound 10, `FactorInteger(10)` as written reads `primeQ_[10]`; the corrected model factors 10 |
| Findings.RemainderAtTheBound | src/prime_engine.cpp:103-118 | with the bound 15, the first loop as written leaves 15 of 30, and `primeQ_[15]` is read (None) |
| Findings.RemainderOfThirty | src/prime_engine.cpp:103-114 | what the first loop's contract allows it to leave of 30 above the bound 15 is exactly 15 |
| Findings.BoundHundred | test/prime_test.cpp:9-12 | on the engine the test drivers build, with the bound 100, `Prime(1)` is 2 and `PrimePi(10)` is 4 |
| Findings.FirstPrime | src/prime_engine.cpp:84-87 | the only prime counted first by pi is 2 |
| Findings.TableOfTen | src/prime_engine.cpp:41-51 | with the bound 10 the list is `2, 3, 5, 7` |

## Left out

- Floating point: `sqrt` and `pow` are modelled as exact integer functions (`Isqrt`, `Pow`). Rounding of large values is not modelled.
- Integer width: `INT` is an unbounded integer. Overflow of `INT` and signed wrap-around are not modelled, except the 32-bit accumulator of `IntegerFromFactors` (see Findings). The model covers the `int64_t` and `uint64_t` instantiations of the template at value level only.
- `numPrime_` is never assigned, so `numPrimes()` returns an indeterminate value. `Engine.PrimeEngine.NumPrimes` returns the length of the list, which is what the prime test loop evidently expects.
- Engine.PrimeEngine.Prime: requires `1 <= k <= |primes|`. The source's `assert(index < numPrime_)` compares against the unassigned `numPrime_`. Read with `numPrime_ == |primes|`, it would also reject the last prime, and it does not reject `index == 0`, which reads `primes_[-1]`.
- Engine.PrimeEngine.PrimeQForce and the factorization methods require `n < maxPrime^2`. This is `sqrt(n) < maxPrime_` in exact arithmetic.
- Engine.PrimeEngine.FactorInteger and RoundTrip require `n >= 0`. For a negative `n`, `sqrt(n)` is NaN and the `assert(sqrt(n) < maxPrime_)` fails.
- Engine.PrimeEngine.FactorIntegerAsWritten and the integer overloads other than `DivisorsOf` require `n >= 1`. For 0, `FactorInteger` returns `[(0, 1)]`, which is not a prime factorization: `EulerPhi(0)` then divides by 0, while `DivisorCount(0)` (2) and `DivisorSum(0)` (1) are values of that pair that the model does not state.
- Engine.PrimeEngine.DivisorsOf: requires `n >= 2`. For 1 the factorization is empty, and `Divisors` reads `pf[0]` before checking it.
- DivisorFunctions.Divisors requires a non-empty factorization for the same reason.
- DivisorFunctions.Divisors, DivisorFunctions.DivisorList and Engine.PrimeEngine.DivisorsOf: state the entries as the values of the exponent vectors (`CounterOrder`). They do not state that these values are distinct, nor that every divisor of the product is among them. Both would need unique factorization, which is not part of this model.
- Engine.PrimeEngine.FactorIntegerAsWritten: characterises the overrun through the ghost outputs `rest` and `done`, the first loop's remainder and pairs, not by a closed form in `n`. `RemainderOfThirty` derives `rest` from these ensures for `n = 30` and the bound 15. That they fix `rest` for every `n` rests on unique factorization, which is not proved here.
- Engine.PrimeEngine.constructor: requires `maxPrime >= 2`. For the bounds 0 and 1, `generatePrimeQ` fills `primeQ_[0]` and `primeQ_[1]` past the end of a table of that size.
- The factorization's exponents are `nat`. A negative exponent, which the source's `INT` would allow in a hand-built factorization, is not modelled.
- Multiplicative.EulerPhi, Multiplicative.EulerPhiFrom and Engine.PrimeEngine.EulerPhiOf: the result is proved equal to the product formula `Totient`, not to the number of integers in `[1, n]` coprime to `n`. That equality needs the theory of the greatest common divisor, which is not part of this model.
- Multiplicative.EulerPhiFrom: states its result only when `n` is the product of the factorization and every exponent is at least 1. That is how both callers use it; for other `n` the truncating divisions are not characterised.
- Multiplicative.DivisorSum, Multiplicative.DivisorSigmaPower and Multiplicative.DivisorSigma: require the divisors `p - 1` and `p^m - 1` to be nonzero. The source divides by them unguarded.
- Engine.PrimeEngine.DivisorsOf, EulerPhiOf, DivisorSumOf, DivisorCountOf and DivisorSigmaOf state their result in terms of the factorization `FactorInteger` returns, as an existential. Uniqueness of factorization is not proved.
- Not part of this model:
  - `RabinMiller`, which is declared but has no definition in the listing;
  - the default constructor;
  - the commented-out iterators;
  - table growth;
  - the test drivers' file output;
  - `src/pyeuler.py`.

## Findings

| source | as written | input that shows it | evidently intended | confidence | as-written member | corrected member |
|---|---|---|---|---|---|---|
| src/prime_engine.cpp:66 | the trial-division loop runs while `primes_[index] < sqrt(n)`, so a prime equal to `sqrt(n)` is never tried | bound 10, `PrimeQForce(25)` answers true | try every prime with `p * p <= n` | high, not executed | Engine.PrimeEngine.PrimeQForceAsWritten | Engine.PrimeEngine.PrimeQForce |
| src/prime_engine.cpp:66 | the loop has no end-of-list test; `sqrt(n) < maxPrime_` does not put a listed prime at or above `sqrt(n)` | bound 10, `PrimeQForce(97)` reads past `primes_` after 7 | stop at the end of the list, where `n` is prime | high, not executed | Engine.PrimeEngine.PrimeQForceAsWritten | Engine.PrimeEngine.PrimeQForce |
| src/prime_engine.cpp:103 | the first loop runs only while `n > maxPrime_`, so a remainder equal to `maxPrime_` (the input itself, or what is left after dividing out small primes, as for bound 15 and `n = 30` in `Findings.RemainderAtTheBound`) reaches `primeQ_[n]` at line 118, one past the table | bound 10, `FactorInteger(10)` | run the first loop while `n >= maxPrime_` | high, not executed | Engine.PrimeEngine.FactorIntegerAsWritten | Engine.PrimeEngine.FactorInteger |
| src/prime_engine.cpp:141 | `std::accumulate` seeded with the literal `1` accumulates in `int`, truncating each partial product to 32 bits | `IntegerFromFactors({{65537, 2}})` gives 131073 | seed with `INT(1)` so the total has the type `INT` | high, not executed | Multiplicative.IntegerFromFactorsAsWritten | Multiplicative.IntegerFromFactors |

/** `PrimeEngine<INT>`: a sieve table of primality over `[0, maxPrime)`, the
    ascending list of the primes it marks, and the queries and the
    factorization answered from the two. */
module Engine {
  import opened NumberTheory
  import opened Sieve
  import opened Search
  import opened Factorization
  import opened DivisorCounter
  import opened DivisorFunctions
  import opened Multiplicative

  datatype Option<T> = None | Some(value: T)

  class PrimeEngine {
    /** `maxPrime_`: primality is tabulated for `[0, maxPrime)`. */
    const maxPrime: int
    /** `primeQ_`: entry `k` is true iff `k` is prime. */
    const primeQ: array<bool>
    /** `primes_`: the primes below `maxPrime`, ascending. */
    var primes: seq<int>

    /** The state the constructor establishes and every query relies on. */
    ghost predicate Valid()
      reads this, primeQ
    {
      2 <= maxPrime && primeQ.Length == maxPrime
      && (forall k :: 0 <= k < maxPrime ==> primeQ[k] == IsPrime(k))
      && primes == TrueIndices(primeQ[..], maxPrime)
      && (forall j :: 0 <= j < |primes| ==> 2 <= primes[j])
      && Ascending(primes)
    }

    /** `PrimeEngine(INT maxPrime)`: sieve, then compact. */
    constructor (maxPrime: int)
      requires maxPrime >= 2
      ensures Valid() && this.maxPrime == maxPrime && fresh(primeQ)
    {
      this.maxPrime := maxPrime;
      primeQ := new bool[maxPrime];
      primes := [];
      new;
      GeneratePrimeQ();
      GeneratePrimes();
      TrueIndicesFacts(primeQ[..], maxPrime);
    }

    /** `generatePrimeQ`: the sieve of Eratosthenes, in place. */
    method GeneratePrimeQ()
      requires 2 <= maxPrime && primeQ.Length == maxPrime
      modifies primeQ
      ensures forall k :: 0 <= k < maxPrime ==> primeQ[k] == IsPrime(k)
    {
      forall k | 0 <= k < primeQ.Length {
        primeQ[k] := true;
      }
      primeQ[0], primeQ[1] := false, false;
      assert forall k :: 0 <= k < maxPrime ==> primeQ[k] == Sieved(k, 1);

      // screen out even numbers
      assert maxPrime > 2 ==> primeQ[2];
      var i := FindTrue(primeQ, 1);
      assert i == 2;
      StrikeMultiples(i, i);

      // run the sieve on the remaining primes
      while i * i < maxPrime
        invariant 2 <= i <= maxPrime
        invariant forall k :: 0 <= k < maxPrime ==> primeQ[k] == Sieved(k, i)
        decreases maxPrime - i
      {
        var next := FindTrue(primeQ, i + 1);
        forall k | 0 <= k < maxPrime
          ensures primeQ[k] == Sieved(k, next - 1)
        {
          SieveGap(k, i, next - 1);
        }
        i := next;
        StrikeMultiples(i, 2 * i);
      }
      forall k | 0 <= k < maxPrime
        ensures primeQ[k] == IsPrime(k)
      {
        MulMono(i, i + 1, i);
        MulMono(i, i + 1, i + 1);
        SievedIsPrime(k, i);
      }
    }

    /** The inner `for` loop of `generatePrimeQ`: strike `i*i, i*i + s, ...`
        below `maxPrime`. */
    method StrikeMultiples(i: int, s: int)
      requires primeQ.Length == maxPrime && i >= 2 && s == Stride(i)
      requires forall k :: 0 <= k < maxPrime ==> primeQ[k] == Sieved(k, i - 1)
      modifies primeQ
      ensures forall k :: 0 <= k < maxPrime ==> primeQ[k] == Sieved(k, i)
    {
      var j := i * i;
      while j < maxPrime
        invariant Struck(j, i, s)
        invariant forall k :: 0 <= k < maxPrime ==>
          primeQ[k] == (Sieved(k, i - 1) && !(Struck(k, i, s) && k < j))
      {
        primeQ[j] := false;
        forall k | j <= k <= j + s
          ensures Struck(k, i, s) <==> k == j || k == j + s
        {
          StruckNext(k, i, s, j);
        }
        j := j + s;
      }
      forall k | 0 <= k < maxPrime
        ensures primeQ[k] == Sieved(k, i)
      {
        StrikeStep(k, i);
      }
    }

    /** `generatePrimes`: size the list by `std::count`, then write the
        indices of the true entries through the moving position `jt`. */
    method GeneratePrimes()
      modifies this
      ensures primes == TrueIndices(primeQ[..], primeQ.Length)
    {
      var n := CountOf(primeQ);
      ghost var t := primeQ[..];
      var buf := new int[n];
      var jt := 0;
      var it := 0;
      while it < primeQ.Length
        invariant 0 <= it <= primeQ.Length
        invariant jt == CountTrue(t, it) <= n
        invariant buf[..jt] == TrueIndices(t, it)
        invariant primeQ[..] == t
      {
        if primeQ[it] {
          TrueIndicesPrefix(t, it + 1, primeQ.Length);
          buf[jt] := it;
          assert buf[..jt + 1] == buf[..jt] + [it];
          jt := jt + 1;
        }
        it := it + 1;
      }
      assert buf[..] == buf[..jt];
      primes := buf[..];
    }

    /** What the list holds: exactly the primes below the bound, ascending,
        one per prime counted by pi. */
    lemma PrimeListFacts()
      requires Valid()
      ensures forall j :: 0 <= j < |primes| ==> IsPrime(primes[j]) && primes[j] < maxPrime
      ensures forall j, l :: 0 <= j < l < |primes| ==> primes[j] < primes[l]
      ensures forall q :: 0 <= q < maxPrime && IsPrime(q) ==> q in primes
      ensures |primes| == PrimeCount(maxPrime - 1)
    {
      TrueIndicesFacts(primeQ[..], maxPrime);
      CountTrueIsPrimeCount(primeQ[..], maxPrime);
    }

    /** `PrimeQ`: direct lookup in the table. */
    function PrimeQ(n: int): (r: bool)
      reads this, primeQ
      requires Valid() && 0 <= n < maxPrime
      ensures r == IsPrime(n)
    {
      primeQ[n]
    }

    /** `numPrimes`: the length of the list, which is pi of the largest
        tabulated value. */
    function NumPrimes(): (r: nat)
      reads this, primeQ
      requires Valid()
      ensures r == PrimeCount(maxPrime - 1)
    {
      PrimeListFacts();
      |primes|
    }

    /** `Prime(index)`: the `k`-th prime, counted from 1. */
    function Prime(k: int): (r: int)
      reads this, primeQ
      requires Valid() && 1 <= k <= |primes|
      ensures IsPrime(r) && r < maxPrime && PrimeCount(r) == k
    {
      PrimeListFacts();
      PositionIsCount(primeQ[..], maxPrime, k - 1);
      CountTrueIsPrimeCount(primeQ[..], primes[k - 1] + 1);
      primes[k - 1]
    }

    /** `PrimePi`: `std::upper_bound` on the list, as a count. */
    method PrimePi(n: int) returns (r: nat)
      requires Valid() && n < maxPrime
      ensures r <= |primes|
      ensures forall j :: 0 <= j < r ==> primes[j] <= n
      ensures forall j :: r <= j < |primes| ==> n < primes[j]
      ensures r == PrimeCount(n)
    {
      PrimeListFacts();
      r := UpperBound(primes, n);
      if n < 0 {
        assert r > 0 ==> IsPrime(primes[0]);
      } else {
        var t := primeQ[..];
        PartitionIsCount(t, maxPrime, n, r);
        CountTrueIsPrimeCount(t, n + 1);
      }
    }

    /** `PrimeQForce`: table lookup below the bound, trial division by the
        listed primes `p` with `p * p <= n` above it, stopping also at the end
        of the list. */
    method PrimeQForce(n: int) returns (r: bool)
      requires Valid() && 0 <= n < maxPrime * maxPrime
      ensures r == IsPrime(n)
    {
      if n < maxPrime {
        return primeQ[n];
      }
      PrimeListFacts();
      var index := 0;
      while index < |primes| && primes[index] * primes[index] <= n
        invariant 0 <= index <= |primes|
        invariant forall j :: 0 <= j < index ==> n % primes[j] != 0
      {
        if n % primes[index] == 0 {
          SmallDivisorRefutes(n, primes[index]);
          return false;
        }
        index := index + 1;
      }
      forall p | IsPrime(p) && p * p <= n
        ensures n % p != 0
      {
        SquareMono(maxPrime, p);
        var j :| 0 <= j < |primes| && primes[j] == p;
        if index < |primes| {
          SquareMono(primes[index], p);
        }
      }
      PrimeByTrialDivision(n);
      return true;
    }

    /** `PrimeQForce` as written: the loop `primes_[index] < sqrt(n)` tests
        only primes with `p * p < n` and has no end-of-list check. `None`
        stands for the read of `primes_[index]` past the end of the list. */
    method PrimeQForceAsWritten(n: int) returns (r: Option<bool>)
      requires Valid() && 0 <= n < maxPrime * maxPrime
      ensures n < maxPrime ==> r == Some(IsPrime(n))
      ensures n >= maxPrime ==> (r == Some(false) <==>
        exists j :: 0 <= j < |primes| && primes[j] * primes[j] < n && n % primes[j] == 0)
      ensures n >= maxPrime ==> (r == None <==>
        forall j :: 0 <= j < |primes| ==> primes[j] * primes[j] < n && n % primes[j] != 0)
    {
      if n < maxPrime {
        return Some(primeQ[n]);
      }
      PrimeListFacts();
      var index := 0;
      while true
        invariant 0 <= index <= |primes|
        invariant forall j :: 0 <= j < index ==> primes[j] * primes[j] < n && n % primes[j] != 0
        decreases |primes| - index
      {
        if index == |primes| {
          return None;
        }
        if primes[index] * primes[index] >= n {
          break;
        }
        if n % primes[index] == 0 {
          return Some(false);
        }
        index := index + 1;
      }
      forall j | index <= j < |primes|
        ensures primes[j] * primes[j] >= n
      {
        SquareMono(primes[index], primes[j]);
      }
      return Some(true);
    }

    // -------------------------------------------------------------------
    // FactorInteger.

    /** The smallest listed prime not yet tried at position `it`: the list
        entry there, or the bound once the list is exhausted. */
    function Below(it: nat): int
      reads this
      requires it <= |primes|
    {
      if it < |primes| then primes[it] else maxPrime
    }

    /** What holds between the steps of `FactorInteger(n0)`: the pairs found
        so far times the remaining `n` give `n0`; no prime below the next
        candidate divides `n`, in particular none of the primes found; each
        found exponent is complete; and `stop` is past every listed prime
        up to `Isqrt(n0)`. */
    ghost predicate TrialState(n0: int, n: int, it: nat, stop: nat, pf: seq<PrimePower>)
      reads this
    {
      it <= stop <= |primes| && 1 <= n <= n0 && Isqrt(n0) < Below(stop)
      && Product(pf) * n == n0 && NoPrimeFactorBelow(n, Below(it))
      && Recorded(pf, n)
    }

    /** Before the first step only `n0` itself is known. */
    lemma StartState(n0: int, stop: nat)
      requires Valid() && 1 <= n0 < maxPrime * maxPrime && stop <= |primes|
      requires forall j :: stop <= j < |primes| ==> Isqrt(n0) < primes[j]
      ensures TrialState(n0, n0, 0, stop, [])
    {
      PrimeListFacts();
      SquareMono(maxPrime, Isqrt(n0));
    }

    /** `std::find_if` skipping list primes that do not divide `n` keeps the
        state. */
    lemma FindStep(n0: int, n: int, it: nat, k: nat, stop: nat, pf: seq<PrimePower>)
      requires Valid() && TrialState(n0, n, it, stop, pf) && it <= k <= stop
      requires forall j :: it <= j < k ==> n % primes[j] != 0
      ensures TrialState(n0, n, k, stop, pf)
    {
      forall q | 2 <= q < Below(k) && IsPrime(q)
        ensures n % q != 0
      {
        if q >= Below(it) {
          var j := ListedBetween(q, it, k);
        }
      }
    }

    /** A prime between the entries at positions `it` and `k` is listed at a
        position between the two. */
    lemma ListedBetween(q: int, it: nat, k: nat) returns (j: nat)
      requires Valid() && it <= k <= |primes| && IsPrime(q) && Below(it) <= q < Below(k)
      ensures it <= j < k && primes[j] == q
    {
      PrimeListFacts();
      j :| 0 <= j < |primes| && primes[j] == q;
    }

    /** Dividing the full power of the next prime out of `n` and recording it
        keeps the state. */
    lemma DivideStep(n0: int, n: int, k: nat, stop: nat, pf: seq<PrimePower>, count: nat, m: int)
      requires Valid() && TrialState(n0, n, k, stop, pf) && k < stop
      requires n % primes[k] == 0 && count >= 1 && n == Pow(primes[k], count) * m
      requires 1 <= m < n && m % primes[k] != 0 && n % m == 0
      ensures TrialState(n0, m, k, stop, pf + [PrimePower(primes[k], count)])
    {
      PrimeListFacts();
      var f := PrimePower(primes[k], count);
      ProductShift(pf, f, n, m);
      RecordPower(pf, f, n, m);
      DividesOut(n, m, Below(k));
    }

    /** The body both loops of `FactorInteger` share: `std::find_if` the next
        listed prime in `[it, stop)` that divides `n` and, unless there is
        none, divide its full power out of `n` and record it. */
    method NextFactor(ghost n0: int, n: int, it: nat, stop: nat, pf: seq<PrimePower>)
      returns (n': int, it': nat, pf': seq<PrimePower>)
      requires Valid() && TrialState(n0, n, it, stop, pf)
      ensures TrialState(n0, n', it', stop, pf')
      ensures it' == stop ==> n' == n && pf' == pf
      ensures it' < stop ==> n' < n && |pf'| == |pf| + 1 && pf'[..|pf|] == pf
      ensures it' < stop ==> pf'[|pf|].prime == primes[it']
    {
      PrimeListFacts();
      it' := FindDivisor(primes, it, stop, n);
      FindStep(n0, n, it, it', stop, pf);
      if it' == stop {
        return n, it', pf;
      }
      var count;
      count, n' := DivideOut(n, primes[it']);
      DivideStep(n0, n, it', stop, pf, count, n');
      pf' := pf + [PrimePower(primes[it'], count)];
    }

    /** Once every listed prime up to `Isqrt(n0)` has been tried, what
        remains of `n0` is 1 or a prime. */
    lemma RemainderIsPrime(n0: int, n: int, stop: nat, pf: seq<PrimePower>)
      requires TrialState(n0, n, stop, stop, pf) && n >= 2
      ensures IsPrime(n)
    {
      if !IsPrime(n) {
        SmallPrimeFactor(n);
        var q :| IsPrime(q) && q * q <= n && n % q == 0;
        BelowIsqrt(n0, q);
      }
    }

    /** A prime remainder completes the factorization as the pair `(n, 1)`. */
    lemma PushRemainder(n0: int, n: int, it: nat, stop: nat, pf: seq<PrimePower>)
      requires TrialState(n0, n, it, stop, pf) && IsPrime(n)
      ensures IsPrimeFactorization(pf + [PrimePower(n, 1)])
      ensures Product(pf + [PrimePower(n, 1)]) == n0
      ensures FullMultiplicity(pf + [PrimePower(n, 1)])
    {
      ProductShift(pf, PrimePower(n, 1), n, 1);
      RecordPrime(pf, n);
      RecordedAll(pf + [PrimePower(n, 1)]);
    }

    /** The setup of `FactorInteger`: `stop` is `std::upper_bound` of
        `Isqrt(n0)` in the list. */
    method StartTrial(n0: int) returns (stop: nat)
      requires Valid() && 1 <= n0 < maxPrime * maxPrime
      ensures TrialState(n0, n0, 0, stop, [])
      ensures 0 < stop <==> 4 <= n0
      ensures forall j :: 0 <= j < stop ==> primes[j] <= Isqrt(n0)
    {
      if 4 <= n0 {
        if maxPrime < 3 {
          MulMono(maxPrime, 2, maxPrime);
        }
        FirstPrimeIsTwo();
        BelowIsqrt(n0, 2);
      }
      stop := UpperBound(primes, Isqrt(n0));
      StartState(n0, stop);
      if 0 < stop {
        SquareMono(2, Isqrt(n0));
      }
    }

    /** The first loop of `FactorInteger`: divide out listed primes while
        `n > limit`, stopping early when none in `[it, stop)` divides `n`. */
    method TrialAbove(ghost n0: int, limit: int, n: int, it: nat, stop: nat, pf: seq<PrimePower>)
      returns (n': int, it': nat, pf': seq<PrimePower>)
      requires Valid() && TrialState(n0, n, it, stop, pf)
      requires forall j :: 0 <= j < stop ==> primes[j] <= Isqrt(n0)
      ensures TrialState(n0, n', it', stop, pf')
      ensures it' == stop || n' <= limit
      ensures it' == stop ==> n' > limit || (n' == n && it' == it)
      ensures n <= limit ==> n' == n && it' == it && pf' == pf
      ensures DividedAbove(pf, pf', limit, n0, Isqrt(n0))
    {
      n', it', pf' := n, it, pf;
      while n' > limit
        invariant TrialState(n0, n', it', stop, pf')
        invariant it' < stop || (n' == n && it' == it)
        invariant n <= limit ==> n' == n && it' == it && pf' == pf
        invariant DividedAbove(pf, pf', limit, n0, Isqrt(n0))
        decreases n'
      {
        ghost var before := pf';
        AboveLimit(Product(pf'), n', limit, n0);
        n', it', pf' := NextFactor(n0, n', it', stop, pf');
        DivideAboveStep(pf, before, pf', limit, n0, Isqrt(n0));
        if it' == stop {
          break;
        }
      }
    }

    /** The second loop of `FactorInteger`, `while (n != 1 && !primeQ_[n])`,
        for `n` at most the bound. `overrun` reports that the loop's lookup
        `primeQ_[n]` fell outside the table, which happens exactly when `n`
        starts at the bound; the loop stops there. */
    method TablePhase(ghost n0: int, n: int, it: nat, stop: nat, pf: seq<PrimePower>)
      returns (overrun: bool, n': int, it': nat, pf': seq<PrimePower>)
      requires Valid() && TrialState(n0, n, it, stop, pf) && n <= maxPrime
      ensures TrialState(n0, n', it', stop, pf')
      ensures overrun <==> n == maxPrime
      ensures !overrun ==> it' == stop || n' == 1 || IsPrime(n')
    {
      n', it', pf' := n, it, pf;
      overrun := false;
      while n' != 1
        invariant TrialState(n0, n', it', stop, pf') && n' <= maxPrime && !overrun
        invariant n == maxPrime ==> n' == n
        decreases n'
      {
        if n' == maxPrime {
          return true, n', it', pf';
        }
        if primeQ[n'] {
          break;
        }
        n', it', pf' := NextFactor(n0, n', it', stop, pf');
        if it' == stop {
          break;
        }
      }
    }

    /** The end of `FactorInteger`: a remainder other than 1 is the last
        prime, with exponent 1. */
    method Finish(ghost n0: int, n: int, it: nat, stop: nat, pf: seq<PrimePower>)
      returns (pf': seq<PrimePower>)
      requires TrialState(n0, n, it, stop, pf) && (it == stop || n == 1 || IsPrime(n))
      ensures IsPrimeFactorization(pf') && Product(pf') == n0 && FullMultiplicity(pf')
    {
      if n != 1 {
        if it == stop {
          RemainderIsPrime(n0, n, stop, pf);
        }
        PushRemainder(n0, n, it, stop, pf);
        pf' := pf + [PrimePower(n, 1)];
      } else {
        RecordedAll(pf);
        pf' := pf;
      }
    }

    /** `FactorInteger`, with the first loop running while `n >= maxPrime`
        so that the second loop's `primeQ_[n]` stays inside the table:
        trial division by the listed primes up to `Isqrt(n0)`, first while
        `n` is too large for the table, then while the table says `n` is
        composite, and a prime remainder last. For 0, `stop` is the start
        of the list, both loops are skipped, and `(0, 1)` is pushed. */
    method FactorInteger(n0: int) returns (pf: seq<PrimePower>)
      requires Valid() && 0 <= n0 < maxPrime * maxPrime
      ensures Product(pf) == n0
      ensures n0 >= 1 ==> IsPrimeFactorization(pf) && FullMultiplicity(pf)
      ensures n0 == 0 ==> pf == [PrimePower(0, 1)]
    {
      if n0 == 0 {
        assert [PrimePower(0, 1)][..0] == [];
        return [PrimePower(0, 1)];
      }
      var stop := StartTrial(n0);
      var n, it;
      n, it, pf := TrialAbove(n0, maxPrime - 1, n0, 0, stop, []);
      if it != stop {
        var overrun;
        overrun, n, it, pf := TablePhase(n0, n, it, stop, pf);
      }
      pf := Finish(n0, n, it, stop, pf);
    }

    /** `FactorInteger` as written: the first loop runs only while
        `n > maxPrime_`, so a remainder equal to the bound reaches the second
        loop's `primeQ_[n]`, one entry past the end of the table. `None`
        stands for that read; `rest` is what the first loop leaves of `n0`
        and `done` the pairs it divided out, each while the remainder was
        still above the bound. */
    method FactorIntegerAsWritten(n0: int)
      returns (r: Option<seq<PrimePower>>, ghost rest: int, ghost done: seq<PrimePower>)
      requires Valid() && 1 <= n0 < maxPrime * maxPrime
      ensures r.Some? ==>
        IsPrimeFactorization(r.value) && Product(r.value) == n0 && FullMultiplicity(r.value)
      ensures r.None? <==> 4 <= n0 && rest == maxPrime
      ensures n0 < maxPrime ==> r.Some?
      ensures 1 <= rest <= n0 && n0 % rest == 0
      ensures n0 <= maxPrime ==> rest == n0
      ensures rest > maxPrime ==> NoPrimeFactorBelow(rest, Isqrt(n0) + 1)
      ensures Product(done) * rest == n0 && Recorded(done, rest)
      ensures forall k :: 0 <= k < |done| ==> Product(done[..k]) * maxPrime < n0
      ensures forall k :: 0 <= k < |done| ==> done[k].prime <= Isqrt(n0)
    {
      var stop := StartTrial(n0);
      var n, it, pf := TrialAbove(n0, maxPrime, n0, 0, stop, []);
      rest, done := n, pf;
      FirstLoopRest(n0, n, it, stop, pf);
      if it != stop {
        var overrun;
        overrun, n, it, pf := TablePhase(n0, n, it, stop, pf);
        if overrun {
          return None, rest, done;
        }
      }
      pf := Finish(n0, n, it, stop, pf);
      return Some(pf), rest, done;
    }

    /** What the first loop as written leaves of `n0`: a divisor of it; one
        above the bound has no prime factor up to `Isqrt(n0)`; and once the
        listed primes are exhausted, the bound is left only for `n0 < 4`. */
    lemma FirstLoopRest(n0: int, n: int, it: nat, stop: nat, pf: seq<PrimePower>)
      requires TrialState(n0, n, it, stop, pf) && (it == stop || n <= maxPrime)
      requires it == stop ==> n > maxPrime || (n == n0 && it == 0)
      requires 0 < stop <==> 4 <= n0
      ensures n0 % n == 0
      ensures n > maxPrime ==> NoPrimeFactorBelow(n, Isqrt(n0) + 1)
      ensures it == stop ==> !(4 <= n0 && n == maxPrime)
    {
      MulModZero(n, Product(pf));
    }

    // -------------------------------------------------------------------
    // The overloads taking an integer: factor it, then work from the
    // factorization.

    /** `Divisors(INT n)`. `FactorInteger(1)` is empty and the counter reads
        `pf[0]`, so `n` must be at least 2. */
    method DivisorsOf(n: int) returns (r: seq<int>)
      requires Valid() && 2 <= n < maxPrime * maxPrime
      ensures Ascending(r) && 1 in r && n in r
      ensures forall x :: x in r ==> x != 0 && n % x == 0
      ensures exists pf ::
        IsPrimeFactorization(pf) && Product(pf) == n
        && |r| == NumDivisors(pf) && multiset(r) == multiset(CounterOrder(pf))
        && PowerSum(r, 1) == Sigma(pf, 1)
    {
      var pf := FactorInteger(n);
      FactorizationPrimes(pf, 0);
      r := Divisors(pf);
    }

    /** `EulerPhi(INT n)`: the loop started from `n` itself. */
    method EulerPhiOf(n: int) returns (r: int)
      requires Valid() && 1 <= n < maxPrime * maxPrime
      ensures exists pf ::
        IsPrimeFactorization(pf) && Product(pf) == n && r == Totient(pf)
        && r * Primes(pf) == n * PrimesLessOne(pf)
    {
      var pf := FactorInteger(n);
      FactorizationPrimes(pf, 0);
      r := EulerPhiFrom(n, pf);
      TotientClosedForm(pf);
    }

    /** `DivisorSum(INT n)`. */
    method DivisorSumOf(n: int) returns (r: int)
      requires Valid() && 1 <= n < maxPrime * maxPrime
      ensures exists pf :: IsPrimeFactorization(pf) && Product(pf) == n && r == Sigma(pf, 1)
    {
      var pf := FactorInteger(n);
      FactorizationPrimes(pf, 0);
      r := DivisorSum(pf);
    }

    /** `DivisorCount(INT n)`. */
    method DivisorCountOf(n: int) returns (r: int)
      requires Valid() && 1 <= n < maxPrime * maxPrime
      ensures exists pf :: IsPrimeFactorization(pf) && Product(pf) == n && r == NumDivisors(pf)
    {
      var pf := FactorInteger(n);
      r := DivisorCount(pf);
    }

    /** `DivisorSigma(INT n, INT m)`, with `m` not negative. */
    method DivisorSigmaOf(n: int, m: int) returns (r: int)
      requires Valid() && 1 <= n < maxPrime * maxPrime && m >= 0
      ensures exists pf :: IsPrimeFactorization(pf) && Product(pf) == n && r == Sigma(pf, m)
    {
      var pf := FactorInteger(n);
      FactorizationPrimes(pf, m);
      r := DivisorSigma(pf, m);
    }

    /** Multiplying out the factorization gives the number back:
        `IntegerFromFactors(FactorInteger(n)) == n`. */
    method RoundTrip(n: int) returns (pf: seq<PrimePower>, m: int)
      requires Valid() && 0 <= n < maxPrime * maxPrime
      ensures n >= 1 ==> IsPrimeFactorization(pf)
      ensures m == n
    {
      pf := FactorInteger(n);
      m := IntegerFromFactors(pf);
    }

    /** The divisors `Divisors(n)` lists add up to what `DivisorSum(n)`
        computes from the same factorization, and their `m`-th powers to
        `DivisorSigma(n, m)`. */
    method SumOfDivisors(n: int, m: nat) returns (divisors: seq<int>, sum: int, sigma: int)
      requires Valid() && 2 <= n < maxPrime * maxPrime
      ensures PowerSum(divisors, 1) == sum
      ensures PowerSum(divisors, m) == sigma
    {
      var pf := FactorInteger(n);
      FactorizationPrimes(pf, m);
      FactorizationPrimes(pf, 1);
      divisors := Divisors(pf);
      sum := DivisorSum(pf);
      sigma := DivisorSigma(pf, m);
    }

    /** Above a bound of 2 the list starts with 2. */
    lemma FirstPrimeIsTwo()
      requires Valid() && maxPrime >= 3
      ensures |primes| > 0 && primes[0] == 2
    {
      PrimeListFacts();
      assert IsPrime(2);
      var j :| 0 <= j < |primes| && primes[j] == 2;
    }
  }

  /** The entry at position `j` of the list is the `(j+1)`-th true index. */
  lemma PositionIsCount(t: seq<bool>, n: nat, j: nat)
    requires n <= |t| && j < CountTrue(t, n)
    ensures 0 <= TrueIndices(t, n)[j] < n
    ensures CountTrue(t, TrueIndices(t, n)[j] + 1) == j + 1
  {
    TrueIndicesFacts(t, n);
    var p := TrueIndices(t, n)[j];
    EntryAgainstCount(t, n, p, j);
    if j + 1 < CountTrue(t, n) {
      EntryAgainstCount(t, n, p, j + 1);
    }
  }

  /** The `do { count++; n /= p; } while (0 == n % p)` of `FactorInteger`:
      divide the full power of `p` out of `n`. */
  method DivideOut(n: int, p: int) returns (count: nat, m: int)
    requires n >= 1 && p >= 2 && n % p == 0
    ensures count >= 1 && n == Pow(p, count) * m
    ensures 1 <= m < n && m % p != 0 && n % m == 0
  {
    count := 1;
    m := n / p;
    DivideOnce(n, p);
    while m % p == 0
      invariant count >= 1 && n == Pow(p, count) * m && 1 <= m < n
      decreases m
    {
      var m' := m / p;
      DivideOnce(m, p);
      PowShift(p, count, m, m');
      count := count + 1;
      m := m';
    }
    var w := Pow(p, count);
    assert n == m * w;
    MulModZero(m, w);
  }

  lemma PowShift(p: int, c: nat, m: int, m': int)
    requires m == p * m'
    ensures Pow(p, c) * m == Pow(p, c + 1) * m'
  {
    assert Pow(p, c) * (p * m') == (Pow(p, c) * p) * m';
  }

  lemma DivideOnce(m: int, p: int)
    requires m >= 1 && p >= 2 && m % p == 0
    ensures m == p * (m / p) && 1 <= m / p < m
  {
    var q := m / p;
    assert m == p * q;
    if q <= 0 {
      MulMono(q, 0, p);
    }
    MulMono(2, p, q);
  }
}

/** Concrete inputs on which the code as written and the corrected model part
    ways, on engines built with the bounds 10 and 15, and values of the
    engine built with the bound 100. */
module Findings {
  import opened NumberTheory
  import opened Sieve
  import opened Factorization
  import opened Engine

  /** Primality below 10. */
  lemma PrimesBelowTen()
    ensures !IsPrime(0) && !IsPrime(1) && IsPrime(2) && IsPrime(3) && !IsPrime(4)
    ensures IsPrime(5) && !IsPrime(6) && IsPrime(7) && !IsPrime(8) && !IsPrime(9)
  {
    assert 4 % 2 == 0 && 6 % 2 == 0 && 8 % 2 == 0 && 9 % 3 == 0;
  }

  /** A table for the bound 10 compacts to the list `2, 3, 5, 7`. */
  lemma TableOfTen(t: seq<bool>)
    requires |t| == 10 && forall k :: 0 <= k < 10 ==> t[k] == IsPrime(k)
    ensures TrueIndices(t, 10) == [2, 3, 5, 7]
  {
    PrimesBelowTen();
    assert TrueIndices(t, 2) == [];
    assert TrueIndices(t, 3) == [2];
    assert TrueIndices(t, 4) == [2, 3];
    assert TrueIndices(t, 5) == [2, 3];
    assert TrueIndices(t, 6) == [2, 3, 5];
    assert TrueIndices(t, 7) == [2, 3, 5];
    assert TrueIndices(t, 8) == [2, 3, 5, 7];
    assert TrueIndices(t, 9) == [2, 3, 5, 7];
  }

  /** With the bound 10, `PrimeQForce(25)` as written stops at `5 < sqrt(25)`
      before trying 5 and answers true; the corrected test answers false. */
  method SquareOfLastTried() returns (asWritten: Option<bool>, corrected: bool)
    ensures asWritten == Some(true)
    ensures !corrected
  {
    var e := new PrimeEngine(10);
    TableOfTen(e.primeQ[..]);
    asWritten := e.PrimeQForceAsWritten(25);
    assert e.primes == [2, 3, 5, 7];
    TriedBelowFive(e.primes);
    assert asWritten.Some? && asWritten != Some(false);
    var b := asWritten.value;
    assert asWritten == Some(b);
    assert b;
    corrected := e.PrimeQForce(25);
    assert 25 % 5 == 0;
    assert !IsPrime(25);
    assert !corrected;
  }

  /** Among `2, 3, 5, 7`, the primes with `p * p < 25` do not divide 25, and
      5 is not one of them. */
  lemma TriedBelowFive(ps: seq<int>)
    requires ps == [2, 3, 5, 7]
    ensures !exists j :: 0 <= j < |ps| && ps[j] * ps[j] < 25 && 25 % ps[j] == 0
    ensures !forall j :: 0 <= j < |ps| ==> ps[j] * ps[j] < 25 && 25 % ps[j] != 0
  {
    forall j | 0 <= j < |ps| && ps[j] * ps[j] < 25
      ensures 25 % ps[j] != 0
    {
      assert j < 2;
    }
    assert ps[2] * ps[2] == 25;
  }

  /** With the bound 10, `PrimeQForce(97)` as written tries 2, 3, 5 and 7,
      all below `sqrt(97)`, and then reads past the end of `primes_`; the
      corrected test stops at the end of the list and answers true. */
  method PastTheList() returns (asWritten: Option<bool>, corrected: bool)
    ensures asWritten == None && corrected
  {
    var e := new PrimeEngine(10);
    TableOfTen(e.primeQ[..]);
    asWritten := e.PrimeQForceAsWritten(97);
    corrected := e.PrimeQForce(97);
    assert IsPrime(97) by {
      PrimeAt97();
    }
  }

  lemma PrimeAt97()
    ensures IsPrime(97)
  {
    forall p | IsPrime(p) && p * p <= 97
      ensures 97 % p != 0
    {
      if p >= 10 {
        SquareMono(10, p);
      }
      assert p < 10;
      PrimesBelowTen();
    }
    PrimeByTrialDivision(97);
  }

  /** With the bound 10, `FactorInteger(10)` as written skips the first loop
      (`10 > maxPrime_` is false) and reads `primeQ_[10]`, one past the end
      of the table; the corrected model factors it. */
  method FactorTheBound() returns (asWritten: Option<seq<PrimePower>>, corrected: seq<PrimePower>)
    ensures asWritten == None
    ensures IsPrimeFactorization(corrected) && Product(corrected) == 10
  {
    var e := new PrimeEngine(10);
    ghost var rest, done;
    asWritten, rest, done := e.FactorIntegerAsWritten(10);
    corrected := e.FactorInteger(10);
  }

  /** With the bound 15, `FactorInteger(30)` as written divides out 2 while
      `30 > 15`, leaves 15, and reads `primeQ_[15]`, one past the end of the
      table. */
  method RemainderAtTheBound() returns (asWritten: Option<seq<PrimePower>>, ghost rest: int)
    ensures asWritten == None && rest == 15
  {
    var e := new PrimeEngine(15);
    ghost var done;
    asWritten, rest, done := e.FactorIntegerAsWritten(30);
    RemainderOfThirty(done, rest);
  }

  /** What the first loop can leave of 30 when it runs while the remainder
      is above 15: only 15, after dividing out 2 once. */
  lemma RemainderOfThirty(done: seq<PrimePower>, rest: int)
    requires 1 <= rest && Product(done) * rest == 30 && Recorded(done, rest)
    requires forall k :: 0 <= k < |done| ==> Product(done[..k]) * 15 < 30
    requires rest > 15 ==> NoPrimeFactorBelow(rest, Isqrt(30) + 1)
    ensures rest == 15
  {
    if |done| == 0 {
      NothingDividedOut(rest);
    } else {
      var f := done[0];
      FirstPair(done);
      if |done| >= 2 {
        assert false;
      } else {
        assert done == [f];
        assert NoPrimeFactorBelow(rest, f.prime + 1);
        assert rest % 2 != 0 by {
          assert IsPrime(2);
        }
        OnePairOfThirty(f.prime, f.exp, rest);
      }
    }
  }

  /** The first pair of a factorization is a prime power of at least that
      prime, and stands for the first prefix. */
  lemma FirstPair(done: seq<PrimePower>)
    requires |done| >= 1 && IsPrimeFactorization(done)
    ensures Product(done[..1]) == Pow(done[0].prime, done[0].exp) >= 2
    ensures |done| == 1 ==> Product(done) == Pow(done[0].prime, done[0].exp)
  {
    PrefixLast(done, 0);
    PowAtLeast(done[0].prime, done[0].exp);
    if |done| == 1 {
      assert done == done[..1];
    }
  }

  /** Thirty itself is not left: 2 divides it and is at most `Isqrt(30)`. */
  lemma NothingDividedOut(rest: int)
    requires rest == 30
    ensures !NoPrimeFactorBelow(rest, Isqrt(30) + 1)
  {
    assert 2 <= Isqrt(30);
    assert IsPrime(2) && 30 % 2 == 0;
  }

  /** One prime power `p^x` times an odd `rest` makes 30 only as `2 * 15`. */
  lemma OnePairOfThirty(p: int, x: nat, rest: int)
    requires IsPrime(p) && x >= 1 && Pow(p, x) * rest == 30
    requires rest % 2 != 0
    ensures rest == 15
  {
    if p % 2 == 1 {
      PowOdd(p, x);
      OddProduct(Pow(p, x), rest);
    }
    assert p == 2;
    if x >= 2 {
      PowTwoEven(x - 1);
      MulAssoc(Pow(2, x - 1), 2, rest);
      EvenProduct(Pow(2, x - 1), rest);
    }
  }

  lemma {:induction false} PowOdd(b: int, e: nat)
    requires b % 2 == 1
    ensures Pow(b, e) % 2 == 1
  {
    if e > 0 {
      PowOdd(b, e - 1);
      OddProduct(Pow(b, e - 1), b);
    }
  }

  lemma {:induction false} PowTwoEven(e: nat)
    requires e >= 1
    ensures Pow(2, e) % 2 == 0
  {
    if e > 1 {
      PowTwoEven(e - 1);
      EvenProduct(Pow(2, e - 1), 2);
    }
  }

  lemma OddProduct(a: int, b: int)
    requires a % 2 == 1 && b % 2 == 1
    ensures (a * b) % 2 == 1
  {
    var x, y := a / 2, b / 2;
    assert a * b == 2 * (2 * x * y + x + y) + 1;
  }

  lemma EvenProduct(a: int, b: int)
    requires a % 2 == 0
    ensures (a * b) % 2 == 0
  {
    var x := a / 2;
    assert a * b == 2 * (x * b);
  }

  /** With the bound 100, as in the test drivers: the first prime is 2, and
      pi(10) is 4. */
  method BoundHundred() returns (first: int, pi: nat)
    ensures first == 2 && pi == 4
  {
    var e := new PrimeEngine(100);
    PrimeCountMonotone(2, 99);
    assert PrimeCount(2) == 1;
    assert e.NumPrimes() == PrimeCount(99);
    first := e.Prime(1);
    FirstPrime(first);
    pi := e.PrimePi(10);
    PrimesBelowTen();
    assert !IsPrime(10) by {
      assert 10 % 2 == 0;
    }
  }

  /** The only prime `r` with `PrimeCount(r) == 1` is 2. */
  lemma FirstPrime(r: int)
    requires IsPrime(r) && PrimeCount(r) == 1
    ensures r == 2
  {
    assert IsPrime(2);
    if r > 2 {
      PrimeCountMonotone(2, r - 1);
    }
  }
}

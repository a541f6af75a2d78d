/** The sieve of Eratosthenes behind `generatePrimeQ` and `generatePrimes`:
    which entries each pass strikes, what the table holds between passes,
    the compaction of the table into the list of primes, and the library
    scans (`std::find`, `std::count`) the two passes use. */
module Sieve {
  import opened NumberTheory

  /** Stride with which candidate `i` strikes its multiples: `i` for 2, and
      `2 * i` for every later candidate, whose even multiples are gone. */
  function Stride(i: int): int {
    if i == 2 then 2 else 2 * i
  }

  /** `k` is one of `i*i, i*i + s, i*i + 2s, ...`. */
  predicate Struck(k: int, i: int, s: int)
    requires s > 0
  {
    i * i <= k && (k - i * i) % s == 0
  }

  /** Striking from `i*i` with the stride of `i` turns the table for
      candidates below `i` into the table for candidates up to `i`. */
  lemma StrikeStep(k: int, i: int)
    requires i >= 2
    ensures Sieved(k, i) == (Sieved(k, i - 1) && !Struck(k, i, Stride(i)))
  {
    assert Sieved(k, i) == (Sieved(k, i - 1) && !(i * i <= k && k % i == 0));
    if i >= 3 && Sieved(k, i - 1) {
      if Struck(k, i, 2 * i) {
        StruckIsMultiple(k, i);
      }
      if i * i <= k && k % i == 0 {
        MulMono(4, i * i, 1);
        assert k % 2 != 0;
        OddMultipleIsStruck(k, i);
      }
    }
  }

  lemma StruckIsMultiple(k: int, i: int)
    requires i >= 3 && Struck(k, i, 2 * i)
    ensures k % i == 0
  {
    var t := (k - i * i) / (2 * i);
    assert k - i * i == (2 * i) * t;
    assert k == i * (i + 2 * t);
    MulModZero(i, i + 2 * t);
  }

  lemma OddMultipleIsStruck(k: int, i: int)
    requires i >= 3 && i * i <= k && k % i == 0 && k % 2 != 0
    ensures Struck(k, i, 2 * i)
  {
    var m := k / i;
    assert k == i * m;
    CofactorAtLeast(k, i, m);
    OddFactors(k, i, m);
    var t := HalfDifference(m, i);
    StruckFromCofactor(k, i, t);
  }

  /** Two odd numbers differ by an even amount. */
  lemma HalfDifference(m: int, i: int) returns (t: int)
    requires m >= i && m % 2 == 1 && i % 2 == 1
    ensures t >= 0 && m == i + 2 * t
  {
    t := (m - i) / 2;
  }

  lemma StruckFromCofactor(k: int, i: int, t: int)
    requires i >= 1 && t >= 0 && k == i * (i + 2 * t)
    ensures Struck(k, i, 2 * i)
  {
    assert k - i * i == (2 * i) * t;
    MulModZero(2 * i, t);
  }

  /** The cofactor of a divisor `i` with `i * i <= k` is at least `i`. */
  lemma CofactorAtLeast(k: int, i: int, m: int)
    requires i >= 1 && i * i <= k && k == i * m
    ensures m >= i
  {
    if m < i {
      MulMono(m, i - 1, i);
    }
  }

  /** Both factors of an odd product are odd. */
  lemma OddFactors(k: int, i: int, m: int)
    requires k == i * m && k % 2 != 0
    ensures i % 2 == 1 && m % 2 == 1
  {
    if i % 2 == 0 {
      assert k == 2 * ((i / 2) * m);
      MulModZero(2, (i / 2) * m);
    }
    if m % 2 == 0 {
      assert k == 2 * (i * (m / 2));
      MulModZero(2, i * (m / 2));
    }
  }

  /** Between two consecutive candidates every entry is already struck, so
      skipping them leaves the table unchanged. */
  lemma SieveGap(k: int, b: int, c: int)
    requires 2 <= b <= c
    requires forall d :: b < d <= c ==> !Sieved(d, b)
    ensures Sieved(k, b) == Sieved(k, c)
  {
    if Sieved(k, b) && !Sieved(k, c) {
      var d :| 2 <= d <= c && d * d <= k && k % d == 0;
      assert b < d;
      assert !Sieved(d, b);
      var e :| 2 <= e <= b && e * e <= d && d % e == 0;
      DividesTrans(e, d, k);
      MulMono(1, d, d);
      assert false;
    }
  }

  /** Stepping along `i*i, i*i + s, ...`: from one struck index the next one
      is `s` further on, and none lies in between. */
  lemma StruckNext(k: int, i: int, s: int, j: int)
    requires s > 0 && Struck(j, i, s) && j <= k <= j + s
    ensures Struck(k, i, s) <==> k == j || k == j + s
  {
    var q := (j - i * i) / s;
    assert j - i * i == s * q;
    if j < k < j + s {
      DivUnique(k - i * i, s, q, k - j);
    }
    if k == j + s {
      DivUnique(k - i * i, s, q + 1, 0);
    }
  }

  // ---------------------------------------------------------------------
  // Compaction of the table into a list.

  /** Number of true entries among `t[..n]`: what `std::count` returns. */
  function CountTrue(t: seq<bool>, n: nat): nat
    requires n <= |t|
  {
    if n == 0 then 0 else CountTrue(t, n - 1) + (if t[n - 1] then 1 else 0)
  }

  /** The indices below `n` whose entry is true, in index order. */
  function TrueIndices(t: seq<bool>, n: nat): (r: seq<int>)
    requires n <= |t|
    ensures |r| == CountTrue(t, n)
  {
    if n == 0 then [] else TrueIndices(t, n - 1) + (if t[n - 1] then [n - 1] else [])
  }

  /** The compaction keeps exactly the true indices, ascending, and as many
      as `std::count` finds. */
  lemma {:induction false} TrueIndicesFacts(t: seq<bool>, n: nat)
    requires n <= |t|
    ensures forall j :: 0 <= j < |TrueIndices(t, n)| ==>
      0 <= TrueIndices(t, n)[j] < n && t[TrueIndices(t, n)[j]]
    ensures forall j, l :: 0 <= j < l < |TrueIndices(t, n)| ==>
      TrueIndices(t, n)[j] < TrueIndices(t, n)[l]
    ensures forall k :: 0 <= k < n && t[k] ==> k in TrueIndices(t, n)
  {
    if n > 0 {
      TrueIndicesFacts(t, n - 1);
    }
  }

  /** The list for a shorter prefix is a prefix of the list, and every later
      entry is at least the length of that prefix. */
  lemma {:induction false} TrueIndicesPrefix(t: seq<bool>, k: nat, n: nat)
    requires k <= n <= |t|
    ensures CountTrue(t, k) <= CountTrue(t, n)
    ensures TrueIndices(t, n)[..CountTrue(t, k)] == TrueIndices(t, k)
    ensures forall j :: CountTrue(t, k) <= j < CountTrue(t, n) ==> TrueIndices(t, n)[j] >= k
  {
    if k < n {
      TrueIndicesPrefix(t, k, n - 1);
      TrueIndicesStep(t, k, n, TrueIndices(t, n - 1));
    }
  }

  /** One step of `TrueIndicesPrefix`: extending the table by entry `n - 1`
      appends at most `n - 1` to the list `r0` of the shorter table. */
  lemma TrueIndicesStep(t: seq<bool>, k: nat, n: nat, r0: seq<int>)
    requires k < n <= |t| && r0 == TrueIndices(t, n - 1)
    requires CountTrue(t, k) <= |r0| && r0[..CountTrue(t, k)] == TrueIndices(t, k)
    requires forall j :: CountTrue(t, k) <= j < |r0| ==> r0[j] >= k
    ensures TrueIndices(t, n)[..CountTrue(t, k)] == TrueIndices(t, k)
    ensures forall j :: CountTrue(t, k) <= j < CountTrue(t, n) ==> TrueIndices(t, n)[j] >= k
  {
    var r := TrueIndices(t, n);
    assert r[..|r0|] == r0;
    forall j | CountTrue(t, k) <= j < CountTrue(t, n) ensures r[j] >= k {
      if j < |r0| {
        assert r[j] == r0[j];
      }
    }
  }

  /** An entry of the list is at most `x` exactly when its position is
      below the number of true entries up to `x`. */
  lemma EntryAgainstCount(t: seq<bool>, n: nat, x: int, j: nat)
    requires 0 <= x < n <= |t| && j < CountTrue(t, n)
    ensures CountTrue(t, x + 1) <= CountTrue(t, n)
    ensures j < CountTrue(t, x + 1) <==> TrueIndices(t, n)[j] <= x
  {
    TrueIndicesPrefix(t, x + 1, n);
    TrueIndicesFacts(t, x + 1);
    if j < CountTrue(t, x + 1) {
      assert TrueIndices(t, n)[j] == TrueIndices(t, x + 1)[j];
    }
  }

  /** The first position whose entry exceeds `x` is the number of true
      entries up to `x`. */
  lemma PartitionIsCount(t: seq<bool>, n: nat, x: int, r: nat)
    requires 0 <= x < n <= |t| && r <= CountTrue(t, n)
    requires forall j :: 0 <= j < r ==> TrueIndices(t, n)[j] <= x
    requires forall j :: r <= j < CountTrue(t, n) ==> x < TrueIndices(t, n)[j]
    ensures r == CountTrue(t, x + 1)
  {
    TrueIndicesPrefix(t, x + 1, n);
    var c := CountTrue(t, x + 1);
    if r < CountTrue(t, n) {
      EntryAgainstCount(t, n, x, r);
    }
    if c < CountTrue(t, n) {
      EntryAgainstCount(t, n, x, c);
    }
  }

  /** On a table that holds primality, counting is the prime-counting
      function. */
  lemma {:induction false} CountTrueIsPrimeCount(t: seq<bool>, n: nat)
    requires n <= |t|
    requires forall k :: 0 <= k < |t| ==> t[k] == IsPrime(k)
    ensures CountTrue(t, n) == PrimeCount(n - 1)
  {
    if n > 0 {
      CountTrueIsPrimeCount(t, n - 1);
    }
  }

  /** Number of primes `p <= n`: the prime-counting function pi. */
  function PrimeCount(n: int): nat
    decreases n
  {
    if n < 2 then 0 else PrimeCount(n - 1) + (if IsPrime(n) then 1 else 0)
  }

  /** pi is non-decreasing. */
  lemma {:induction false} PrimeCountMonotone(a: int, b: int)
    requires a <= b
    ensures PrimeCount(a) <= PrimeCount(b)
    decreases b - a
  {
    if a < b {
      PrimeCountMonotone(a, b - 1);
    }
  }

  // ---------------------------------------------------------------------
  // The library scans.

  /** `std::find(begin + from, end, true)`, as an index. */
  method FindTrue(a: array<bool>, from: nat) returns (r: nat)
    requires from <= a.Length
    ensures from <= r <= a.Length
    ensures forall k :: from <= k < r ==> !a[k]
    ensures r < a.Length ==> a[r]
  {
    r := from;
    while r < a.Length && !a[r]
      invariant from <= r <= a.Length
      invariant forall k :: from <= k < r ==> !a[k]
    {
      r := r + 1;
    }
  }

  /** `std::count(begin, end, true)`. */
  method CountOf(a: array<bool>) returns (c: nat)
    ensures c == CountTrue(a[..], a.Length)
  {
    c := 0;
    var k := 0;
    while k < a.Length
      invariant 0 <= k <= a.Length
      invariant c == CountTrue(a[..], k)
    {
      if a[k] {
        c := c + 1;
      }
      k := k + 1;
    }
  }
}

/** Integer arithmetic the engine relies on: primality, powers, the integer
    square root that stands in for `sqrt`, C++ division, geometric sums. */
module NumberTheory {

  /** `n` is prime: at least 2 and no divisor strictly between 1 and `n`. */
  predicate IsPrime(n: int) {
    n >= 2 && forall d :: 2 <= d < n ==> n % d != 0
  }

  /** The state of sieve entry `n` once every candidate up to `b` has struck
      its multiples from its own square on: no divisor `d` with
      `2 <= d <= b` and `d * d <= n`. */
  predicate Sieved(n: int, b: int) {
    n >= 2 && forall d :: 2 <= d <= b && d * d <= n ==> n % d != 0
  }

  function Pow(b: int, e: nat): int {
    if e == 0 then 1 else Pow(b, e - 1) * b
  }

  /** Sum of `x^j` for `0 <= j < k`. */
  function GeomSum(x: int, k: nat): int {
    if k == 0 then 0 else GeomSum(x, k - 1) + Pow(x, k - 1)
  }

  function Abs(x: int): nat { if x < 0 then -x else x }

  /** C++ integer division, which truncates toward zero. */
  function TruncDiv(a: int, b: int): int
    requires b != 0
  {
    var q := Abs(a) / Abs(b);
    if (a < 0) != (b < 0) then -q else q
  }

  /** The integer square root, standing in for `static_cast<INT>(sqrt(n))`. */
  function Isqrt(n: nat): (r: nat)
    ensures r * r <= n < (r + 1) * (r + 1)
  {
    IsqrtFrom(n, 0)
  }

  function IsqrtFrom(n: nat, r: nat): (s: nat)
    requires r * r <= n
    ensures s * s <= n < (s + 1) * (s + 1)
    decreases n - r * r
  {
    if (r + 1) * (r + 1) <= n then IsqrtFrom(n, r + 1) else r
  }

  /** The least divisor of `n` that is at least `k`. */
  function LeastDivisorFrom(n: int, k: int): (d: int)
    requires 2 <= k <= n
    ensures k <= d <= n && n % d == 0
    ensures forall e :: k <= e < d ==> n % e != 0
    decreases n - k
  {
    if n % k == 0 then k else LeastDivisorFrom(n, k + 1)
  }

  // ---------------------------------------------------------------------
  // Small facts of multiplication and division.

  lemma MulMono(a: int, b: int, c: int)
    requires 0 <= a <= b && 0 <= c
    ensures a * c <= b * c
  {}

  /** A positive cofactor `n` above `limit` leaves `a * limit` below `a * n`. */
  lemma AboveLimit(a: int, n: int, limit: int, n0: int)
    requires a * n == n0 && limit < n && 1 <= n && 1 <= n0
    ensures a * limit < n0
  {
    if a <= 0 {
      MulMono(0, -a, n);
    }
    MulMono(1, n - limit, a);
  }

  lemma MulModZero(a: int, k: int)
    requires a > 0
    ensures (a * k) % a == 0 && (a * k) / a == k
  {
    var q, r := (a * k) / a, (a * k) % a;
    assert a * k == a * q + r;
    assert a * (k - q) == r;
    if k - q > 0 {
      MulMono(1, k - q, a);
    } else if k - q < 0 {
      MulMono(1, q - k, a);
    }
  }

  lemma DividesTrans(a: int, b: int, c: int)
    requires a > 0 && b > 0 && b % a == 0 && c % b == 0
    ensures c % a == 0
  {
    var t, q := b / a, c / b;
    assert b == a * t;
    assert c == b * q;
    assert c == a * (t * q);
    MulModZero(a, t * q);
  }

  /** A divisor of positive `n` in `[2, n]` splits `n` into two factors. */
  lemma Cofactor(n: int, d: int)
    requires 2 <= d <= n && n % d == 0
    ensures n == d * (n / d) && 1 <= n / d && n % (n / d) == 0
    ensures d < n ==> 2 <= n / d
  {
    var q := n / d;
    assert n == d * q;
    if q <= 0 {
      MulMono(q, 0, d);
    }
    MulModZero(q, d);
  }

  lemma MulAssoc(a: int, b: int, c: int)
    ensures (a * b) * c == a * (b * c)
  {}

  lemma MulSwap(a: int, b: int, c: int)
    ensures (a * b) * c == (a * c) * b
  {}

  lemma MulRegroup(a: int, b: int, c: int, d: int)
    ensures (a * b) * (c * d) == (a * c) * (b * d)
  {}

  /** One digit of a mixed-radix number: a lower part `r < w` plus a digit
      `x <= e` of weight `w` stays below `w * (e + 1)`, and reaches its last
      value only with both parts at their maximum. */
  lemma MixedRadixStep(r: int, w: int, x: int, e: int)
    requires 0 <= r < w && 0 <= x <= e
    ensures 0 <= r + x * w < w * (e + 1)
    ensures r + x * w == w * (e + 1) - 1 ==> x == e && r == w - 1
  {
    MulMono(x, e, w);
    if x < e {
      MulMono(x, e - 1, w);
    }
  }

  lemma SquareMono(a: int, b: int)
    ensures 0 <= a <= b ==> a * a <= b * b
  {
    if 0 <= a <= b {
      MulMono(a, b, a);
      MulMono(a, b, b);
    }
  }

  // ---------------------------------------------------------------------
  // Primality and trial division.

  /** No prime below `b` divides `n`. */
  ghost predicate NoPrimeFactorBelow(n: int, b: int) {
    forall q :: 2 <= q < b && IsPrime(q) ==> n % q != 0
  }

  /** If no prime up to its square root divides `n`, then `n` is prime. */
  lemma PrimeByTrialDivision(n: int)
    requires n >= 2
    requires forall p :: IsPrime(p) && p * p <= n ==> n % p != 0
    ensures IsPrime(n)
  {
    if !IsPrime(n) {
      SmallPrimeFactor(n);
    }
  }

  /** A divisor `p` with `p * p <= n` shows that `n` is not prime. */
  lemma SmallDivisorRefutes(n: int, p: int)
    requires 2 <= p && p * p <= n && n % p == 0
    ensures !IsPrime(n)
  {
    MulMono(2, p, p);
  }

  /** Values whose square does not exceed `n` are at most `Isqrt(n)`. */
  lemma BelowIsqrt(n: nat, q: int)
    requires 0 <= q && q * q <= n
    ensures q <= Isqrt(n)
  {
    SquareMono(Isqrt(n) + 1, q);
  }

  /** Below `(b + 1)^2`, surviving the sieve up to `b` is primality. */
  lemma SievedIsPrime(n: int, b: int)
    requires 0 <= b && n < (b + 1) * (b + 1)
    ensures Sieved(n, b) <==> IsPrime(n)
  {
    if IsPrime(n) {
      forall d | 2 <= d <= b && d * d <= n ensures n % d != 0 {
        MulMono(2, d, d);
      }
    }
    if Sieved(n, b) && !IsPrime(n) {
      SievedComposite(n, b);
    }
  }

  /** A composite below `(b + 1)^2` has a divisor at most `b` whose square
      is at most `n`. */
  lemma SievedComposite(n: int, b: int)
    requires 0 <= b && n < (b + 1) * (b + 1) && n >= 2 && !IsPrime(n)
    ensures !Sieved(n, b)
  {
    var d :| 2 <= d < n && n % d == 0;
    var e := SmallDivisor(n, d, b);
    assert !(2 <= e <= b && e * e <= n ==> n % e != 0);
  }

  /** Of `d` and `n / d`, the smaller one. */
  lemma SmallDivisor(n: int, d: int, b: int) returns (e: int)
    requires 0 <= b && n < (b + 1) * (b + 1) && 2 <= d < n && n % d == 0
    ensures 2 <= e <= b && e * e <= n && n % e == 0
  {
    Cofactor(n, d);
    var q := n / d;
    if d <= q {
      SmallerFactor(n, d, q, b);
      e := d;
    } else {
      SmallerFactor(n, q, d, b);
      e := q;
    }
  }

  /** The smaller of two factors of `n < (b + 1)^2` is at most `b`, and its
      square at most `n`. */
  lemma SmallerFactor(n: int, e: int, f: int, b: int)
    requires 0 <= b && n < (b + 1) * (b + 1) && 2 <= e <= f && n == e * f
    ensures 2 <= e <= b && e * e <= n && n % e == 0
  {
    MulMono(e, f, e);
    SquareMono(b + 1, e);
    MulModZero(e, f);
  }

  /** Primality is decided by trial division up to the integer square root. */
  lemma TrialDivisionBound(n: nat)
    ensures IsPrime(n) <==> n >= 2 && forall d :: 2 <= d <= Isqrt(n) ==> n % d != 0
  {
    var b := Isqrt(n);
    SievedIsPrime(n, b);
    if n >= 2 && forall d :: 2 <= d <= b ==> n % d != 0 {
      assert Sieved(n, b);
    }
    if IsPrime(n) {
      forall d | 2 <= d <= b ensures n % d != 0 {
        MulMono(d, b, d);
        MulMono(d, b, b);
        assert d * d <= n;
        assert Sieved(n, b);
      }
    }
  }

  /** The least divisor of `n` that is at least 2 is a prime. */
  lemma LeastDivisorIsPrime(n: int)
    requires n >= 2
    ensures IsPrime(LeastDivisorFrom(n, 2))
  {
    var p := LeastDivisorFrom(n, 2);
    forall e | 2 <= e < p ensures p % e != 0 {
      if p % e == 0 {
        DividesTrans(e, p, n);
      }
    }
  }

  /** A composite has a prime factor no larger than its square root. */
  lemma SmallPrimeFactor(n: int)
    requires n >= 2 && !IsPrime(n)
    ensures exists p :: IsPrime(p) && p * p <= n && n % p == 0
  {
    var p := LeastDivisorFrom(n, 2);
    LeastDivisorIsPrime(n);
    var d :| 2 <= d < n && n % d == 0;
    assert p <= d < n;
    Cofactor(n, p);
    var q := n / p;
    assert q >= p;
    MulMono(p, q, p);
  }

  // ---------------------------------------------------------------------
  // Powers and geometric sums.

  lemma {:induction false} PowAdd(b: int, m: nat, n: nat)
    ensures Pow(b, m + n) == Pow(b, m) * Pow(b, n)
    decreases n
  {
    if n > 0 {
      PowAdd(b, m, n - 1);
    }
  }

  lemma {:induction false} PowMul(b: int, m: nat, n: nat)
    ensures Pow(b, m * n) == Pow(Pow(b, m), n)
    decreases n
  {
    if n > 0 {
      PowMul(b, m, n - 1);
      var k := m * (n - 1);
      assert m * n == k + m;
      PowAdd(b, k, m);
    }
  }

  lemma {:induction false} PowOfProduct(a: int, c: int, m: nat)
    ensures Pow(a * c, m) == Pow(a, m) * Pow(c, m)
  {
    if m > 0 {
      PowOfProduct(a, c, m - 1);
      MulRegroup(Pow(a, m - 1), Pow(c, m - 1), a, c);
    }
  }

  lemma PowNonZero(b: int, e: nat)
    requires b != 0
    ensures Pow(b, e) != 0
  {}

  lemma {:induction false} PowAtLeast(b: int, e: nat)
    requires b >= 2 && e >= 1
    ensures Pow(b, e) >= b
  {
    if e > 1 {
      PowAtLeast(b, e - 1);
      MulMono(1, Pow(b, e - 1), b);
    }
  }

  lemma PowOne(e: nat)
    ensures Pow(1, e) == 1
  {}

  /** The geometric series in closed form: `p^k - 1` is divisible by
      `p - 1`, which makes the divisions in the divisor sums exact. */
  lemma {:induction false} GeomSumClosedForm(x: int, k: nat)
    ensures (x - 1) * GeomSum(x, k) == Pow(x, k) - 1
  {
    if k > 0 {
      GeomSumClosedForm(x, k - 1);
      calc {
        (x - 1) * GeomSum(x, k);
        (x - 1) * GeomSum(x, k - 1) + (x - 1) * Pow(x, k - 1);
        Pow(x, k - 1) - 1 + (x - 1) * Pow(x, k - 1);
        Pow(x, k - 1) * x - 1;
      }
    }
  }

  /** Euclidean division is determined by quotient and remainder. */
  lemma DivUnique(a: int, y: int, q: int, r: int)
    requires y != 0 && a == y * q + r && 0 <= r < Abs(y)
    ensures a / y == q && a % y == r
  {
    var q', r' := a / y, a % y;
    assert y * (q - q') == r' - r;
    var k := q - q';
    if k != 0 {
      AbsMul(y, k);
      MulMono(1, Abs(k), Abs(y));
      assert false;
    }
  }

  /** Exact division: `(y * q) / y == q` for every nonzero `y`. */
  lemma ExactDiv(a: int, y: int, q: int)
    requires y != 0 && a == y * q
    ensures a / y == q && TruncDiv(a, y) == q
  {
    DivUnique(a, y, q, 0);
    AbsMul(y, q);
    MulModZero(Abs(y), Abs(q));
  }

  lemma AbsMul(y: int, q: int)
    ensures Abs(y * q) == Abs(y) * Abs(q)
  {
    if y < 0 && q < 0 { assert y * q == (-y) * (-q); }
    if y < 0 && q >= 0 { assert -(y * q) == (-y) * q; }
    if y >= 0 && q < 0 { assert -(y * q) == y * (-q); }
  }

  lemma GeomSumOfOne(k: nat)
    ensures GeomSum(1, k) == k
  {
    if k > 0 {
      GeomSumOfOne(k - 1);
      PowOne(k - 1);
    }
  }
}

/** `Divisors(pf)` of `PrimeEngine`: a mixed-radix counter over the exponent
    vectors of the factorization, each step multiplying or dividing the
    running divisor by a prime, followed by a sort. It reads none of the
    engine's state, so it is modelled outside the class. */
module DivisorFunctions {
  import opened NumberTheory
  import opened Factorization
  import opened DivisorCounter
  import opened Search

  // ---------------------------------------------------------------------
  // Divisors(pf): the mixed-radix counter.

  /** A counter state between steps: every digit in range, top digit 0. */
  ghost predicate Live(pf: seq<PrimePower>, d: seq<nat>) {
    |d| == |pf| + 1 && d[|pf|] == 0 && InRange(pf, d, |pf|)
  }

  /** The state after the last step: all digits 0 but the top one. */
  ghost predicate Wrapped(pf: seq<PrimePower>, d: seq<nat>) {
    |d| == |pf| + 1 && d[|pf|] == 1 && forall i :: 0 <= i < |pf| ==> d[i] == 0
  }

  /** The state inside the carry loop at digit `i`: the digits below `i`
      are cleared, digit `i` has just been incremented, possibly one past
      its range, and the digits above are untouched. */
  ghost predicate Carrying(pf: seq<PrimePower>, d: seq<nat>, i: nat) {
    |d| == |pf| + 1 && i < |pf| && d[|pf|] == 0
    && (forall j :: 0 <= j < i ==> d[j] == 0)
    && 1 <= d[i] <= pf[i].exp + 1
    && (forall j :: i < j < |pf| ==> d[j] <= pf[j].exp)
  }

  /** `indices[i]++` adds the weight of digit `i` to the rank, and for a
      digit below the top, multiplies the value by `p_i`. */
  lemma Bump(pf: seq<PrimePower>, d: seq<nat>, i: nat)
    requires |d| == |pf| + 1 && i <= |pf|
    ensures Rank(pf, d[i := d[i] + 1], |pf| + 1) == Rank(pf, d, |pf| + 1) + Weight(pf, i)
    ensures i < |pf| ==> Val(pf, d[i := d[i] + 1], |pf|) == Val(pf, d, |pf|) * pf[i].prime
    ensures i == |pf| ==> Val(pf, d[i := d[i] + 1], |pf|) == Val(pf, d, |pf|)
  {
    RankUpdate(pf, d, |pf| + 1, i, d[i] + 1);
    if i < |pf| {
      ValIncrement(pf, d, |pf|, i);
    } else {
      ValFrame(pf, d, d[i := d[i] + 1], |pf|);
    }
  }

  /** Clearing a digit that ran one past its range takes its weight times
      `e_i + 1`, the weight of the next digit, from the rank, and divides
      `p_i^(e_i + 1)` out of the value. */
  lemma CarryClear(pf: seq<PrimePower>, d: seq<nat>, i: nat)
    requires |d| == |pf| + 1 && i < |pf| && d[i] == pf[i].exp + 1
    ensures Rank(pf, d[i := 0], |pf| + 1) == Rank(pf, d, |pf| + 1) - Weight(pf, i + 1)
    ensures Val(pf, d, |pf|) == Val(pf, d[i := 0], |pf|) * Pow(pf[i].prime, pf[i].exp + 1)
  {
    RankUpdate(pf, d, |pf| + 1, i, 0);
    WeightStep(pf, i);
    ValClear(pf, d, |pf|, i);
  }

  /** `v /= p` on `v == base * p^k` with `k >= 1` is exact. */
  lemma DivideOnePower(base: int, p: int, k: nat)
    requires p != 0 && k >= 1
    ensures TruncDiv(base * Pow(p, k), p) == base * Pow(p, k - 1)
  {
    MulAssoc(base, Pow(p, k - 1), p);
    ExactDiv(base * Pow(p, k), p, base * Pow(p, k - 1));
  }

  /** The carry's inner loop `for (j = 0; j <= e; j++) v /= p`: with
      `v == base * p^(e + 1)` every division is exact and `base` is left. */
  method DivideOutPower(ghost base: int, v: int, p: int, e: nat) returns (v': int)
    requires p != 0 && v == base * Pow(p, e + 1)
    ensures v' == base
  {
    v' := v;
    var j := 0;
    while j <= e
      invariant 0 <= j <= e + 1
      invariant v' == base * Pow(p, e + 1 - j)
    {
      DivideOnePower(base, p, e + 1 - j);
      v' := TruncDiv(v', p);
      j := j + 1;
    }
  }

  /** One step of the counter in `Divisors`: increment digit 0 and carry
      into the next digit while the current one runs past its exponent,
      dividing its full power back out of `v`. The rank goes up by one. */
  method Advance(pf: seq<PrimePower>, indices: array<nat>, v: int) returns (v': int)
    requires NonZeroPrimes(pf) && |pf| >= 1 && indices.Length == |pf| + 1
    requires Live(pf, indices[..]) && v == Val(pf, indices[..], |pf|)
    modifies indices
    ensures Live(pf, indices[..]) || Wrapped(pf, indices[..])
    ensures Rank(pf, indices[..], |pf| + 1) == Rank(pf, old(indices[..]), |pf| + 1) + 1
    ensures v' == Val(pf, indices[..], |pf|)
  {
    ghost var r0 := Rank(pf, indices[..], |pf| + 1);
    assert pf[..0] == [];
    Bump(pf, indices[..], 0);
    CarryStart(pf, indices[..]);
    var i := 0;
    indices[i] := indices[i] + 1;
    v' := v * pf[i].prime;
    while indices[i] == pf[i].exp + 1
      invariant 0 <= i < |pf| && Carrying(pf, indices[..], i)
      invariant Rank(pf, indices[..], |pf| + 1) == r0 + 1
      invariant v' == Val(pf, indices[..], |pf|)
      decreases |pf| - i
    {
      v' := CarryStep(pf, indices, i, v');
      i := i + 1;
      if i == |pf| {
        break;
      }
    }
    CarryEnd(pf, indices[..], i);
  }

  /** One pass of the carry loop: clear digit `i`, divide `p_i^(e_i + 1)`
      back out of `v`, increment digit `i + 1`, and multiply `v` by its
      prime unless it is the top digit. The rank does not change. */
  method CarryStep(pf: seq<PrimePower>, indices: array<nat>, i: nat, v: int) returns (v': int)
    requires NonZeroPrimes(pf) && indices.Length == |pf| + 1
    requires Carrying(pf, indices[..], i) && indices[i] == pf[i].exp + 1
    requires v == Val(pf, indices[..], |pf|)
    modifies indices
    ensures i + 1 < |pf| ==> Carrying(pf, indices[..], i + 1)
    ensures i + 1 == |pf| ==> Wrapped(pf, indices[..])
    ensures Rank(pf, indices[..], |pf| + 1) == Rank(pf, old(indices[..]), |pf| + 1)
    ensures v' == Val(pf, indices[..], |pf|)
  {
    ghost var d := indices[..];
    CarryClear(pf, d, i);
    CarryNext(pf, d, i);
    indices[i] := 0;
    assert indices[..] == d[i := 0];
    v' := DivideOutPower(Val(pf, indices[..], |pf|), v, pf[i].prime, pf[i].exp);
    Bump(pf, d[i := 0], i + 1);
    indices[i + 1] := indices[i + 1] + 1;
    assert indices[..] == d[i := 0][i + 1 := d[i + 1] + 1];
    if i + 1 < |pf| {
      v' := v' * pf[i + 1].prime;
    }
  }

  lemma CarryStart(pf: seq<PrimePower>, d: seq<nat>)
    requires |pf| >= 1 && Live(pf, d)
    ensures Carrying(pf, d[0 := d[0] + 1], 0)
  {
  }

  /** Carrying from digit `i` clears it and increments the next digit: the
      loop goes on at `i + 1`, or the top digit has wrapped. */
  lemma CarryNext(pf: seq<PrimePower>, d: seq<nat>, i: nat)
    requires Carrying(pf, d, i) && d[i] == pf[i].exp + 1
    ensures i + 1 < |pf| ==> Carrying(pf, d[i := 0][i + 1 := d[i + 1] + 1], i + 1)
    ensures i + 1 == |pf| ==> Wrapped(pf, d[i := 0][i + 1 := d[i + 1] + 1])
  {
  }

  /** A carry that stops at a digit still in range leaves a live counter. */
  lemma CarryEnd(pf: seq<PrimePower>, d: seq<nat>, i: nat)
    requires (Carrying(pf, d, i) && d[i] != pf[i].exp + 1) || Wrapped(pf, d)
    ensures Live(pf, d) || Wrapped(pf, d)
  {
  }

  /** While the counter is live its rank is below the number of divisors,
      it reaches the last rank only at the top value `Product(pf)`, and its
      value divides `Product(pf)`. */
  lemma LiveBound(pf: seq<PrimePower>, d: seq<nat>)
    requires NonZeroPrimes(pf) && Live(pf, d)
    ensures Rank(pf, d, |pf| + 1) < NumDivisors(pf)
    ensures Rank(pf, d, |pf| + 1) == NumDivisors(pf) - 1 ==> Val(pf, d, |pf|) == Product(pf)
    ensures Val(pf, d, |pf|) != 0 && Product(pf) % Val(pf, d, |pf|) == 0
  {
    assert pf[..|pf|] == pf;
    RankBound(pf, d, |pf|);
    if Rank(pf, d, |pf| + 1) == NumDivisors(pf) - 1 {
      TopValue(pf, d, |pf|);
    }
    var c := ValDivides(pf, d, |pf|);
    DivUnique(Product(pf), Val(pf, d, |pf|), c, 0);
  }

  /** The wrapped counter has rank `NumDivisors(pf)`. */
  lemma WrappedRank(pf: seq<PrimePower>, d: seq<nat>)
    requires Wrapped(pf, d)
    ensures Rank(pf, d, |pf| + 1) == NumDivisors(pf)
  {
    assert pf[..|pf|] == pf;
    ZeroDigits(pf, d, |pf|);
  }

  /** Pushing the value of a live counter whose rank is the length of the
      list extends it by the next entry in rank order. */
  lemma PushNext(pf: seq<PrimePower>, d: seq<nat>, list: seq<int>, v: int)
    requires Live(pf, d) && v == Val(pf, d, |pf|) && |list| == Rank(pf, d, |pf| + 1)
    requires |list| < NumDivisors(pf) && list == CounterOrder(pf)[..|list|]
    ensures list + [v] == CounterOrder(pf)[..|list| + 1]
  {
    CounterOrderAt(pf, d, |pf|);
    assert pf[..|pf|] == pf;
  }

  /** The counting loop of `Divisors(pf)`: push the counter's value and
      advance, until the top digit wraps. The list holds the value of every
      in-range digit vector, in the order of their ranks. */
  method DivisorList(pf: seq<PrimePower>) returns (list: seq<int>)
    requires |pf| >= 1 && NonZeroPrimes(pf)
    ensures list == CounterOrder(pf)
    ensures |list| == NumDivisors(pf)
    ensures forall x :: x in list ==> x != 0 && Product(pf) % x == 0
    ensures 1 in list && Product(pf) in list
  {
    var indices := new nat[|pf| + 1](_ => 0);
    var v := 1;
    list := [];
    ZeroDigits(pf, indices[..], |pf| + 1);
    ZeroDigits(pf, indices[..], |pf|);
    NumDivisorsPositive(pf);
    while indices[|pf|] == 0
      invariant Live(pf, indices[..]) || Wrapped(pf, indices[..])
      invariant v == Val(pf, indices[..], |pf|)
      invariant |list| == Rank(pf, indices[..], |pf| + 1)
      invariant |list| <= NumDivisors(pf) && list == CounterOrder(pf)[..|list|]
      invariant forall x :: x in list ==> x != 0 && Product(pf) % x == 0
      invariant |list| == 0 ==> v == 1
      invariant |list| > 0 ==> list[0] == 1
      invariant |list| >= NumDivisors(pf) ==> Product(pf) in list
      decreases NumDivisors(pf) - |list|
    {
      LiveBound(pf, indices[..]);
      PushNext(pf, indices[..], list, v);
      list := list + [v];
      v := Advance(pf, indices, v);
    }
    WrappedRank(pf, indices[..]);
  }

  /** `Divisors(pf)`: the counter's list, sorted. Every entry divides the
      product, there are `prod (e_i + 1)` of them, and 1 and the product
      itself are among them. `pf[0]` is read unconditionally, so the list
      must not be empty. */
  method Divisors(pf: seq<PrimePower>) returns (r: seq<int>)
    requires |pf| >= 1 && NonZeroPrimes(pf)
    ensures Ascending(r) && multiset(r) == multiset(CounterOrder(pf))
    ensures |r| == NumDivisors(pf)
    ensures forall m: nat :: PowerSum(r, m) == Sigma(pf, m)
    ensures forall x :: x in r ==> x != 0 && Product(pf) % x == 0
    ensures 1 in r && Product(pf) in r
  {
    var list := DivisorList(pf);
    r := SortAscending(list);
    SortOrders(list);
    SortPermutes(list);
    forall x | x in r
      ensures x in list
    {
      assert x in multiset(r);
    }
    assert 1 in multiset(list) && Product(pf) in multiset(list);
    forall m: nat
      ensures PowerSum(r, m) == Sigma(pf, m)
    {
      PowerSumPermutation(r, list, m);
      CounterOrderPowerSum(pf, m);
    }
  }

  /** For `28 = 2^2 * 7` the counter visits `1, 2, 4, 7, 14, 28`, so the
      sorted list `Divisors` returns is exactly that. */
  lemma DivisorsOfTwentyEight(r: seq<int>)
    requires Ascending(r) && multiset(r) == multiset(CounterOrder([PrimePower(2, 2), PrimePower(7, 1)]))
    ensures r == [1, 2, 4, 7, 14, 28]
  {
    OrderOfTwentyEight();
    SortedTwentyEight();
    AscendingUnique(r, [1, 2, 4, 7, 14, 28]);
  }

  lemma OrderOfTwentyEight()
    ensures CounterOrder([PrimePower(2, 2), PrimePower(7, 1)]) == [1, 2, 4, 7, 14, 28]
  {
    var pf := [PrimePower(2, 2), PrimePower(7, 1)];
    assert pf[..1] == [PrimePower(2, 2)] && pf[..1][..0] == [];
    assert Pow(2, 2) == 4;
    assert Scaled([1], 1) == [1] && Scaled([1], 2) == [2] && Scaled([1], 4) == [4];
    assert Blocks([1], 2, 3) == [1, 2, 4];
    assert Scaled([1, 2, 4], 1) == [1, 2, 4] && Scaled([1, 2, 4], 7) == [7, 14, 28];
    assert Blocks([1, 2, 4], 7, 2) == [1, 2, 4, 7, 14, 28];
  }

  lemma SortedTwentyEight()
    ensures Ascending([1, 2, 4, 7, 14, 28])
  {
  }
}

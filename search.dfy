/** The standard-library algorithms the engine calls: `std::upper_bound` and
    `std::find_if` with the predicate "divides n" over its ascending list of
    primes, and `std::sort` of the divisor list. */
module Search {

  predicate Ascending(s: seq<int>) {
    forall i, j :: 0 <= i < j < |s| ==> s[i] <= s[j]
  }

  /** `std::upper_bound(s.begin(), s.end(), x)`, as an index: by binary
      search, the first position whose entry exceeds `x`. */
  method UpperBound(s: seq<int>, x: int) returns (lo: nat)
    requires Ascending(s)
    ensures lo <= |s|
    ensures forall i :: 0 <= i < lo ==> s[i] <= x
    ensures forall i :: lo <= i < |s| ==> x < s[i]
  {
    lo := 0;
    var hi := |s|;
    while lo < hi
      invariant 0 <= lo <= hi <= |s|
      invariant forall i :: 0 <= i < lo ==> s[i] <= x
      invariant forall i :: hi <= i < |s| ==> x < s[i]
    {
      var mid := (lo + hi) / 2;
      if s[mid] <= x {
        lo := mid + 1;
      } else {
        hi := mid;
      }
    }
  }

  /** `std::find_if(begin + from, begin + stop, [n](p) { return n % p == 0; })`,
      as an index: the first entry in `[from, stop)` dividing `n`, or `stop`. */
  method FindDivisor(s: seq<int>, from: nat, stop: nat, n: int) returns (k: nat)
    requires from <= stop <= |s|
    requires forall j :: from <= j < stop ==> s[j] != 0
    ensures from <= k <= stop
    ensures forall j :: from <= j < k ==> n % s[j] != 0
    ensures k < stop ==> n % s[k] == 0
  {
    k := from;
    while k < stop && n % s[k] != 0
      invariant from <= k <= stop
      invariant forall j :: from <= j < k ==> n % s[j] != 0
    {
      k := k + 1;
    }
  }

  /** `std::sort(begin, end)` with `<`, as a function: insertion sort. */
  function SortAscending(s: seq<int>): (r: seq<int>)
    ensures |r| == |s|
  {
    if s == [] then [] else Insert(s[0], SortAscending(s[1..]))
  }

  /** Insert `x` before the first entry not below it. */
  function Insert(x: int, s: seq<int>): (r: seq<int>)
    ensures |r| == |s| + 1
  {
    if s == [] || x <= s[0] then [x] + s else [s[0]] + Insert(x, s[1..])
  }

  lemma {:induction false} InsertMultiset(x: int, s: seq<int>)
    ensures multiset(Insert(x, s)) == multiset(s) + multiset{x}
  {
    if s != [] && x > s[0] {
      InsertMultiset(x, s[1..]);
      assert s == [s[0]] + s[1..];
    }
  }

  lemma {:induction false} InsertLowerBound(x: int, s: seq<int>, b: int)
    requires b <= x && forall i :: 0 <= i < |s| ==> b <= s[i]
    ensures forall i :: 0 <= i < |Insert(x, s)| ==> b <= Insert(x, s)[i]
  {
    if s != [] && x > s[0] {
      InsertLowerBound(x, s[1..], b);
    }
  }

  lemma {:induction false} InsertAscending(x: int, s: seq<int>)
    requires Ascending(s)
    ensures Ascending(Insert(x, s))
  {
    if s != [] && x > s[0] {
      InsertAscending(x, s[1..]);
      InsertLowerBound(x, s[1..], s[0]);
    }
  }

  /** The sorted list is ascending. */
  lemma {:induction false} SortOrders(s: seq<int>)
    ensures Ascending(SortAscending(s))
  {
    if s != [] {
      SortOrders(s[1..]);
      InsertAscending(s[0], SortAscending(s[1..]));
    }
  }

  /** The sorted list holds the same entries, as often. */
  lemma {:induction false} SortPermutes(s: seq<int>)
    ensures multiset(SortAscending(s)) == multiset(s)
  {
    if s != [] {
      SortPermutes(s[1..]);
      InsertMultiset(s[0], SortAscending(s[1..]));
      assert s == [s[0]] + s[1..];
    }
  }

  /** Sorting leaves no choice: two ascending sequences with the same
      entries, as often, are equal. */
  lemma {:induction false} AscendingUnique(a: seq<int>, b: seq<int>)
    requires Ascending(a) && Ascending(b) && multiset(a) == multiset(b)
    ensures a == b
    decreases |a|
  {
    assert |a| == |multiset(a)| == |multiset(b)| == |b|;
    if a != [] {
      SameHead(a, b);
      AscendingTail(a);
      AscendingTail(b);
      AscendingUnique(a[1..], b[1..]);
    }
  }

  /** Two non-empty ascending sequences with the same entries start alike,
      and agree after their heads too. */
  lemma SameHead(a: seq<int>, b: seq<int>)
    requires a != [] && b != [] && Ascending(a) && Ascending(b) && multiset(a) == multiset(b)
    ensures a[0] == b[0] && multiset(a[1..]) == multiset(b[1..])
  {
    assert a == [a[0]] + a[1..] && b == [b[0]] + b[1..];
    assert multiset(a) == multiset{a[0]} + multiset(a[1..]);
    assert multiset(b) == multiset{b[0]} + multiset(b[1..]);
    HeadIsLeast(a, b[0]);
    HeadIsLeast(b, a[0]);
    assert multiset(a[1..]) == multiset(a) - multiset{a[0]};
    assert multiset(b[1..]) == multiset(b) - multiset{b[0]};
  }

  lemma AscendingTail(s: seq<int>)
    requires s != [] && Ascending(s)
    ensures Ascending(s[1..])
  {
    forall i, j | 0 <= i < j < |s| - 1
      ensures s[1..][i] <= s[1..][j]
    {
      assert s[1..][i] == s[i + 1] && s[1..][j] == s[j + 1];
    }
  }

  /** The head of an ascending sequence is at most any of its entries. */
  lemma HeadIsLeast(s: seq<int>, x: int)
    requires Ascending(s) && x in multiset(s)
    ensures s[0] <= x
  {
    var i :| 0 <= i < |s| && s[i] == x;
    if i > 0 {
      assert s[0] <= s[i];
    }
  }
}

/** One worker's task: scan a half-open range and collect its primes (`Main.RunPrime`). */
module PrimeScan {
  import opened Primality

  /** `Main.PrimeRange`: the range `[first, last)` handed to one worker. */
  datatype PrimeRange = PrimeRange(first: int, last: int)

  predicate StrictlyAscending(s: seq<int>) {
    forall j, k :: 0 <= j < k < |s| ==> s[j] < s[k]
  }

  /** The numbers of `range` that `IsPrime` accepts, as a set: the reference
      against which a scan's result is measured. */
  ghost function PrimesIn(range: PrimeRange): set<int> {
    set x | range.first <= x < range.last && IsPrime(x)
  }

  /** `Main.RunPrime`: scans `[first, last)` upward and keeps the numbers
      `IsPrime` accepts, so its result is strictly ascending and stays inside
      the range; an empty or inverted range yields nothing. Which numbers it
      keeps is stated by `RunPrimeMembers`. */
  function RunPrime(range: PrimeRange): (primes: seq<int>)
    ensures StrictlyAscending(primes)
    ensures forall k :: 0 <= k < |primes| ==> range.first <= primes[k] < range.last
    decreases range.last - range.first
  {
    if range.first >= range.last then []
    else
      var rest := RunPrime(PrimeRange(range.first + 1, range.last));
      if IsPrime(range.first) then [range.first] + rest else rest
  }

  /** A scan keeps exactly the numbers of its range that `IsPrime` accepts. */
  lemma {:induction false} RunPrimeMembers(range: PrimeRange)
    ensures forall x :: x in RunPrime(range) <==> range.first <= x < range.last && IsPrime(x)
    decreases range.last - range.first
  {
    if range.first < range.last {
      RunPrimeMembers(PrimeRange(range.first + 1, range.last));
    }
  }

  /** The head of a strictly ascending sequence is its least element. */
  lemma HeadIsLeast(s: seq<int>, x: int)
    requires StrictlyAscending(s) && x in s
    ensures s[0] <= x
  {
    var k :| 0 <= k < |s| && s[k] == x;
  }

  /** The tail of a strictly ascending sequence holds every element but the head. */
  lemma TailMembers(s: seq<int>, x: int)
    requires StrictlyAscending(s) && |s| > 0
    ensures x in s[1..] <==> x in s && x != s[0]
  {
    if x in s && x != s[0] {
      var k :| 0 <= k < |s| && s[k] == x;
      assert s[1..][k - 1] == x;
    }
  }

  /** Two strictly ascending sequences with the same elements are equal. */
  lemma {:induction false} AscendingDetermined(s: seq<int>, t: seq<int>)
    requires StrictlyAscending(s) && StrictlyAscending(t)
    requires forall x :: x in s <==> x in t
    ensures s == t
    decreases |s|
  {
    assert |s| > 0 ==> s[0] in s;
    assert |t| > 0 ==> t[0] in t;
    if |s| > 0 {
      HeadIsLeast(t, s[0]);
      HeadIsLeast(s, t[0]);
      forall x
        ensures x in s[1..] <==> x in t[1..]
      {
        TailMembers(s, x);
        TailMembers(t, x);
      }
      AscendingDetermined(s[1..], t[1..]);
      assert s == [s[0]] + s[1..];
      assert t == [t[0]] + t[1..];
    }
  }

  /** `RunPrime` is the only ascending sequence holding exactly the primes of
      the range: its result is fully determined by its specification. */
  lemma RunPrimeUnique(range: PrimeRange, s: seq<int>)
    requires StrictlyAscending(s)
    requires forall x :: x in s <==> range.first <= x < range.last && IsPrime(x)
    ensures s == RunPrime(range)
  {
    RunPrimeMembers(range);
    AscendingDetermined(s, RunPrime(range));
  }

  /** Scanning `[a, c)` gives the scan of `[a, b)` followed by the scan of
      `[b, c)`: splitting the range among workers loses and repeats nothing. */
  lemma {:induction false} RunPrimeSplit(a: int, b: int, c: int)
    requires a <= b <= c
    ensures RunPrime(PrimeRange(a, c)) == RunPrime(PrimeRange(a, b)) + RunPrime(PrimeRange(b, c))
    decreases b - a
  {
    if a < b {
      RunPrimeSplit(a + 1, b, c);
      var head := if IsPrime(a) then [a] else [];
      var left, right := RunPrime(PrimeRange(a + 1, b)), RunPrime(PrimeRange(b, c));
      assert RunPrime(PrimeRange(a, c)) == head + (left + right);
      assert RunPrime(PrimeRange(a, b)) == head + left;
      assert head + (left + right) == (head + left) + right;
    }
  }

  /** Peeling the first number off a non-empty range. */
  lemma PrimesInStep(range: PrimeRange)
    requires range.first < range.last
    ensures |PrimesIn(range)| ==
            (if IsPrime(range.first) then 1 else 0) + |PrimesIn(PrimeRange(range.first + 1, range.last))|
  {
    var all, rest := PrimesIn(range), PrimesIn(PrimeRange(range.first + 1, range.last));
    var head: set<int> := if IsPrime(range.first) then {range.first} else {};
    assert all == head + rest;
    assert head !! rest;
  }

  /** On a range of positive numbers, which is every range the benchmark
      builds, the numbers `IsPrime` accepts are exactly the textbook primes. */
  lemma PrimesInArePrimes(range: PrimeRange)
    requires range.first >= 1
    ensures PrimesIn(range) == set x | range.first <= x < range.last && Prime(x)
  {
    forall x | range.first <= x < range.last
      ensures IsPrime(x) <==> Prime(x)
    {
      IsPrimeMeansPrime(x);
    }
  }

  /** The number of values a scan reports is the number of primes in its range. */
  lemma {:induction false} RunPrimeCount(range: PrimeRange)
    ensures |RunPrime(range)| == |PrimesIn(range)|
    decreases range.last - range.first
  {
    if range.first >= range.last {
      assert PrimesIn(range) == {};
    } else {
      RunPrimeCount(PrimeRange(range.first + 1, range.last));
      PrimesInStep(range);
    }
  }
}

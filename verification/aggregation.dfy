/** How one threaded run gathers its workers' results into `primeNumbers`.
    Each worker's completion callback appends its whole result; the order in
    which callbacks fire is not specified, so the model takes it as a parameter. */
module Aggregation {
  import opened PrimeScan
  import opened Partitioning

  /** What the workers return, one `RunPrime` result per range, in worker order. */
  function WorkerResults(ranges: seq<PrimeRange>): seq<seq<int>> {
    seq(|ranges|, i requires 0 <= i < |ranges| => RunPrime(ranges[i]))
  }

  /** The worker indices `0..n-1` in order. */
  function Indices(n: nat): seq<nat> {
    seq(n, i => i)
  }

  /** Every entry of `order` names one of `n` workers. */
  predicate IndicesBelow(order: seq<nat>, n: nat) {
    forall k :: 0 <= k < |order| ==> order[k] < n
  }

  /** `order` lists the worker indices `0..n-1` in the order their completion
      callbacks fire: every worker completes exactly once. */
  predicate IsCompletionOrder(order: seq<nat>, n: nat) {
    && IndicesBelow(order, n)
    && multiset(order) == multiset(Indices(n))
  }

  /** The `primeNumbers` list after the callbacks listed in `order` have each
      appended (`AddRange`) their worker's result. */
  function Accumulate(results: seq<seq<int>>, order: seq<nat>): seq<int>
    requires IndicesBelow(order, |results|)
  {
    if |order| == 0 then []
    else Accumulate(results, order[..|order| - 1]) + results[order[|order| - 1]]
  }

  /** The multiset union of all worker results: what `primeNumbers` holds once
      every worker has completed, whatever the completion order. */
  function Collected(results: seq<seq<int>>): multiset<int> {
    if |results| == 0 then multiset{}
    else Collected(results[..|results| - 1]) + multiset(results[|results| - 1])
  }

  /** Appending the callbacks of `x` and then those of `y` is one accumulation. */
  lemma {:induction false} AccumulateAppend(results: seq<seq<int>>, x: seq<nat>, y: seq<nat>)
    requires IndicesBelow(x, |results|)
    requires IndicesBelow(y, |results|)
    ensures IndicesBelow(x + y, |results|)
    ensures Accumulate(results, x + y) == Accumulate(results, x) + Accumulate(results, y)
    decreases |y|
  {
    if |y| > 0 {
      var y' := y[..|y| - 1];
      assert (x + y)[..|x + y| - 1] == x + y';
      assert (x + y)[|x + y| - 1] == y[|y| - 1];
      AccumulateAppend(results, x, y');
      assert Accumulate(results, x + y)
          == Accumulate(results, x + y') + results[y[|y| - 1]];
    } else {
      assert x + y == x;
    }
  }

  /** Removing the last entry of `o1` and one equal entry of `o2` keeps the
      two orders permutations of each other. */
  lemma RemoveMatching(o1: seq<nat>, o2: seq<nat>, p: int)
    requires multiset(o1) == multiset(o2)
    requires |o1| > 0 && 0 <= p < |o2| && o2[p] == o1[|o1| - 1]
    ensures multiset(o1[..|o1| - 1]) == multiset(o2[..p] + o2[p + 1..])
  {
    var j := o2[p];
    assert o1 == o1[..|o1| - 1] + [j];
    assert o2 == o2[..p] + [j] + o2[p + 1..];
    assert multiset(o1[..|o1| - 1]) == multiset(o1) - multiset{j};
    assert multiset(o2[..p] + o2[p + 1..]) == multiset(o2) - multiset{j};
  }

  /** The callback at position `p` contributes its result once, wherever it fires. */
  lemma AccumulateWithout(results: seq<seq<int>>, o: seq<nat>, p: int)
    requires IndicesBelow(o, |results|)
    requires 0 <= p < |o|
    ensures IndicesBelow(o[..p] + o[p + 1..], |results|)
    ensures multiset(Accumulate(results, o))
         == multiset(Accumulate(results, o[..p] + o[p + 1..])) + multiset(results[o[p]])
  {
    var before, after := o[..p], o[p + 1..];
    assert o == (before + [o[p]]) + after;
    AccumulateAppend(results, before, after);
    AccumulateAppend(results, before + [o[p]], after);
    AccumulateAppend(results, before, [o[p]]);
    assert Accumulate(results, [o[p]]) == Accumulate(results, []) + results[o[p]];
  }

  /** Two completion orders that fire the same callbacks, each as often,
      leave the same numbers in the accumulator. */
  lemma {:induction false} AccumulateReorder(results: seq<seq<int>>, o1: seq<nat>, o2: seq<nat>)
    requires IndicesBelow(o1, |results|)
    requires IndicesBelow(o2, |results|)
    requires multiset(o1) == multiset(o2)
    ensures multiset(Accumulate(results, o1)) == multiset(Accumulate(results, o2))
    decreases |o1|
  {
    if |o1| > 0 {
      var j := o1[|o1| - 1];
      assert j in multiset(o2);
      var p :| 0 <= p < |o2| && o2[p] == j;
      RemoveMatching(o1, o2, p);
      AccumulateWithout(results, o2, p);
      AccumulateReorder(results, o1[..|o1| - 1], o2[..p] + o2[p + 1..]);
    }
  }

  /** Firing the callbacks in worker order accumulates `Collected` of the first `n` workers. */
  lemma {:induction false} AccumulateInWorkerOrder(results: seq<seq<int>>, n: nat)
    requires n <= |results|
    ensures IndicesBelow(Indices(n), |results|)
    ensures multiset(Accumulate(results, Indices(n))) == Collected(results[..n])
  {
    if n > 0 {
      AccumulateInWorkerOrder(results, n - 1);
      assert Indices(n)[..n - 1] == Indices(n - 1);
      assert results[..n][..n - 1] == results[..n - 1];
    }
  }

  /** Whatever order the completion callbacks fire in, `primeNumbers` ends up
      holding the multiset union of the worker results, and so its `Count`
      is the total size of those results. */
  lemma AccumulateAnyOrder(results: seq<seq<int>>, order: seq<nat>)
    requires IsCompletionOrder(order, |results|)
    ensures multiset(Accumulate(results, order)) == Collected(results)
    ensures |Accumulate(results, order)| == |Collected(results)|
  {
    AccumulateInWorkerOrder(results, |results|);
    assert results[..|results|] == results;
    AccumulateReorder(results, order, Indices(|results|));
  }

  /** Workers whose ranges tile `[a, b)` together collect exactly the primes a
      single scan of `[a, b)` finds. */
  lemma {:induction false} CollectedTiling(ranges: seq<PrimeRange>, a: int, b: int)
    requires Tiles(ranges, a, b)
    ensures Collected(WorkerResults(ranges)) == multiset(RunPrime(PrimeRange(a, b)))
    decreases |ranges|
  {
    var n := |ranges|;
    if n > 0 {
      var mid := ranges[n - 1].first;
      var front := ranges[..n - 1];
      assert Tiles(front, a, mid);
      TilesBounds(ranges, a, b);
      CollectedTiling(front, a, mid);
      assert WorkerResults(ranges)[..n - 1] == WorkerResults(front);
      RunPrimeSplit(a, mid, b);
    }
  }
}

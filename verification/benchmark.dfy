/** The benchmark runs and the campaign that chains them (`Main.Start`,
    `RunBenchmarkOnMainThread`, `BenchmarkPrimes`). Timing, console output and
    thread plumbing are left out; a run is reduced to the statistics it reports. */
module Benchmark {
  import opened Primality
  import opened PrimeScan
  import opened Partitioning
  import opened Aggregation

  /** `Main.NumberOfThreadsPerTest`: the worker count of each threaded run, in order. */
  const NumberOfThreadsPerTest: seq<int> := [1, 2, 4, 6, 8, 12, 16]

  /** Who ran a benchmark: the "Threads:" field of a report line. */
  datatype Runner = MainThread | Threads(count: int)

  /** What one run reports: the range bound, who ran it and the number of primes found. */
  datatype RunStatistics = RunStatistics(maxNumber: int, runner: Runner, primeCount: nat)

  /** `RunBenchmarkOnMainThread`: one scan of `1..MaxNumber` on the calling
      thread, reporting how many primes it found (see `BaselineCount`). */
  function RunBenchmarkOnMainThread(maxNumber: int): RunStatistics {
    RunStatistics(maxNumber, MainThread, |RunPrime(PrimeRange(1, maxNumber + 1))|)
  }

  /** The count one threaded run reports when its workers scan `ranges`: the
      size of the multiset union of their results (see `AccumulateAnyOrder`
      for why completion order does not matter). */
  function CountOver(ranges: seq<PrimeRange>): nat {
    |Collected(WorkerResults(ranges))|
  }

  /** One threaded run of `BenchmarkPrimes`, as written (see `ThreadedCount`). */
  function ThreadedRun(maxNumber: int, threads: int): RunStatistics
    requires maxNumber >= 0 && threads != 0
  {
    RunStatistics(maxNumber, Threads(threads), CountOver(Partition(maxNumber, threads)))
  }

  /** A threaded run with the corrected partition (see `CorrectedCount`). */
  function CorrectedThreadedRun(maxNumber: int, threads: int): RunStatistics
    requires maxNumber >= 0 && threads != 0
  {
    RunStatistics(maxNumber, Threads(threads), CountOver(PartitionCovering(maxNumber, threads)))
  }

  /** Workers tiling `[a, b)` report as many primes as `[a, b)` holds. */
  lemma CountOverTiling(ranges: seq<PrimeRange>, a: int, b: int)
    requires Tiles(ranges, a, b)
    ensures CountOver(ranges) == |PrimesIn(PrimeRange(a, b))|
  {
    CollectedTiling(ranges, a, b);
    RunPrimeCount(PrimeRange(a, b));
  }

  /** The baseline run reports the number of primes in `1..MaxNumber`. */
  lemma BaselineCount(maxNumber: int)
    ensures RunBenchmarkOnMainThread(maxNumber).runner == MainThread
    ensures RunBenchmarkOnMainThread(maxNumber).primeCount == |PrimesIn(PrimeRange(1, maxNumber + 1))|
  {
    RunPrimeCount(PrimeRange(1, maxNumber + 1));
  }

  /** A threaded run as written reports the primes of
      `1..MaxNumber - MaxNumber % threads`, the part of the range its workers
      actually scan; with a negative count no worker is spawned. */
  lemma ThreadedCount(maxNumber: int, threads: int)
    requires maxNumber >= 0 && threads != 0
    ensures ThreadedRun(maxNumber, threads).runner == Threads(threads)
    ensures threads > 0 ==> ThreadedRun(maxNumber, threads).primeCount
                            == |PrimesIn(PrimeRange(1, maxNumber - maxNumber % threads + 1))|
    ensures threads < 0 ==> ThreadedRun(maxNumber, threads).primeCount == 0
  {
    if threads > 0 {
      CountOverTiling(Partition(maxNumber, threads), 1, maxNumber - maxNumber % threads + 1);
    }
  }

  /** With the corrected partition a threaded run reports the baseline's
      count for every positive worker count. */
  lemma CorrectedCount(maxNumber: int, threads: int)
    requires maxNumber >= 0 && threads >= 1
    ensures CorrectedThreadedRun(maxNumber, threads).runner == Threads(threads)
    ensures CorrectedThreadedRun(maxNumber, threads).primeCount
         == RunBenchmarkOnMainThread(maxNumber).primeCount
  {
    CountOverTiling(PartitionCovering(maxNumber, threads), 1, maxNumber + 1);
    BaselineCount(maxNumber);
  }

  /** The `Count` of `primeNumbers` is the count `ThreadedRun` reports, and its
      contents are those of one scan of the covered range, whatever order the
      completion callbacks append in. */
  lemma CountIndependentOfCompletionOrder(maxNumber: int, threads: int, order: seq<nat>)
    requires maxNumber >= 0 && threads >= 1
    requires IsCompletionOrder(order, threads)
    ensures IndicesBelow(order, |WorkerResults(Partition(maxNumber, threads))|)
    ensures multiset(Accumulate(WorkerResults(Partition(maxNumber, threads)), order))
         == multiset(RunPrime(PrimeRange(1, maxNumber - maxNumber % threads + 1)))
    ensures |Accumulate(WorkerResults(Partition(maxNumber, threads)), order)|
         == ThreadedRun(maxNumber, threads).primeCount
  {
    var results := WorkerResults(Partition(maxNumber, threads));
    AccumulateAnyOrder(results, order);
    CollectedTiling(Partition(maxNumber, threads), 1, maxNumber - maxNumber % threads + 1);
    assert ThreadedRun(maxNumber, threads).primeCount == |Collected(results)|;
  }

  /** The primes of `[a, c)` are those of `[a, b)` plus those of `[b, c)`. */
  lemma PrimesInSplit(a: int, b: int, c: int)
    requires a <= b <= c
    ensures |PrimesIn(PrimeRange(a, c))| == |PrimesIn(PrimeRange(a, b))| + |PrimesIn(PrimeRange(b, c))|
  {
    RunPrimeSplit(a, b, c);
    RunPrimeCount(PrimeRange(a, c));
    RunPrimeCount(PrimeRange(a, b));
    RunPrimeCount(PrimeRange(b, c));
  }

  /** A range holds no prime exactly when `IsPrime` rejects all its numbers. */
  lemma NoPrimesIn(a: int, b: int)
    ensures |PrimesIn(PrimeRange(a, b))| == 0 <==> forall x :: a <= x < b ==> !IsPrime(x)
  {
    var primes := PrimesIn(PrimeRange(a, b));
    if |primes| != 0 {
      var x :| x in primes;
    } else {
      forall x | a <= x < b
        ensures !IsPrime(x)
      {
        assert x !in primes;
      }
    }
  }

  /** A threaded run reports the baseline's count exactly when no number of the
      dropped tail `MaxNumber - MaxNumber % threads + 1 .. MaxNumber` is prime;
      otherwise it reports fewer, one fewer per prime in the tail. */
  lemma ThreadedMatchesBaselineIff(maxNumber: int, threads: int)
    requires maxNumber >= 0 && threads >= 1
    ensures ThreadedRun(maxNumber, threads).primeCount
            + |PrimesIn(PrimeRange(maxNumber - maxNumber % threads + 1, maxNumber + 1))|
         == RunBenchmarkOnMainThread(maxNumber).primeCount
    ensures ThreadedRun(maxNumber, threads).primeCount == RunBenchmarkOnMainThread(maxNumber).primeCount
        <==> forall x :: maxNumber - maxNumber % threads < x <= maxNumber ==> !IsPrime(x)
  {
    var cut := maxNumber - maxNumber % threads + 1;
    ThreadedCount(maxNumber, threads);
    BaselineCount(maxNumber);
    PrimesInSplit(1, cut, maxNumber + 1);
    NoPrimesIn(cut, maxNumber + 1);
  }

  /** When `MaxNumber` itself is prime and the worker count does not divide
      it, the threaded run misses that prime and reports fewer primes than the
      baseline. */
  lemma PrimeMaxNumberIsLost(maxNumber: int, threads: int)
    requires maxNumber >= 0 && threads >= 1
    requires maxNumber % threads != 0 && IsPrime(maxNumber)
    ensures ThreadedRun(maxNumber, threads).primeCount < RunBenchmarkOnMainThread(maxNumber).primeCount
  {
    ThreadedMatchesBaselineIff(maxNumber, threads);
    assert maxNumber in PrimesIn(PrimeRange(maxNumber - maxNumber % threads + 1, maxNumber + 1));
  }

  /** Small witness of the dropped remainder: with `MaxNumber = 7` and two
      workers, the workers scan `1..6` only and miss the prime 7. */
  lemma TwoWorkersMissSeven()
    ensures ThreadedRun(7, 2).primeCount < RunBenchmarkOnMainThread(7).primeCount
  {
    PrimeMaxNumberIsLost(7, 2);
  }

  /** A number with a divisor in `[2, n-1]` is rejected by `IsPrime`. */
  lemma Composite(n: int, d: int)
    requires 2 <= d < n && Divides(d, n)
    ensures !IsPrime(n)
  {
    IsPrimeMeansPrime(n);
  }

  /** The four numbers above `MaxNumber - 4` are all composite. */
  lemma ConfiguredTailComposite()
    ensures forall x :: MaxNumber - 4 < x <= MaxNumber ==> !IsPrime(x)
  {
    Composite(9999997, 7);
    Composite(9999998, 2);
    Composite(9999999, 3);
    Composite(10000000, 2);
  }

  /** Of the configured worker counts only 6 and 12 leave a remainder, 4 in both cases. */
  lemma ConfiguredRemainders()
    ensures forall t :: t in NumberOfThreadsPerTest ==> t >= 1
    ensures forall t :: t in NumberOfThreadsPerTest ==>
              (MaxNumber % t != 0 <==> t == 6 || t == 12)
    ensures forall t :: t in NumberOfThreadsPerTest && MaxNumber % t != 0 ==> MaxNumber % t == 4
  {
  }

  /** With the configured constants only the 6- and 12-worker runs drop a
      remainder (the numbers 9999997..10000000), and none of those is prime,
      so every configured run reports the baseline's count. */
  lemma ConfiguredRunMatchesBaseline(threads: int)
    requires threads in NumberOfThreadsPerTest
    ensures threads >= 1
    ensures ThreadedRun(MaxNumber, threads).primeCount == RunBenchmarkOnMainThread(MaxNumber).primeCount
  {
    ConfiguredRemainders();
    ConfiguredTailComposite();
    ThreadedMatchesBaselineIff(MaxNumber, threads);
  }

  /** The campaign's state: the worker counts still queued
      (`NumberOfThreadsPerTest`), the runs reported so far, and whether
      "Complete." has been printed. */
  datatype Campaign = Campaign(queue: seq<int>, reports: seq<RunStatistics>, complete: bool)

  /** Who ran each of a sequence of reports. */
  function Runners(reports: seq<RunStatistics>): seq<Runner> {
    seq(|reports|, k requires 0 <= k < |reports| => reports[k].runner)
  }

  /** The runners the queued worker counts will be reported under. */
  function Pending(queue: seq<int>): seq<Runner> {
    seq(|queue|, k requires 0 <= k < |queue| => Threads(queue[k]))
  }

  /** Worker counts the division in `BenchmarkPrimes` accepts. */
  predicate NonZero(queue: seq<int>) {
    forall k :: 0 <= k < |queue| ==> queue[k] != 0
  }

  /** One `BenchmarkPrimes` call: it takes the front worker count off the
      queue, runs with it, and reports; the run moves from the queue to the
      reports and nothing else changes. "Complete." is reached exactly when the
      queue has run dry. `Main.BenchmarkPrimes` reads index 0 unchecked, so the queue must
      not be empty. */
  function BenchmarkPrimes(maxNumber: int, c: Campaign): (next: Campaign)
    requires maxNumber >= 0 && |c.queue| > 0 && c.queue[0] != 0
    ensures next.queue == c.queue[1..]
    ensures Runners(next.reports) + Pending(next.queue) == Runners(c.reports) + Pending(c.queue)
    ensures |next.reports| == |c.reports| + 1 && next.reports[..|c.reports|] == c.reports
    ensures next.reports[|c.reports|] == ThreadedRun(maxNumber, c.queue[0])
    ensures next.complete <==> next.queue == []
  {
    var threads := c.queue[0];
    var next := Campaign(c.queue[1..], c.reports + [ThreadedRun(maxNumber, threads)], |c.queue| == 1);
    assert Runners(next.reports) == Runners(c.reports) + [Threads(threads)];
    assert Pending(c.queue) == [Threads(threads)] + Pending(next.queue);
    next
  }

  /** `BenchmarkPrimes` calling itself while `NumberOfThreadsPerTest.Count > 0`:
      every queued worker count is run once, front to back, and the campaign
      ends complete with an empty queue. */
  function RunToCompletion(maxNumber: int, c: Campaign): (done: Campaign)
    requires maxNumber >= 0 && |c.queue| > 0 && NonZero(c.queue)
    ensures done.complete && done.queue == []
    ensures Runners(done.reports) == Runners(c.reports) + Pending(c.queue)
    ensures |done.reports| == |c.reports| + |c.queue| && done.reports[..|c.reports|] == c.reports
    ensures forall k :: 0 <= k < |c.queue| ==>
              done.reports[|c.reports| + k] == ThreadedRun(maxNumber, c.queue[k])
    decreases |c.queue|
  {
    var next := BenchmarkPrimes(maxNumber, c);
    if |next.queue| > 0 then
      RunToCompletion(maxNumber, next)
    else
      next
  }

  /** `Main.Start`: the baseline run on the main thread comes first and
      happens once; then the queued threaded runs follow in order, and the
      campaign ends complete. */
  function Start(maxNumber: int, queue: seq<int>): (done: Campaign)
    requires maxNumber >= 0 && |queue| > 0 && NonZero(queue)
    ensures done.complete && done.queue == []
    ensures |done.reports| == |queue| + 1
    ensures done.reports[0] == RunBenchmarkOnMainThread(maxNumber)
    ensures forall k :: 1 <= k < |done.reports| ==> done.reports[k].runner != MainThread
    ensures Runners(done.reports) == [MainThread] + Pending(queue)
    ensures forall k :: 0 <= k < |queue| ==> done.reports[k + 1] == ThreadedRun(maxNumber, queue[k])
  {
    var done := RunToCompletion(maxNumber, Campaign(queue, [RunBenchmarkOnMainThread(maxNumber)], false));
    assert Runners([RunBenchmarkOnMainThread(maxNumber)]) == [MainThread];
    forall k | 1 <= k < |done.reports|
      ensures done.reports[k].runner != MainThread
    {
      assert Runners(done.reports)[k] == Pending(queue)[k - 1];
    }
    done
  }

  /** When every queued worker count reports the baseline's count, so does
      every run of the campaign. */
  lemma CampaignCountsMatch(maxNumber: int, queue: seq<int>)
    requires maxNumber >= 0 && |queue| > 0 && NonZero(queue)
    requires forall t :: t in queue ==>
               ThreadedRun(maxNumber, t).primeCount == RunBenchmarkOnMainThread(maxNumber).primeCount
    ensures forall k :: 0 <= k < |Start(maxNumber, queue).reports| ==>
              Start(maxNumber, queue).reports[k].primeCount
              == RunBenchmarkOnMainThread(maxNumber).primeCount
  {
    var done := Start(maxNumber, queue);
    forall k | 0 <= k < |done.reports|
      ensures done.reports[k].primeCount == RunBenchmarkOnMainThread(maxNumber).primeCount
    {
      if k > 0 {
        assert done.reports[(k - 1) + 1] == ThreadedRun(maxNumber, queue[k - 1]);
        assert queue[k - 1] in queue;
      }
    }
  }

  /** The configured campaign: the baseline, then exactly seven threaded runs
      with 1, 2, 4, 6, 8, 12 and 16 workers in that order, then "Complete.".
      The order does not depend on `MaxNumber`. */
  lemma ConfiguredCampaignOrder(maxNumber: int, queue: seq<int>)
    requires maxNumber >= 0 && queue == NumberOfThreadsPerTest
    ensures NonZero(queue)
    ensures Runners(Start(maxNumber, queue).reports)
         == [MainThread, Threads(1), Threads(2), Threads(4), Threads(6), Threads(8), Threads(12), Threads(16)]
    ensures Start(maxNumber, queue).complete
  {
    assert |Pending(queue)| == 7;
  }

  /** In the configured campaign every run reports the baseline's count. */
  lemma ConfiguredCampaignCounts(queue: seq<int>)
    requires queue == NumberOfThreadsPerTest
    ensures NonZero(queue)
    ensures forall k :: 0 <= k < |Start(MaxNumber, queue).reports| ==>
              Start(MaxNumber, queue).reports[k].primeCount
              == RunBenchmarkOnMainThread(MaxNumber).primeCount
  {
    forall t | t in queue
      ensures ThreadedRun(MaxNumber, t).primeCount == RunBenchmarkOnMainThread(MaxNumber).primeCount
    {
      ConfiguredRunMatchesBaseline(t);
    }
    CampaignCountsMatch(MaxNumber, queue);
  }
}

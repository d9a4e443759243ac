# Threading prime benchmark — a Dafny model

The Bridge.NET `Threading` sample counts the primes in `1..MaxNumber`
(`MaxNumber = 10000000`) several times. It first runs a baseline scan on the
main thread. Then it runs one threaded scan for each worker count in
`NumberOfThreadsPerTest = {1, 2, 4, 6, 8, 12, 16}`, consumed front to back.
A threaded run with `n` workers gives worker `i` the range
`[i*c + 1, i*c + c + 1)` with `c = MaxNumber / n`. Each worker scans its range
with trial division (`IsPrime`). Each completion callback appends the worker's
primes to a shared list. The run reports the size of that list.

The model is split into five modules:

- `Primality`: `IsPrime`, and the proof that it agrees with textbook
  primality.
- `PrimeScan`: `PrimeRange` and `RunPrime` (one worker's scan), its members,
  its order, its count, and how it splits.
- `Partitioning`: the worker ranges of one run as written (`Partition`), and
  exactly which numbers they cover. It also has the corrected covering
  partition and the 32-bit bound facts.
- `Aggregation`: the shared `primeNumbers` list built by the completion
  callbacks in any order, as a multiset union.
- `Benchmark`: the baseline and threaded runs as the statistics they report,
  their prime counts, one `BenchmarkPrimes` step of the campaign queue, the
  whole campaign (`Start`), and the facts about the configured constants.

The main result is exact partition coverage. A run with `n` workers tests
exactly `1..MaxNumber - MaxNumber % n`, and each of those numbers is tested by
one worker. So the last `MaxNumber % n` numbers go untested. A run therefore
matches the baseline exactly when none of those numbers is prime. At the
configured constants only `n = 6` and `n = 12` leave a remainder: the numbers
9999997..10000000. None of them is prime, so every configured run reports
the baseline's count.

## Model

| member | source | states |
|---|---|---|
| Primality.IsPrimeMeansPrime | Main.cs:34-47 | For every `n >= 1`, `IsPrime(n)` holds exactly when `n` is prime in the textbook sense: 1 is rejected and 2 accepted. For `n <= 0` the loop never runs and the answer is `true`. |
| Primality.NoDivisorFrom | Main.cs:39-46 | Trial division from candidate `i` succeeds exactly when no `d >= i` with `d*d <= n` divides `n`. `d*d <= n` is the integer form of `d <= floor(sqrt(n))`. |
| Primality.NoSmallDivisorIffPrime | Main.cs:39-46 | For `n >= 3`, stopping trial division at the square root decides primality correctly. |
| Primality.SmallDivisor | Main.cs:39-44 | A number with a divisor in `[2, n-1]` has a divisor whose square is at most `n`. This is why the loop bound is sound. |
| PrimeScan.RunPrime | Main.cs:50-67 | The scan's result is strictly ascending and lies inside `[First, Last)`. An empty or inverted range yields nothing. |
| PrimeScan.RunPrimeMembers | Main.cs:57-63 | A number is in the scan's result exactly when it lies in the range and `IsPrime` accepts it. |
| PrimeScan.RunPrimeUnique | Main.cs:50-67 | Any strictly ascending sequence holding exactly the accepted numbers of the range equals the scan's result. |
| PrimeScan.RunPrimeSplit | Main.cs:57-63 | Scanning `[a, c)` gives the scan of `[a, b)` followed by the scan of `[b, c)`. |
| PrimeScan.RunPrimeCount | Main.cs:57-66 | The length of the returned array is the number of numbers in the range that `IsPrime` accepts. |
| PrimeScan.PrimesInArePrimes | Main.cs:34-66 | On a range of positive numbers, the numbers `IsPrime` accepts are exactly the textbook primes. So every count the benchmark reports, whose ranges all start at 1 or above, is a count of primes. |
| Partitioning.Partition | Main.cs:98-110 | `n > 0` workers get `n` ranges, each of `MaxNumber / n` numbers. The ranges lie end to end from 1 to `MaxNumber - MaxNumber % n + 1`. A negative count spawns no worker. |
| Partitioning.TilesCover | Main.cs:103-110 | Ranges lying end to end from `a` to `b` together contain exactly the numbers of `[a, b)`. |
| Partitioning.TilesDisjoint | Main.cs:103-110 | No number lies in two of those ranges. |
| Partitioning.PartitionCoverage | Main.cs:98-110 | The workers of a run test exactly `1..MaxNumber - MaxNumber % n`, and each such number is tested by exactly one worker. |
| Partitioning.PartitionCoversAllIff | Main.cs:98-110 | The workers cover all of `1..MaxNumber` exactly when `n` divides `MaxNumber`. The untested numbers are exactly the top `MaxNumber % n`. |
| Partitioning.PartitionCovering | Main.cs:103-110 | Corrected partition: the same first `n - 1` ranges, with the ranges lying end to end from 1 to `MaxNumber + 1`. |
| Partitioning.PartitionCoveringExact | Main.cs:103-110 | The corrected partition covers all of `1..MaxNumber`, each number by exactly one worker. |
| Partitioning.PartitionFitsInt32 | Main.cs:106-110 | For any `MaxNumber` below `int.MaxValue`, every product and bound the loop computes stays within `0..MaxNumber + 1`. So the 32-bit arithmetic never wraps. |
| Aggregation.AccumulateReorder | Main.cs:129-135 | Two callback orders that fire the same callbacks leave the same multiset of numbers in `primeNumbers`. |
| Aggregation.AccumulateAnyOrder | Main.cs:129-135 | In any completion order where each worker completes once, `primeNumbers` ends up holding the multiset union of all worker results. Its `Count` is the size of that union. |
| Aggregation.CollectedTiling | Main.cs:103-135 | Workers whose ranges lie end to end over `[a, b)` collect exactly the numbers one scan of `[a, b)` returns. |
| Benchmark.BaselineCount | Main.cs:185-202 | The baseline reports the main thread as runner and, as count, the number of numbers in `1..MaxNumber` that `IsPrime` accepts (the primes there, by `PrimeScan.PrimesInArePrimes`). |
| Benchmark.ThreadedCount | Main.cs:96-152 | A threaded run reports its worker count as runner. Its count is the number of numbers in `1..MaxNumber - MaxNumber % n` that `IsPrime` accepts (the primes there, by `PrimeScan.PrimesInArePrimes`), or 0 for a negative worker count. |
| Benchmark.CountIndependentOfCompletionOrder | Main.cs:129-152 | In every completion order, `primeNumbers` holds the multiset of one scan of the covered range, and its `Count` is the count the run reports. |
| Benchmark.ThreadedMatchesBaselineIff | Main.cs:96-202 | The threaded count plus the number of primes in the dropped tail equals the baseline count. The two counts agree exactly when no number of the tail is prime. |
| Benchmark.PrimeMaxNumberIsLost | Main.cs:98-110 | If `MaxNumber` is prime and `n` does not divide it, the threaded run reports fewer primes than the baseline. |
| Benchmark.TwoWorkersMissSeven | Main.cs:98-110 | With `MaxNumber = 7` and two workers, the threaded run reports fewer primes than the baseline. |
| Benchmark.CorrectedCount | Main.cs:103-110 | With the corrected partition, every positive worker count reports the baseline's count. |
| Benchmark.ConfiguredRemainders | Main.cs:14-20 | Of the configured worker counts, only 6 and 12 leave a remainder of `MaxNumber`, and that remainder is 4. |
| Benchmark.ConfiguredTailComposite | Main.cs:14 | None of 9999997..10000000 is accepted by `IsPrime`. |
| Benchmark.ConfiguredRunMatchesBaseline | Main.cs:14-20 | Every configured threaded run reports the baseline's count. |
| Benchmark.BenchmarkPrimes | Main.cs:83-181 | One step removes exactly the front worker count from the queue, leaving the rest in order, and appends its run's report. The sequence of runners reported plus those still queued is unchanged. "Complete." is reached exactly when the queue is empty. |
| Benchmark.RunToCompletion | Main.cs:175-181 | Re-entering while the queue is non-empty runs every queued count once, front to back, and the campaign ends complete with an empty queue. |
| Benchmark.Start | Main.cs:226-237 | The baseline comes first and runs exactly once. Then report `k + 1` is the threaded run with the `k`-th queued count, in queue order, and the campaign ends complete. |
| Benchmark.CampaignCountsMatch | Main.cs:171-181 | If every queued worker count reports the baseline's count, every report of the campaign does. |
| Benchmark.ConfiguredCampaignOrder | Main.cs:20 | The configured campaign reports the main thread, then 1, 2, 4, 6, 8, 12 and 16 workers, in that order, and completes. |
| Benchmark.ConfiguredCampaignCounts | Main.cs:14-20 | Every report of the configured campaign carries the baseline's prime count. |

## Left out

- Thread creation, `Start`, `Dispose` and the worker JavaScript file (Main.cs:113-139, 149) are host plumbing. A worker is modelled as `RunPrime` applied to its range.
- `JoinAll` (Main.cs:71-80) polls every 10 ms until no thread is alive. It is modelled as the run completing once every completion callback has fired, in an order given as a parameter.
- `DateTime.Now` timing and the elapsed time in each report are left out. They come from the clock. A report keeps `MaxNumber`, the runner and the prime count.
- `Console.WriteLine` output is left out. Its content is the report data above plus the "Complete." flag of the campaign.
- The 500 ms `Window.SetTimeout` before the campaign starts (Main.cs:228-236) is left out. It only delays the run.
- The `PrintFirst1000Primes` branches (Main.cs:154-168, 204-218) are left out. The constant is `false`, so they never run.
- `Math.Floor(Math.Sqrt(number))` (Main.cs:39) is replaced by the integer condition `i * i <= number`. For a non-negative `i` it is equivalent, and it avoids floating point.
- `docs/Threading.js` is the generated JavaScript of `Main.cs`. It is not modelled separately. Its `| 0` truncations of the partition arithmetic (docs/Threading.js:81, 89) never change a value, by `Partitioning.PartitionFitsInt32`. The `| 0` on the loop increments (docs/Threading.js:33, 47, 86) adds 1 to a counter that is at most `boundary` (the square root of a 32-bit value, so at most 46340) or below `Last` or `numberOfThreads` (both 32-bit values), so it cannot wrap either; no lemma states this.
- Workers exchange nothing with the orchestrating thread except their range parameter and their returned array. There is no other message passing to model.
- Division by zero in `MaxNumber / numberOfThreads` throws in the C# code. The model states it as the precondition `threads != 0`.
- `BenchmarkPrimes` on an empty queue reads index 0 and throws in the C# code. The model states it as the precondition that the queue is non-empty. The campaign never reaches that state, because it stops re-entering once the queue is empty.
- The program means to test all of `1..MaxNumber`: the comment on `MaxNumber` (Main.cs:13) names the whole range, and the baseline scans `1..MaxNumber` (Main.cs:192-196). The threaded partition does not: the last `MaxNumber % n` numbers are never tested. The model follows the code (`Partitioning.Partition`) and models the folding as the corrected `Partitioning.PartitionCovering`.
- The prime count of the configured `MaxNumber` is not computed as a number. The model proves that every configured run equals the baseline count, not the value of that count.

## Findings

| source | as written | input that shows it | evidently intended | confidence | as-written member | corrected member |
|---|---|---|---|---|---|---|
| Main.cs:98-110 | each of `n` workers gets `MaxNumber / n` numbers starting at 1, so the last `MaxNumber % n` numbers are never tested | `MaxNumber = 7`, two workers: the ranges are `[1, 4)` and `[4, 7)`, so the prime 7 is missed and the run reports 3 primes against the baseline's 4 | the last worker's range ends at `MaxNumber + 1`, so every number in `1..MaxNumber` is tested | medium, not executed; at the configured constants the dropped numbers 9999997..10000000 are composite, so the reported counts are unaffected | Benchmark.TwoWorkersMissSeven | Benchmark.CorrectedCount |

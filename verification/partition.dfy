/** How `BenchmarkPrimes` splits the numbers `1..MaxNumber` among its workers. */
module Partitioning {
  import opened PrimeScan

  /** `Main.MaxNumber`: the benchmark tests the numbers `1..MaxNumber`. */
  const MaxNumber: int := 10000000

  /** Largest value of the C# 32-bit `int`. */
  const Int32Max: int := 0x7fff_ffff

  /** `ranges` lie end to end, in order, from `a` up to `b`: each starts
      where the previous one ends and none is inverted. */
  predicate Tiles(ranges: seq<PrimeRange>, a: int, b: int) {
    if |ranges| == 0 then a == b
    else
      && ranges[0].first == a
      && ranges[|ranges| - 1].last == b
      && (forall i :: 0 <= i < |ranges| ==> ranges[i].first <= ranges[i].last)
      && (forall i :: 0 <= i < |ranges| - 1 ==> ranges[i].last == ranges[i + 1].first)
  }

  /** `x` lies in `range`. */
  predicate InRange(range: PrimeRange, x: int) {
    range.first <= x < range.last
  }

  /** Some range of `ranges` contains `x`: some worker tests `x`. */
  ghost predicate Covers(ranges: seq<PrimeRange>, x: int) {
    exists i :: 0 <= i < |ranges| && InRange(ranges[i], x)
  }

  /** The range `BenchmarkPrimes` builds for worker `i` from `countPerThread`. */
  function WorkerRange(countPerThread: int, i: int): PrimeRange {
    PrimeRange(i * countPerThread + 1, i * countPerThread + countPerThread + 1)
  }

  /** The ranges of one `BenchmarkPrimes` run, as written: every worker gets
      `MaxNumber / threads` numbers, starting at 1. They tile `[1, c + 1)` where
      `c = MaxNumber - MaxNumber % threads`, so the last `MaxNumber % threads`
      numbers go to nobody. The division throws for 0 threads; for a negative
      count the spawning loop never runs. */
  function Partition(maxNumber: int, threads: int): (ranges: seq<PrimeRange>)
    requires maxNumber >= 0 && threads != 0
    ensures threads < 0 ==> ranges == []
    ensures threads > 0 ==> |ranges| == threads
    ensures threads > 0 ==> Tiles(ranges, 1, maxNumber - maxNumber % threads + 1)
    ensures forall i :: 0 <= i < |ranges| ==> ranges[i].last - ranges[i].first == maxNumber / threads
  {
    if threads < 0 then []
    else
      WorkerRangesTile(maxNumber, threads);
      seq(threads, i => WorkerRange(maxNumber / threads, i))
  }

  /** The partition as evidently intended: the same ranges, except that the
      last one is stretched to `MaxNumber + 1` so the remainder is tested too. */
  function PartitionCovering(maxNumber: int, threads: int): (ranges: seq<PrimeRange>)
    requires maxNumber >= 0 && threads != 0
    ensures threads < 0 ==> ranges == []
    ensures threads > 0 ==> |ranges| == threads && Tiles(ranges, 1, maxNumber + 1)
    ensures threads > 0 ==> ranges[..threads - 1] == Partition(maxNumber, threads)[..threads - 1]
  {
    var p := Partition(maxNumber, threads);
    if threads < 0 then p
    else
      assert p[threads - 1].first <= maxNumber - maxNumber % threads + 1;
      p[..threads - 1] + [PrimeRange(p[threads - 1].first, maxNumber + 1)]
  }

  /** Worker `i`'s range ends where worker `i + 1`'s begins. */
  lemma WorkerRangesAdjacent(c: int, i: int)
    ensures WorkerRange(c, i).last == WorkerRange(c, i + 1).first
  {
    assert (i + 1) * c == i * c + c;
  }

  /** The last worker's range ends just past `MaxNumber - MaxNumber % threads`. */
  lemma WorkerRangesEnd(maxNumber: int, threads: int)
    requires maxNumber >= 0 && threads >= 1
    ensures WorkerRange(maxNumber / threads, threads - 1).last == maxNumber - maxNumber % threads + 1
  {
    var c := maxNumber / threads;
    assert (threads - 1) * c + c == threads * c;
    assert maxNumber == threads * c + maxNumber % threads;
  }

  /** The ranges of workers `0..threads-1` tile `[1, MaxNumber - MaxNumber % threads + 1)`. */
  lemma WorkerRangesTile(maxNumber: int, threads: int)
    requires maxNumber >= 0 && threads >= 1
    ensures Tiles(seq(threads, i => WorkerRange(maxNumber / threads, i)), 1, maxNumber - maxNumber % threads + 1)
  {
    var c := maxNumber / threads;
    var ranges := seq(threads, i => WorkerRange(c, i));
    assert c >= 0;
    assert ranges[0].first == 1;
    WorkerRangesEnd(maxNumber, threads);
    assert ranges[threads - 1].last == maxNumber - maxNumber % threads + 1;
    forall i | 0 <= i < threads
      ensures ranges[i].first <= ranges[i].last
    {
    }
    forall i | 0 <= i < threads - 1
      ensures ranges[i].last == ranges[i + 1].first
    {
      WorkerRangesAdjacent(c, i);
    }
  }

  lemma {:induction false} TilesBounds(ranges: seq<PrimeRange>, a: int, b: int)
    requires Tiles(ranges, a, b)
    ensures a <= b
    ensures forall i :: 0 <= i < |ranges| ==> a <= ranges[i].first && ranges[i].last <= b
    decreases |ranges|
  {
    if |ranges| > 0 {
      TilesOrdered(ranges, a, b);
      if |ranges| > 1 {
        assert ranges[0].last <= ranges[|ranges| - 1].first;
      }
    }
  }

  /** Earlier ranges end no later than later ranges begin. */
  lemma {:induction false} TilesOrdered(ranges: seq<PrimeRange>, a: int, b: int)
    requires Tiles(ranges, a, b)
    ensures forall i, j :: 0 <= i < j < |ranges| ==> ranges[i].last <= ranges[j].first
  {
    forall i, j | 0 <= i < j < |ranges|
      ensures ranges[i].last <= ranges[j].first
    {
      OrderedFrom(ranges, a, b, i, j);
    }
  }

  lemma {:induction false} OrderedFrom(ranges: seq<PrimeRange>, a: int, b: int, i: int, j: int)
    requires Tiles(ranges, a, b)
    requires 0 <= i < j < |ranges|
    ensures ranges[i].last <= ranges[j].first
    decreases j - i
  {
    if i + 1 < j {
      OrderedFrom(ranges, a, b, i + 1, j);
    }
  }

  /** Ranges that tile `[a, b)` cover exactly the numbers of `[a, b)`. */
  lemma {:induction false} TilesCover(ranges: seq<PrimeRange>, a: int, b: int, x: int)
    requires Tiles(ranges, a, b)
    ensures Covers(ranges, x) <==> a <= x < b
    decreases |ranges|
  {
    if |ranges| > 0 {
      var rest := ranges[1..];
      var mid := ranges[0].last;
      assert Tiles(rest, mid, b);
      TilesBounds(rest, mid, b);
      TilesCover(rest, mid, b, x);
      if Covers(ranges, x) {
        var i :| 0 <= i < |ranges| && InRange(ranges[i], x);
        if i > 0 {
          assert InRange(rest[i - 1], x);
        }
      }
      if mid <= x < b {
        var i :| 0 <= i < |rest| && InRange(rest[i], x);
        assert InRange(ranges[i + 1], x);
      }
      if a <= x < mid {
        assert InRange(ranges[0], x);
      }
    }
  }

  /** No number lies in two ranges of a tiling. */
  lemma TilesDisjoint(ranges: seq<PrimeRange>, a: int, b: int)
    requires Tiles(ranges, a, b)
    ensures forall x, i, j ::
              (0 <= i < |ranges| && 0 <= j < |ranges| && InRange(ranges[i], x) && InRange(ranges[j], x))
              ==> i == j
  {
    TilesOrdered(ranges, a, b);
  }

  /** The workers of an as-written run test exactly `1..MaxNumber - MaxNumber % threads`,
      each number by exactly one worker. */
  lemma PartitionCoverage(maxNumber: int, threads: int)
    requires maxNumber >= 0 && threads >= 1
    ensures forall x :: Covers(Partition(maxNumber, threads), x)
              <==> 1 <= x <= maxNumber - maxNumber % threads
    ensures forall x, i, j ::
              (&& 0 <= i < threads && 0 <= j < threads
               && InRange(Partition(maxNumber, threads)[i], x)
               && InRange(Partition(maxNumber, threads)[j], x))
              ==> i == j
  {
    var p := Partition(maxNumber, threads);
    forall x
      ensures Covers(p, x) <==> 1 <= x <= maxNumber - maxNumber % threads
    {
      TilesCover(p, 1, maxNumber - maxNumber % threads + 1, x);
    }
    TilesDisjoint(p, 1, maxNumber - maxNumber % threads + 1);
  }

  /** The as-written partition covers all of `1..MaxNumber` exactly when the
      thread count divides `MaxNumber`; otherwise precisely the numbers above
      `MaxNumber - MaxNumber % threads` go untested. */
  lemma PartitionCoversAllIff(maxNumber: int, threads: int)
    requires maxNumber >= 0 && threads >= 1
    ensures (forall x :: Covers(Partition(maxNumber, threads), x) <==> 1 <= x <= maxNumber)
              <==> maxNumber % threads == 0
    ensures forall x :: 1 <= x <= maxNumber && !Covers(Partition(maxNumber, threads), x)
              <==> maxNumber - maxNumber % threads < x <= maxNumber
  {
    PartitionCoverage(maxNumber, threads);
    if maxNumber % threads != 0 {
      assert !Covers(Partition(maxNumber, threads), maxNumber);
    }
  }

  /** The corrected partition covers all of `1..MaxNumber`, each number once. */
  lemma PartitionCoveringExact(maxNumber: int, threads: int)
    requires maxNumber >= 0 && threads >= 1
    ensures forall x :: Covers(PartitionCovering(maxNumber, threads), x) <==> 1 <= x <= maxNumber
    ensures forall x, i, j ::
              (&& 0 <= i < threads && 0 <= j < threads
               && InRange(PartitionCovering(maxNumber, threads)[i], x)
               && InRange(PartitionCovering(maxNumber, threads)[j], x))
              ==> i == j
  {
    var p := PartitionCovering(maxNumber, threads);
    forall x
      ensures Covers(p, x) <==> 1 <= x <= maxNumber
    {
      TilesCover(p, 1, maxNumber + 1, x);
    }
    TilesDisjoint(p, 1, maxNumber + 1);
  }

  /** Every bound `Main.BenchmarkPrimes` computes, `i * countPerThread + 1` and
      `i * countPerThread + countPerThread + 1`, stays within `1..MaxNumber + 1`,
      so its 32-bit arithmetic cannot wrap for any `MaxNumber`
      below `Int32Max`, the configured one included. */
  lemma PartitionFitsInt32(maxNumber: int, threads: int)
    requires 0 <= maxNumber < Int32Max && threads >= 1
    ensures forall i :: 0 <= i < threads ==>
              && 0 <= i * (maxNumber / threads)
              && 1 <= Partition(maxNumber, threads)[i].first
              && Partition(maxNumber, threads)[i].last <= maxNumber + 1 <= Int32Max
  {
    var p := Partition(maxNumber, threads);
    TilesBounds(p, 1, maxNumber - maxNumber % threads + 1);
    forall i | 0 <= i < threads
      ensures 0 <= i * (maxNumber / threads)
    {
      assert p[i].first == i * (maxNumber / threads) + 1;
    }
  }
}

/** Tiers, buckets and the fold that makes one coarser bucket out of finer ones (`ladder.rs`). */
module TierFold {
  import opened Prelude
  import opened Summaries

  datatype Tier = L1 | L2 | L3 | L4 {
    function ResolutionMs(): int {
      match this
      case L1 => 0
      case L2 => 60_000
      case L3 => 300_000
      case L4 => 3_600_000
    }
  }

  datatype Stat = Stat(avg: real, min: real, max: real)

  datatype TierBucket = TierBucket(
    bucketStartMs: int,
    firstCapturedAtMs: int,
    newestCapturedAtMs: int,
    sampleCount: int,
    cpu: Stat,
    memory: Stat,
    swap: Stat,
    load: Stat,
    rootUsed: Option<Stat>)
  {
    function Get(metric: Metric): Stat {
      match metric
      case Cpu => cpu
      case Memory => memory
      case Swap => swap
      case Load => load
    }
  }

  datatype RawSample = RawSample(
    capturedAtMs: int,
    cpu: real,
    memory: real,
    swap: real,
    load: real,
    rootUsed: Option<real>)
  {
    function Get(metric: Metric): real {
      match metric
      case Cpu => cpu
      case Memory => memory
      case Swap => swap
      case Load => load
    }
  }

  // ---------- The fold ----------

  function TotalCount(finer: seq<TierBucket>): int {
    if finer == [] then 0 else TotalCount(finer[..|finer| - 1]) + finer[|finer| - 1].sampleCount
  }

  function WeightedSum(finer: seq<TierBucket>, metric: Metric): real {
    if finer == [] then 0.0
    else
      var last := finer[|finer| - 1];
      WeightedSum(finer[..|finer| - 1], metric) + last.Get(metric).avg * (last.sampleCount as real)
  }

  function LeastStat(finer: seq<TierBucket>, metric: Metric): real
    requires finer != []
  {
    var last := finer[|finer| - 1];
    if |finer| == 1 then last.Get(metric).min
    else RealMin(LeastStat(finer[..|finer| - 1], metric), last.Get(metric).min)
  }

  function GreatestStat(finer: seq<TierBucket>, metric: Metric): real
    requires finer != []
  {
    var last := finer[|finer| - 1];
    if |finer| == 1 then last.Get(metric).max
    else RealMax(GreatestStat(finer[..|finer| - 1], metric), last.Get(metric).max)
  }

  function FoldStat(finer: seq<TierBucket>, metric: Metric): Stat
    requires finer != [] && TotalCount(finer) > 0
  {
    Stat(WeightedSum(finer, metric) / (TotalCount(finer) as real),
         LeastStat(finer, metric),
         GreatestStat(finer, metric))
  }

  function FirstCaptured(finer: seq<TierBucket>): int
    requires finer != []
  {
    var last := finer[|finer| - 1];
    if |finer| == 1 then last.firstCapturedAtMs
    else Min(FirstCaptured(finer[..|finer| - 1]), last.firstCapturedAtMs)
  }

  function NewestCaptured(finer: seq<TierBucket>): int
    requires finer != []
  {
    var last := finer[|finer| - 1];
    if |finer| == 1 then last.newestCapturedAtMs
    else Max(NewestCaptured(finer[..|finer| - 1]), last.newestCapturedAtMs)
  }

  /** Samples of the buckets that carry a root value: the weight of the root average. */
  function RootCount(finer: seq<TierBucket>): int {
    if finer == [] then 0
    else
      var last := finer[|finer| - 1];
      RootCount(finer[..|finer| - 1]) + (if last.rootUsed.Some? then last.sampleCount else 0)
  }

  function RootSum(finer: seq<TierBucket>): real {
    if finer == [] then 0.0
    else
      var last := finer[|finer| - 1];
      RootSum(finer[..|finer| - 1]) +
      (if last.rootUsed.Some? then last.rootUsed.value.avg * (last.sampleCount as real) else 0.0)
  }

  /** Least and greatest root value, where any bucket carries one. */
  function RootRange(finer: seq<TierBucket>): Option<Range> {
    if finer == [] then None
    else
      var last := finer[|finer| - 1];
      JoinRoot(RootRange(finer[..|finer| - 1]),
               if last.rootUsed.Some? then Some(Range(last.rootUsed.value.min, last.rootUsed.value.max)) else None)
  }

  lemma {:induction false} RootCountHasRange(finer: seq<TierBucket>)
    requires AllPositive(finer)
    ensures 0 <= RootCount(finer) <= TotalCount(finer)
    ensures RootCount(finer) > 0 <==> RootRange(finer).Some?
  {
    if finer != [] {
      RootCountHasRange(finer[..|finer| - 1]);
    }
  }

  lemma {:induction false} RootCountMeansRange(finer: seq<TierBucket>)
    requires RootCount(finer) != 0
    ensures RootRange(finer).Some?
  {
    if finer != [] {
      var last := finer[|finer| - 1];
      if last.rootUsed.None? {
        RootCountMeansRange(finer[..|finer| - 1]);
      }
    }
  }

  /** One bucket out of finer ones; `None` for no buckets or no samples. */
  function Fold(bucketStartMs: int, finer: seq<TierBucket>): Option<TierBucket> {
    if finer == [] || TotalCount(finer) <= 0 then None
    else
      var rootCount := RootCount(finer);
      var rootUsed :=
        if rootCount > 0 then
          RootCountMeansRange(finer);
          var range := RootRange(finer).value;
          Some(Stat(RootSum(finer) / (rootCount as real), range.min, range.max))
        else None;
      Some(TierBucket(bucketStartMs, FirstCaptured(finer), NewestCaptured(finer), TotalCount(finer),
                      FoldStat(finer, Cpu), FoldStat(finer, Memory), FoldStat(finer, Swap), FoldStat(finer, Load),
                      rootUsed))
  }

  function RawToBucket(sample: RawSample): TierBucket {
    var stat := (value: real) => Stat(value, value, value);
    TierBucket(sample.capturedAtMs, sample.capturedAtMs, sample.capturedAtMs, 1,
               stat(sample.cpu), stat(sample.memory), stat(sample.swap), stat(sample.load),
               if sample.rootUsed.Some? then Some(stat(sample.rootUsed.value)) else None)
  }

  predicate RawIsPartial(existingCount: int, rawCountNow: int) {
    existingCount > rawCountNow
  }

  // ---------- What a bucket stands for ----------

  predicate AllPositive(buckets: seq<TierBucket>) {
    forall b :: b in buckets ==> b.sampleCount > 0
  }

  function AggOf(b: TierBucket, metric: Metric): Agg {
    Agg(b.Get(metric).avg * (b.sampleCount as real), b.Get(metric).min, b.Get(metric).max)
  }

  function RootOf(b: TierBucket): Option<Range> {
    if b.rootUsed.Some? then Some(Range(b.rootUsed.value.min, b.rootUsed.value.max)) else None
  }

  /** The samples behind a bucket. The root average is left out: `Fold` weights it by whole buckets. */
  function SummaryOf(b: TierBucket): Summary {
    Of(b.sampleCount, b.firstCapturedAtMs, b.newestCapturedAtMs,
       AggOf(b, Cpu), AggOf(b, Memory), AggOf(b, Swap), AggOf(b, Load), RootOf(b))
  }

  function SampleSummary(s: RawSample): Summary {
    var agg := (v: real) => Agg(v, v, v);
    Of(1, s.capturedAtMs, s.capturedAtMs, agg(s.cpu), agg(s.memory), agg(s.swap), agg(s.load),
       if s.rootUsed.Some? then Some(Range(s.rootUsed.value, s.rootUsed.value)) else None)
  }

  function Total(buckets: seq<TierBucket>): Summary {
    if buckets == [] then Empty
    else Join(Total(buckets[..|buckets| - 1]), SummaryOf(buckets[|buckets| - 1]))
  }

  lemma {:induction false} TotalOfCounts(finer: seq<TierBucket>)
    requires finer != []
    ensures var t := Total(finer);
            && t.Of?
            && t.count == TotalCount(finer)
            && t.first == FirstCaptured(finer)
            && t.newest == NewestCaptured(finer)
            && t.root == RootRange(finer)
  {
    var init := finer[..|finer| - 1];
    if init == [] {
      assert Total(init) == Empty && RootRange(init) == None && TotalCount(init) == 0;
    } else {
      TotalOfCounts(init);
    }
  }

  lemma {:induction false} TotalOfMetric(finer: seq<TierBucket>, metric: Metric)
    requires finer != []
    ensures Total(finer).Of?
    ensures Total(finer).Get(metric) ==
            Agg(WeightedSum(finer, metric), LeastStat(finer, metric), GreatestStat(finer, metric))
  {
    hide Fold, TotalCount, JoinRoot, SummaryOf;
    var init, last := finer[..|finer| - 1], finer[|finer| - 1];
    SummaryMetric(last, metric);
    if init == [] {
      assert Total(init) == Empty && WeightedSum(init, metric) == 0.0;
    } else {
      TotalOfMetric(init, metric);
      JoinMetric(Total(init), SummaryOf(last), metric);
    }
  }

  lemma SummaryMetric(b: TierBucket, metric: Metric)
    ensures SummaryOf(b).Of? && SummaryOf(b).Get(metric) == AggOf(b, metric)
  {
  }

  lemma JoinMetric(a: Summary, b: Summary, metric: Metric)
    requires a.Of? && b.Of?
    ensures Join(a, b).Of? && Join(a, b).Get(metric) == JoinAgg(a.Get(metric), b.Get(metric))
  {
  }

  lemma {:induction false} PositiveTotal(finer: seq<TierBucket>)
    requires AllPositive(finer)
    ensures TotalCount(finer) >= |finer|
  {
    if finer != [] {
      PositiveTotal(finer[..|finer| - 1]);
    }
  }

  lemma DivideMultiply(x: real, n: int)
    requires n > 0
    ensures x / (n as real) * (n as real) == x
  {
  }

  /** Folding loses nothing but the root average: the bucket stands for the samples behind its parts. */
  lemma FoldKeepsSamples(start: int, finer: seq<TierBucket>)
    requires AllPositive(finer)
    ensures Fold(start, finer).Some? <==> finer != []
    ensures finer != [] ==>
      var b := Fold(start, finer).value;
      b.bucketStartMs == start && b.sampleCount > 0 && SummaryOf(b) == Total(finer)
  {
    hide Total, TotalCount, RootCount, RootRange, RootSum, FoldStat, FirstCaptured, NewestCaptured;
    PositiveTotal(finer);
    if finer != [] {
      TotalOfCounts(finer);
      RootCountHasRange(finer);
      var b := Fold(start, finer).value;
      FoldedMetric(finer, Cpu, b.cpu);
      FoldedMetric(finer, Memory, b.memory);
      FoldedMetric(finer, Swap, b.swap);
      FoldedMetric(finer, Load, b.load);
    }
  }

  lemma FoldedMetric(finer: seq<TierBucket>, metric: Metric, stat: Stat)
    requires finer != [] && TotalCount(finer) > 0
    requires stat == FoldStat(finer, metric)
    ensures Total(finer).Of?
    ensures Agg(stat.avg * (TotalCount(finer) as real), stat.min, stat.max) == Total(finer).Get(metric)
  {
    TotalOfMetric(finer, metric);
    DivideMultiply(WeightedSum(finer, metric), TotalCount(finer));
  }

  /** A raw row as a bucket stands for exactly that sample. */
  lemma RawToBucketKeepsSample(s: RawSample)
    ensures SummaryOf(RawToBucket(s)) == SampleSummary(s)
  {
    var b := RawToBucket(s);
    assert b.sampleCount as real == 1.0;
  }

  /** Reading the averages back: equal summaries mean equal counts, times, averages and extremes. */
  lemma SummaryDetermines(b: TierBucket, c: TierBucket)
    requires SummaryOf(b) == SummaryOf(c)
    requires b.sampleCount > 0
    ensures b.sampleCount == c.sampleCount
    ensures b.firstCapturedAtMs == c.firstCapturedAtMs && b.newestCapturedAtMs == c.newestCapturedAtMs
    ensures b.cpu == c.cpu && b.memory == c.memory && b.swap == c.swap && b.load == c.load
    ensures b.rootUsed.Some? <==> c.rootUsed.Some?
    ensures b.rootUsed.Some? ==> b.rootUsed.value.min == c.rootUsed.value.min && b.rootUsed.value.max == c.rootUsed.value.max
  {
    SameAverage(b.cpu, c.cpu, b.sampleCount);
    SameAverage(b.memory, c.memory, b.sampleCount);
    SameAverage(b.swap, c.swap, b.sampleCount);
    SameAverage(b.load, c.load, b.sampleCount);
    assert RootOf(b) == RootOf(c);
  }

  lemma SameAverage(a: Stat, b: Stat, n: int)
    requires n > 0 && a.avg * (n as real) == b.avg * (n as real)
    ensures a.avg == b.avg
  {
    assert (a.avg - b.avg) * (n as real) == 0.0;
  }
}

/** What conservation means in the figures of the samples: counts, times, averages and extremes. */
module LadderFigures {
  import opened Prelude
  import opened Summaries
  import opened TierFold
  import opened TimeGrid
  import opened LadderModel
  import opened LadderTables
  import opened LadderInvariant
  import opened LadderConservation
  import opened LadderCounts
  import opened LadderRecord

  type Samples = map<int, RawSample>

  /** The figure of a sample. */
  function Figure(s: RawSample, metric: Metric): real {
    match metric
    case Cpu => s.cpu
    case Memory => s.memory
    case Swap => s.swap
    case Load => s.load
  }

  function TimesIn(m: Samples, lo: int, hi: int): set<int> { set t | t in m && lo <= t < hi }

  /** The figures of the samples from `lo` to `hi` added up. */
  function FigureSum(m: Samples, metric: Metric, lo: int, hi: int): real
    decreases hi - lo
  {
    if lo >= hi then 0.0
    else FigureSum(m, metric, lo, hi - 1) + if hi - 1 in m then Figure(m[hi - 1], metric) else 0.0
  }

  /** `min` and `max` are the least and the greatest figure of the samples. */
  ghost predicate Extremes(m: Samples, metric: Metric, lo: int, hi: int, min: real, max: real) {
    && (forall t :: t in TimesIn(m, lo, hi) ==> min <= Figure(m[t], metric) <= max)
    && (exists t :: t in TimesIn(m, lo, hi) && Figure(m[t], metric) == min)
    && (exists t :: t in TimesIn(m, lo, hi) && Figure(m[t], metric) == max)
  }

  /** The samples from `lo` to `hi` that have a root figure. */
  function RootTimes(m: Samples, lo: int, hi: int): set<int> { set t | t in m && lo <= t < hi && m[t].rootUsed.Some? }

  ghost predicate RootExtremes(m: Samples, lo: int, hi: int, min: real, max: real) {
    && (forall t :: t in RootTimes(m, lo, hi) ==> min <= m[t].rootUsed.value <= max)
    && (exists t :: t in RootTimes(m, lo, hi) && m[t].rootUsed.value == min)
    && (exists t :: t in RootTimes(m, lo, hi) && m[t].rootUsed.value == max)
  }

  ghost predicate AggFits(m: Samples, metric: Metric, lo: int, hi: int, a: Agg) {
    a.sum == FigureSum(m, metric, lo, hi) && Extremes(m, metric, lo, hi, a.min, a.max)
  }

  ghost predicate RootFits(m: Samples, lo: int, hi: int, root: Option<Range>) {
    && (root.Some? <==> RootTimes(m, lo, hi) != {})
    && (root.Some? ==> RootExtremes(m, lo, hi, root.value.min, root.value.max))
  }

  ghost predicate TimesFit(m: Samples, lo: int, hi: int, count: int, first: int, newest: int) {
    && count == |TimesIn(m, lo, hi)|
    && first in TimesIn(m, lo, hi) && newest in TimesIn(m, lo, hi)
    && forall t :: t in TimesIn(m, lo, hi) ==> first <= t <= newest
  }

  // ---------- One more moment ----------

  lemma TimesNext(m: Samples, lo: int, hi: int)
    requires lo < hi
    ensures TimesIn(m, lo, hi) == TimesIn(m, lo, hi - 1) + (if hi - 1 in m then {hi - 1} else {})
    ensures RootTimes(m, lo, hi) == RootTimes(m, lo, hi - 1) + (if hi - 1 in m && m[hi - 1].rootUsed.Some? then {hi - 1} else {})
    ensures hi - 1 !in TimesIn(m, lo, hi - 1)
  {
  }

  lemma AggFirst(m: Samples, metric: Metric, lo: int, hi: int)
    requires lo < hi && hi - 1 in m && TimesIn(m, lo, hi - 1) == {} && FigureSum(m, metric, lo, hi - 1) == 0.0
    ensures var v := Figure(m[hi - 1], metric); AggFits(m, metric, lo, hi, Agg(v, v, v))
  {
    TimesNext(m, lo, hi);
    hide TimesIn, Figure;
    assert hi - 1 in TimesIn(m, lo, hi);
  }

  lemma AggNext(m: Samples, metric: Metric, lo: int, hi: int, a: Agg)
    requires lo < hi && AggFits(m, metric, lo, hi - 1, a)
    ensures hi - 1 !in m ==> AggFits(m, metric, lo, hi, a)
    ensures hi - 1 in m ==> var v := Figure(m[hi - 1], metric); AggFits(m, metric, lo, hi, JoinAgg(a, Agg(v, v, v)))
  {
    TimesNext(m, lo, hi);
    hide TimesIn, Figure;
    if hi - 1 in m {
      assert hi - 1 in TimesIn(m, lo, hi);
    }
  }

  lemma RootNext(m: Samples, lo: int, hi: int, root: Option<Range>)
    requires lo < hi && RootFits(m, lo, hi - 1, root)
    ensures hi - 1 !in m ==> RootFits(m, lo, hi, root)
    ensures hi - 1 in m ==>
              var v := m[hi - 1].rootUsed;
              RootFits(m, lo, hi, JoinRoot(root, if v.Some? then Some(Range(v.value, v.value)) else None))
  {
    TimesNext(m, lo, hi);
    hide RootTimes, TimesIn;
    if hi - 1 in m && m[hi - 1].rootUsed.Some? {
      assert hi - 1 in RootTimes(m, lo, hi);
    }
  }

  lemma {:induction false} NothingSums(m: Samples, metric: Metric, lo: int, hi: int)
    requires TimesIn(m, lo, hi) == {}
    ensures FigureSum(m, metric, lo, hi) == 0.0
    decreases hi - lo
  {
    if lo < hi {
      TimesNext(m, lo, hi);
      hide TimesIn;
      NothingSums(m, metric, lo, hi - 1);
      assert hi - 1 in m ==> hi - 1 in TimesIn(m, lo, hi);
    }
  }

  lemma TimesFirst(m: Samples, lo: int, hi: int)
    requires lo < hi && hi - 1 in m && TimesIn(m, lo, hi - 1) == {}
    ensures TimesFit(m, lo, hi, 1, hi - 1, hi - 1)
  {
    TimesNext(m, lo, hi);
    hide TimesIn;
  }

  lemma TimesMore(m: Samples, lo: int, hi: int, count: int, first: int, newest: int)
    requires lo < hi && TimesFit(m, lo, hi - 1, count, first, newest)
    ensures hi - 1 !in m ==> TimesFit(m, lo, hi, count, first, newest)
    ensures hi - 1 in m ==> TimesFit(m, lo, hi, count + 1, first, hi - 1) && first <= hi - 1 && newest <= hi - 1
  {
    InRange(m, lo, hi - 1);
    TimesNext(m, lo, hi);
    hide TimesIn;
  }

  lemma InRange(m: Samples, lo: int, hi: int)
    ensures forall t :: t in TimesIn(m, lo, hi) ==> lo <= t < hi
  {
  }

  // ---------- The sum of a range ----------

  ghost predicate SummaryFits(m: Samples, lo: int, hi: int, s: Summary) {
    && s.Of? && TimesFit(m, lo, hi, s.count, s.first, s.newest)
    && AggFits(m, Cpu, lo, hi, s.cpu) && AggFits(m, Memory, lo, hi, s.memory)
    && AggFits(m, Swap, lo, hi, s.swap) && AggFits(m, Load, lo, hi, s.load)
    && RootFits(m, lo, hi, s.root)
  }

  lemma FitsFirst(m: Samples, lo: int, hi: int)
    requires lo < hi && hi - 1 in m && TimesIn(m, lo, hi - 1) == {} && m[hi - 1].capturedAtMs == hi - 1
    ensures SummaryFits(m, lo, hi, SampleSummary(m[hi - 1]))
  {
    NoRoots(m, lo, hi - 1);
    RootNext(m, lo, hi, None);
    TimesFirst(m, lo, hi);
    NothingSums(m, Cpu, lo, hi - 1);
    NothingSums(m, Memory, lo, hi - 1);
    NothingSums(m, Swap, lo, hi - 1);
    NothingSums(m, Load, lo, hi - 1);
    AggFirst(m, Cpu, lo, hi);
    AggFirst(m, Memory, lo, hi);
    AggFirst(m, Swap, lo, hi);
    AggFirst(m, Load, lo, hi);
    hide AggFits, RootFits, TimesFit, TimesIn;
  }

  lemma NoRoots(m: Samples, lo: int, hi: int)
    requires TimesIn(m, lo, hi) == {}
    ensures RootFits(m, lo, hi, None)
  {
    assert forall t :: t in RootTimes(m, lo, hi) ==> t in TimesIn(m, lo, hi);
  }

  lemma FitsNext(m: Samples, lo: int, hi: int, s: Summary)
    requires lo < hi && SummaryFits(m, lo, hi - 1, s) && (hi - 1 in m ==> m[hi - 1].capturedAtMs == hi - 1)
    ensures SummaryFits(m, lo, hi, Join(s, if hi - 1 in m then SampleSummary(m[hi - 1]) else Empty))
  {
    TimesMore(m, lo, hi, s.count, s.first, s.newest);
    AggNext(m, Cpu, lo, hi, s.cpu);
    AggNext(m, Memory, lo, hi, s.memory);
    AggNext(m, Swap, lo, hi, s.swap);
    AggNext(m, Load, lo, hi, s.load);
    RootNext(m, lo, hi, s.root);
    hide AggFits, RootFits, TimesFit, JoinAgg, JoinRoot;
  }

  /** What adding up the summaries of single samples comes to. */
  lemma {:induction false} SumFits(m: Samples, lo: int, hi: int)
    requires forall t :: t in m ==> m[t].capturedAtMs == t
    ensures var s := Sum(RawAbstract(m), lo, hi);
            if TimesIn(m, lo, hi) == {} then s == Empty else SummaryFits(m, lo, hi, s)
    decreases hi - lo
  {
    if lo < hi {
      SumFits(m, lo, hi - 1);
      TimesNext(m, lo, hi);
      hide SummaryFits, TimesIn, SampleSummary;
      if TimesIn(m, lo, hi - 1) == {} {
        if hi - 1 in m {
          FitsFirst(m, lo, hi);
        }
      } else {
        FitsNext(m, lo, hi, Sum(RawAbstract(m), lo, hi - 1));
      }
    }
  }

  // ---------- The law ----------

  ghost predicate StatFits(m: Samples, metric: Metric, lo: int, hi: int, count: int, stat: Stat) {
    && stat.avg * count as real == FigureSum(m, metric, lo, hi)
    && Extremes(m, metric, lo, hi, stat.min, stat.max)
  }

  /** The bucket reports the samples from `lo` to `hi`: it counts them, gives the earliest and the latest time, for every
    * metric their average, least and greatest figure, and the least and greatest root figure exactly if one has any. */
  ghost predicate BucketFits(m: Samples, lo: int, hi: int, b: TierBucket) {
    && TimesFit(m, lo, hi, b.sampleCount, b.firstCapturedAtMs, b.newestCapturedAtMs)
    && StatFits(m, Cpu, lo, hi, b.sampleCount, b.cpu) && StatFits(m, Memory, lo, hi, b.sampleCount, b.memory)
    && StatFits(m, Swap, lo, hi, b.sampleCount, b.swap) && StatFits(m, Load, lo, hi, b.sampleCount, b.load)
    && (b.rootUsed.Some? <==> RootTimes(m, lo, hi) != {})
    && (b.rootUsed.Some? ==> RootExtremes(m, lo, hi, b.rootUsed.value.min, b.rootUsed.value.max))
  }

  lemma ReportFits(m: Samples, lo: int, hi: int, s: Summary, b: TierBucket)
    requires SummaryFits(m, lo, hi, s) && ReportsExactly(b, s)
    ensures BucketFits(m, lo, hi, b)
  {
    hide Extremes, TimesFit, RootExtremes, FigureSum, RootTimes;
    MetricFits(m, Cpu, lo, hi, s, b);
    MetricFits(m, Memory, lo, hi, s, b);
    MetricFits(m, Swap, lo, hi, s, b);
    MetricFits(m, Load, lo, hi, s, b);
  }

  lemma MetricFits(m: Samples, metric: Metric, lo: int, hi: int, s: Summary, b: TierBucket)
    requires ReportsExactly(b, s) && AggFits(m, metric, lo, hi, s.Get(metric))
    ensures StatFits(m, metric, lo, hi, b.sampleCount, b.Get(metric))
  {
    hide Extremes, FigureSum;
    DivideMultiply(s.Get(metric).sum, s.count);
  }

  /** The last sample stored at each time. */
  function LastSamples(steps: seq<Step>): Samples {
    if steps == [] then map[]
    else
      var before, step := LastSamples(steps[..|steps| - 1]), steps[|steps| - 1];
      if step.Store? then before[step.sample.capturedAtMs := step.sample] else before
  }

  /** Step `i` is the last that stored a sample at `t`. */
  ghost predicate LastAt(steps: seq<Step>, i: nat, t: int) {
    && i < |steps| && steps[i].Store? && steps[i].sample.capturedAtMs == t
    && forall j :: i < j < |steps| && steps[j].Store? ==> steps[j].sample.capturedAtMs != t
  }

  /** A time's entry is the sample of the last step that stored one there. */
  lemma {:induction false} LastSampleComes(steps: seq<Step>, t: int) returns (i: nat)
    ensures t in LastSamples(steps) ==> LastAt(steps, i, t) && LastSamples(steps)[t] == steps[i].sample
    decreases |steps|
  {
    i := 0;
    if steps != [] {
      var init, last := steps[..|steps| - 1], steps[|steps| - 1];
      if last.Store? && last.sample.capturedAtMs == t {
        i := |steps| - 1;
      } else {
        i := LastSampleComes(init, t);
        assert forall j :: 0 <= j < |init| ==> init[j] == steps[j];
      }
    }
  }

  /** And every time with such a step has one. */
  lemma {:induction false} LastSampleIs(steps: seq<Step>, i: nat)
    requires i < |steps| && steps[i].Store?
    ensures steps[i].sample.capturedAtMs in LastSamples(steps)
    decreases |steps|
  {
    var init := steps[..|steps| - 1];
    if i < |init| {
      assert init[i] == steps[i];
      LastSampleIs(init, i);
    }
  }

  lemma {:induction false} LastStoredSummarises(steps: seq<Step>)
    ensures LastStored(steps) == RawAbstract(LastSamples(steps))
    ensures forall t :: t in LastSamples(steps) ==> LastSamples(steps)[t].capturedAtMs == t
  {
    if steps != [] {
      LastStoredSummarises(steps[..|steps| - 1]);
      hide SampleSummary;
    }
  }

  lemma FitsSteps(steps: seq<Step>, lo: int, hi: int, b: TierBucket)
    requires ReportsExactly(b, Sum(LastStored(steps), lo, hi))
    ensures BucketFits(LastSamples(steps), lo, hi, b)
  {
    hide BucketFits, SummaryFits, TimesIn, Sum;
    LastStoredSummarises(steps);
    SumFits(LastSamples(steps), lo, hi);
    ReportFits(LastSamples(steps), lo, hi, Sum(LastStored(steps), lo, hi), b);
  }

  lemma TimesAreStored(steps: seq<Step>, lo: int, hi: int)
    ensures StoredTimes(steps, lo, hi) == TimesIn(LastSamples(steps), lo, hi)
  {
    StoredAreTimes(steps, lo, hi);
    LastStoredSummarises(steps);
    hide StoredTimes, LastStored, LastSamples;
    SameTimes(LastSamples(steps), lo, hi, StoredTimes(steps, lo, hi));
  }

  lemma SameTimes(m: Samples, lo: int, hi: int, times: set<int>)
    requires forall t :: t in times <==> lo <= t < hi && t in RawAbstract(m)
    ensures times == TimesIn(m, lo, hi)
  {
    hide SampleSummary;
    assert RawAbstract(m).Keys == m.Keys;
    forall t
      ensures t in times <==> t in TimesIn(m, lo, hi)
    {
      assert t in RawAbstract(m) <==> t in m;
    }
  }

  lemma RunLength(c: Config, states: seq<State>, steps: seq<Step>)
    requires Run(c, states, steps)
    ensures |states| == |steps| + 1
  {
  }

  /** Conservation in figures: after a run of clean steps that adds no time of the range again, a settled bucket of the coarser
    * tiers is there exactly when samples were stored in its range, and reports the last of each time. */
  lemma BucketInFigures(c: Config, states: seq<State>, steps: seq<Step>, tier: Tier, k: int)
    requires Run(c, states, steps) && (tier == L3 || tier == L4)
    requires !AddsAgain(states, steps, k, k + tier.ResolutionMs())
    requires Settled(c, states[|steps|].ladder, states[|steps|].log.clock, tier, k)
    ensures var table, hi := states[|steps|].ladder.Rows(tier), k + if tier == L3 then 300_000 else 3_600_000;
            && (k in table <==> TimesIn(LastSamples(steps), k, hi) != {})
            && (k in table ==> BucketFits(LastSamples(steps), k, hi, table[k]))
  {
    hide Run, AddsAgain, Settled, ReportsExactly, Sum, BucketFits, TimesIn, StoredTimes, LastStored, LastSamples;
    RunLength(c, states, steps);
    StoredConservation(c, states, steps, tier, k);
    TimesAreStored(steps, k, k + tier.ResolutionMs());
    if k in states[|steps|].ladder.Rows(tier) {
      FitsSteps(steps, k, k + tier.ResolutionMs(), states[|steps|].ladder.Rows(tier)[k]);
    }
  }

  /** The same for a minute that has not expired. */
  lemma MinuteInFigures(c: Config, states: seq<State>, steps: seq<Step>, k: int)
    requires Run(c, states, steps) && !AddsAgain(states, steps, k, k + 60_000)
    requires Aligned(60_000, k) && InClock(k)
    requires k + 60_000 > L2Horizon(c, states[|steps|].ladder, states[|steps|].log.clock)
    ensures var table := states[|steps|].ladder.l2;
            && (k in table <==> TimesIn(LastSamples(steps), k, k + 60_000) != {})
            && (k in table ==> BucketFits(LastSamples(steps), k, k + 60_000, table[k]))
  {
    hide Run, AddsAgain, ReportsExactly, Sum, InClock, BucketFits, TimesIn, StoredTimes, LastStored, LastSamples, L2Horizon, Aligned;
    RunLength(c, states, steps);
    StoredMinuteConservation(c, states, steps, k);
    TimesAreStored(steps, k, k + 60_000);
    if k in states[|steps|].ladder.l2 {
      FitsSteps(steps, k, k + 60_000, states[|steps|].ladder.l2[k]);
    }
  }
}

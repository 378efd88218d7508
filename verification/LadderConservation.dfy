/** The conservation law over every run of the ladder whose steps are clean; `LadderLimits` shows that no other step
  * keeps it. */
module LadderConservation {
  import opened Prelude
  import opened Summaries
  import opened TierFold
  import opened TimeGrid
  import opened LadderModel
  import opened LadderTables
  import opened LadderInvariant
  import opened LadderPromotion
  import opened LadderTick
  import opened LadderInsert
  import opened LadderRuns

  /** One step of a run: a sample is stored, or a maintenance tick happens with whatever fails in it. */
  datatype Step =
    | Store(sample: RawSample, now: int)
    | Tick(now: int, archived: Option<set<int>>, faults: TickFaults)

  datatype State = State(ladder: Ladder, log: Log)

  /** What a step does; the clock does not go back. */
  ghost predicate Takes(c: Config, s: State, step: Step, t: State) {
    && s.log.clock <= step.now
    && match step
       case Store(sample, now) =>
         && t.ladder == InsertSample(c, s.ladder, sample, now).0
         && t.log == Log(Record(s.log.recorded, s.ladder, sample), now)
       case Tick(now, archived, faults) =>
         && ClockKeys(s.ladder.l2) && ClockKeys(s.ladder.l3)
         && t.ladder == Maintain(c, s.ladder, now, archived, faults).0
         && t.log == s.log.(clock := now)
  }

  /** The step is none of those that lose a sample or a value. */
  ghost predicate Clean(c: Config, s: State, step: Step) {
    match step
    case Store(sample, now) => CleanInsert(c, s.ladder, s.log.recorded, sample, now)
    case Tick(now, archived, faults) => ClockKeys(s.ladder.l2) ==> !TickOverruns(c, s.ladder, now, faults)
  }

  ghost predicate Next(c: Config, s: State, step: Step, t: State) {
    Clean(c, s, step) && Takes(c, s, step, t)
  }

  ghost predicate Starts(s: State) {
    s.ladder == EMPTY_LADDER && s.log.recorded == map[]
  }

  /** A run from the empty store. */
  ghost predicate History(c: Config, states: seq<State>, steps: seq<Step>) {
    && |states| == |steps| + 1 && Starts(states[0])
    && forall i :: 0 <= i < |steps| ==> Takes(c, states[i], steps[i], states[i + 1])
  }

  /** A run from the empty store whose steps are all clean. */
  ghost predicate Run(c: Config, states: seq<State>, steps: seq<Step>) {
    && |states| == |steps| + 1
    && Starts(states[0])
    && forall i :: 0 <= i < |steps| ==> Next(c, states[i], steps[i], states[i + 1])
  }

  lemma StepKeeps(c: Config, s: State, step: Step, t: State)
    requires Valid(c, s.ladder, s.log) && Next(c, s, step, t)
    ensures Valid(c, t.ladder, t.log)
  {
    hide Valid, CleanInsert, TickOverruns, ClockKeys;
    match step
    case Store(sample, now) => InsertKeeps(c, s.ladder, s.log, sample, now);
    case Tick(now, archived, faults) => TickKeeps(c, s.ladder, s.log, now, archived, faults);
  }

  lemma {:induction false} RunKeeps(c: Config, states: seq<State>, steps: seq<Step>)
    requires Run(c, states, steps)
    ensures Valid(c, states[|steps|].ladder, states[|steps|].log)
    decreases |steps|
  {
    hide Valid, Next;
    if steps == [] {
      EmptyIsValid(c, states[0].log.clock);
    } else {
      var n := |steps| - 1;
      RunKeeps(c, states[..n + 1], steps[..n]);
      StepKeeps(c, states[n], steps[n], states[n + 1]);
    }
  }

  // ---------- The law ----------

  /** A bucket's numbers are those of the samples summarised by `s`: count, times, averages and extremes. */
  ghost predicate ReportsExactly(b: TierBucket, s: Summary) {
    && s.Of? && s.count > 0
    && b.sampleCount == s.count
    && b.firstCapturedAtMs == s.first && b.newestCapturedAtMs == s.newest
    && (forall metric: Metric ::
          && b.Get(metric).avg == s.Get(metric).sum / (s.count as real)
          && b.Get(metric).min == s.Get(metric).min
          && b.Get(metric).max == s.Get(metric).max)
    && (b.rootUsed.Some? <==> s.root.Some?)
    && (s.root.Some? ==> b.rootUsed.value.min == s.root.value.min && b.rootUsed.value.max == s.root.value.max)
  }

  lemma SummaryReports(b: TierBucket, s: Summary)
    requires SummaryOf(b) == s && b.sampleCount > 0
    ensures ReportsExactly(b, s)
  {
    forall metric: Metric
      ensures b.Get(metric).avg == s.Get(metric).sum / (s.count as real)
      ensures b.Get(metric).min == s.Get(metric).min
      ensures b.Get(metric).max == s.Get(metric).max
    {
      assert s.Get(metric) == AggOf(b, metric);
      AverageBack(b.Get(metric).avg, b.sampleCount);
    }
  }

  lemma AverageBack(avg: real, n: int)
    requires n > 0
    ensures avg == avg * (n as real) / (n as real)
  {
  }

  /** The tile at `k` is still within its tier's horizon and already behind its tier's watermark. */
  predicate Settled(c: Config, l: Ladder, clock: int, tier: Tier, k: int)
    requires tier == L3 || tier == L4
  {
    var w := tier.ResolutionMs();
    && Aligned(w, k) && InClock(k)
    && k + w <= Mark(l, tier)
    && k + w > if tier == L3 then L3Horizon(c, l, clock) else L4Horizon(c, clock)
  }

  /** Conservation: at the end of every run, each settled five-minute and hourly tile has a bucket exactly when a
    * sample was recorded in its range, and that bucket reports exactly those samples. */
  lemma Conservation(c: Config, states: seq<State>, steps: seq<Step>, tier: Tier, k: int)
    requires Run(c, states, steps)
    requires tier == L3 || tier == L4
    requires Settled(c, states[|steps|].ladder, states[|steps|].log.clock, tier, k)
    ensures var s := states[|steps|];
            var table := s.ladder.Rows(tier);
            var samples := Sum(s.log.recorded, k, k + tier.ResolutionMs());
            && (k in table <==> samples != Empty)
            && (k in table ==> ReportsExactly(table[k], samples))
  {
    RunKeeps(c, states, steps);
    var s := states[|steps|];
    var table := s.ladder.Rows(tier);
    assert Tile(table, k) == Sum(s.log.recorded, k, k + tier.ResolutionMs());
    if k in table {
      SummaryReports(table[k], SummaryOf(table[k]));
    }
  }

  /** The same for a minute that has not expired, folded or not. */
  lemma MinuteConservation(c: Config, states: seq<State>, steps: seq<Step>, k: int)
    requires Run(c, states, steps)
    requires Aligned(60_000, k) && InClock(k)
    requires k + 60_000 > L2Horizon(c, states[|steps|].ladder, states[|steps|].log.clock)
    ensures var s := states[|steps|];
            var samples := Sum(s.log.recorded, k, k + 60_000);
            && (k in s.ladder.l2 <==> samples != Empty)
            && (k in s.ladder.l2 ==> ReportsExactly(s.ladder.l2[k], samples))
  {
    RunKeeps(c, states, steps);
    var s := states[|steps|];
    ClockBounds(60_000, k);
    assert Tile(s.ladder.l2, k) == Sum(s.log.recorded, k, k + 60_000);
    if k in s.ladder.l2 {
      SummaryReports(s.ladder.l2[k], SummaryOf(s.ladder.l2[k]));
    }
  }

  // ---------- What was recorded ----------

  /** The step stores a row whose timestamp has no raw row at that moment, within a range of time. */
  predicate AddsRow(s: State, step: Step, lo: int, hi: int) {
    step.Store? && lo <= step.sample.capturedAtMs < hi && step.sample.capturedAtMs !in s.ladder.raw
  }

  /** How many steps of a run add a row in a range of time. */
  ghost function NewRows(states: seq<State>, steps: seq<Step>, lo: int, hi: int): nat
    requires |states| == |steps| + 1
  {
    if steps == [] then 0
    else
      var n := |steps| - 1;
      NewRows(states[..n + 1], steps[..n], lo, hi) + (if AddsRow(states[n], steps[n], lo, hi) then 1 else 0)
  }
}

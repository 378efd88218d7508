/** What the record of a run has to do with the steps alone: when it holds the last value stored at each time, and what
  * settled buckets then report. */
module LadderRecord {
  import opened Prelude
  import opened Summaries
  import opened TierFold
  import opened TimeGrid
  import opened LadderModel
  import opened LadderTables
  import opened LadderInvariant
  import opened LadderPromotion
  import opened LadderInsert
  import opened LadderRuns
  import opened LadderConservation
  import opened LadderLimits
  import opened LadderCounts
  import opened LadderProgress

  /** The last sample stored at each time, and nothing about the store. */
  function LastStored(steps: seq<Step>): map<int, Summary> {
    if steps == [] then map[]
    else
      var before, step := LastStored(steps[..|steps| - 1]), steps[|steps| - 1];
      if step.Store? then before[step.sample.capturedAtMs := SampleSummary(step.sample)] else before
  }

  lemma {:induction false} StoredAreTimes(steps: seq<Step>, lo: int, hi: int)
    ensures forall t :: t in StoredTimes(steps, lo, hi) <==> lo <= t < hi && t in LastStored(steps)
  {
    if steps != [] {
      StoredAreTimes(steps[..|steps| - 1], lo, hi);
    }
  }

  lemma {:induction false} LastStoredPositive(steps: seq<Step>)
    ensures Positive(LastStored(steps))
  {
    if steps != [] {
      LastStoredPositive(steps[..|steps| - 1]);
    }
  }

  /** The raw rows left are the last samples stored at their times. */
  lemma {:induction false} RawIsLastStored(c: Config, states: seq<State>, steps: seq<Step>, t: int)
    requires History(c, states, steps) && t in states[|steps|].ladder.raw
    ensures t in LastStored(steps) && LastStored(steps)[t] == SampleSummary(states[|steps|].ladder.raw[t])
    decreases |steps|
  {
    hide Takes, SampleSummary;
    if steps != [] {
      var n := |steps| - 1;
      RawAfterStep(c, states[n], steps[n], states[n + 1], t);
      RowAfterStep(c, states[n], steps[n], states[n + 1], t);
      if t in states[n].ladder.raw {
        RawIsLastStored(c, states[..n + 1], steps[..n], t);
      }
    }
  }

  lemma RowAfterStep(c: Config, s: State, step: Step, t: State, v: int)
    requires Takes(c, s, step, t) && v in t.ladder.raw
    ensures if step.Store? && v == step.sample.capturedAtMs then t.ladder.raw[v] == step.sample
            else v in s.ladder.raw && t.ladder.raw[v] == s.ladder.raw[v]
  {
    match step
    case Store(sample, now) =>
      hide InsertSample;
      RefoldsLeaveRaw(c, s.ladder, sample, now);
    case Tick(now, archived, faults) =>
      hide PromoteL3, PromoteL4, ClockKeys, L2Cutoff, L3Cutoff, L4Cutoff, Prune, Drop;
      PromotionsKeepKeys(c, WithFlags(c, s.ladder, faults), now, faults);
  }

  // ---------- Counting the record ----------

  /** The step replaces what is recorded at its time, within a range, where that is more than one sample. */
  ghost predicate ReplacesMany(s: State, step: Step, lo: int, hi: int) {
    && step.Store? && lo <= step.sample.capturedAtMs < hi && ChangedReplay(s.ladder, step.sample)
    && At(s.log.recorded, step.sample.capturedAtMs).Count() > 1
  }

  /** A record fits the raw rows: it is positive and covers them. */
  ghost predicate Covers(s: State) {
    Positive(s.log.recorded) && forall t :: t in s.ladder.raw ==> t in s.log.recorded
  }

  lemma StepCovers(c: Config, s: State, step: Step, t: State)
    requires Covers(s) && Takes(c, s, step, t)
    ensures Covers(t)
  {
    forall v | v in t.ladder.raw
      ensures v in t.log.recorded
    {
      RawAfterStep(c, s, step, t, v);
    }
    hide InsertSample, Maintain, SampleSummary, ClockKeys;
    if step.Store? {
      RecordPositive(s.log.recorded, s.ladder, step.sample);
    }
  }

  lemma RecordPositive(m: map<int, Summary>, l: Ladder, sample: RawSample)
    requires Positive(m)
    ensures Positive(Record(m, l, sample)) && m.Keys <= Record(m, l, sample).Keys
  {
  }

  lemma {:induction false} RunCovers(c: Config, states: seq<State>, steps: seq<Step>)
    requires History(c, states, steps)
    ensures Covers(states[|steps|])
    decreases |steps|
  {
    hide Takes;
    if steps != [] {
      var n := |steps| - 1;
      RunCovers(c, states[..n + 1], steps[..n]);
      StepCovers(c, states[n], steps[n], states[n + 1]);
    }
  }

  lemma SumReplaced(m: map<int, Summary>, n: map<int, Summary>, lo: int, hi: int, t: int)
    requires lo <= t < hi && OnlyAt(m, n, t) && At(m, t).Of? && At(n, t).Of?
    ensures Sum(m, lo, hi).Count() - At(m, t).Count() == Sum(n, lo, hi).Count() - At(n, t).Count()
  {
    var without := map v | v in m && v != t :: m[v];
    SumJoinAt(without, m, lo, hi, t, At(m, t));
    SumJoinAt(without, n, lo, hi, t, At(n, t));
    JoinCounts(Sum(without, lo, hi), At(m, t));
    JoinCounts(Sum(without, lo, hi), At(n, t));
  }

  lemma JoinCounts(a: Summary, b: Summary)
    ensures Join(a, b).Count() == a.Count() + b.Count()
  {
  }

  /** A new row adds one recorded sample; a replay adds none, and takes some away exactly when more than one was recorded at
    * its time. */
  lemma RecordCounts(s: State, sample: RawSample, lo: int, hi: int)
    requires Covers(s)
    ensures var t := sample.capturedAtMs;
            var added := if t !in s.ladder.raw && lo <= t < hi then 1 else 0;
            var before, after := Sum(s.log.recorded, lo, hi).Count(), Sum(Record(s.log.recorded, s.ladder, sample), lo, hi).Count();
            && after <= before + added
            && (after == before + added <==> !ReplacesMany(s, Store(sample, 0), lo, hi))
  {
    hide Sum;
    var t, m := sample.capturedAtMs, s.log.recorded;
    var n := Record(m, s.ladder, sample);
    if !(lo <= t < hi) {
      SumElsewhere(m, n, t, lo, hi);
    } else if t !in s.ladder.raw {
      SumJoinAt(m, n, lo, hi, t, SampleSummary(sample));
      JoinCounts(Sum(m, lo, hi), SampleSummary(sample));
    } else if ChangedReplay(s.ladder, sample) {
      SumReplaced(m, n, lo, hi, t);
    }
  }

  ghost predicate EverReplacesMany(states: seq<State>, steps: seq<Step>, lo: int, hi: int)
    requires |states| == |steps| + 1
  {
    exists i :: 0 <= i < |steps| && ReplacesMany(states[i], steps[i], lo, hi)
  }

  lemma ManyStep(states: seq<State>, steps: seq<Step>, lo: int, hi: int)
    requires |states| == |steps| + 1 && steps != []
    ensures var n := |steps| - 1;
            EverReplacesMany(states, steps, lo, hi) <==>
              EverReplacesMany(states[..n + 1], steps[..n], lo, hi) || ReplacesMany(states[n], steps[n], lo, hi)
  {
    hide ReplacesMany;
    var n := |steps| - 1;
    assert forall i :: 0 <= i < n ==> states[..n + 1][i] == states[i] && steps[..n][i] == steps[i];
  }

  /** At the end of every run a range holds at most as many recorded samples as rows were added in it, and exactly as many if
    * and only if no replay replaced several samples of one time. */
  lemma {:induction false} RecordedAreNewRows(c: Config, states: seq<State>, steps: seq<Step>, lo: int, hi: int)
    requires History(c, states, steps)
    ensures var count := Sum(states[|steps|].log.recorded, lo, hi).Count();
            && count <= NewRows(states, steps, lo, hi)
            && (count == NewRows(states, steps, lo, hi) <==> !EverReplacesMany(states, steps, lo, hi))
    decreases |steps|
  {
    hide Takes, Sum, ReplacesMany, EverReplacesMany;
    if steps == [] {
      SumNone(map[], lo, hi);
      NoneReplaced(states, lo, hi);
    } else {
      var n := |steps| - 1;
      RecordedAreNewRows(c, states[..n + 1], steps[..n], lo, hi);
      ManyStep(states, steps, lo, hi);
      RunCovers(c, states[..n + 1], steps[..n]);
      StepRecords(c, states[n], steps[n], states[n + 1], lo, hi);
    }
  }

  lemma NoneReplaced(states: seq<State>, lo: int, hi: int)
    requires |states| == 1
    ensures !EverReplacesMany(states, [], lo, hi)
  {
  }

  lemma StepRecords(c: Config, s: State, step: Step, t: State, lo: int, hi: int)
    requires Covers(s) && Takes(c, s, step, t)
    ensures var added := if AddsRow(s, step, lo, hi) then 1 else 0;
            var before, after := Sum(s.log.recorded, lo, hi).Count(), Sum(t.log.recorded, lo, hi).Count();
            && after <= before + added
            && (after == before + added <==> !ReplacesMany(s, step, lo, hi))
  {
    hide Sum, Record, ChangedReplay, ClockKeys, InsertSample, Maintain;
    if step.Store? {
      RecordCounts(s, step.sample, lo, hi);
    }
  }

  // ---------- The last value stored ----------

  /** Within the range the record is the last value stored at each time. */
  ghost predicate RecordsLast(s: State, steps: seq<Step>, lo: int, hi: int) {
    AgreeOn(s.log.recorded, LastStored(steps), lo, hi)
  }

  /** A step keeps it if and only if it does not add a row at a time stored before. */
  lemma StepRecordsLast(c: Config, states: seq<State>, steps: seq<Step>, lo: int, hi: int)
    requires History(c, states, steps) && steps != []
    requires var n := |steps| - 1; RecordsLast(states[n], steps[..n], lo, hi)
    ensures var n := |steps| - 1;
            RecordsLast(states[|steps|], steps, lo, hi) <==>
              !(AddsRow(states[n], steps[n], lo, hi) && steps[n].sample.capturedAtMs in StoredTimes(steps[..n], lo, hi))
  {
    var n := |steps| - 1;
    var s, step, init := states[n], steps[n], steps[..n];
    StoredAreTimes(init, lo, hi);
    LastStoredPositive(init);
    LastStoredStep(steps);
    if step.Store? {
      assert Takes(c, s, step, states[n + 1]);
      hide Takes, StoredTimes, LastStored, InsertSample;
      RecordAfter(c, s, step, states[n + 1]);
      var t := step.sample.capturedAtMs;
      if t in s.ladder.raw {
        RawIsLastStored(c, states[..n + 1], init, t);
      }
      RecordStepLast(s.log.recorded, LastStored(init), s.ladder, step.sample, lo, hi);
    } else {
      assert Takes(c, s, step, states[n + 1]);
      hide LastStored, Maintain;
    }
  }

  lemma LastStoredStep(steps: seq<Step>)
    requires steps != []
    ensures var init, step := steps[..|steps| - 1], steps[|steps| - 1];
            LastStored(steps) == if step.Store? then LastStored(init)[step.sample.capturedAtMs := SampleSummary(step.sample)]
                                 else LastStored(init)
  {
  }

  lemma RecordAfter(c: Config, s: State, step: Step, t: State)
    requires Takes(c, s, step, t) && step.Store?
    ensures t.log.recorded == Record(s.log.recorded, s.ladder, step.sample)
  {
    hide InsertSample, Record;
  }

  lemma RecordStepLast(m: map<int, Summary>, last: map<int, Summary>, l: Ladder, sample: RawSample, lo: int, hi: int)
    requires AgreeOn(m, last, lo, hi) && Positive(last)
    requires sample.capturedAtMs in l.raw ==>
               && sample.capturedAtMs in last && last[sample.capturedAtMs] == SampleSummary(l.raw[sample.capturedAtMs])
    ensures var t := sample.capturedAtMs;
            AgreeOn(Record(m, l, sample), last[t := SampleSummary(sample)], lo, hi) <==>
              !(t !in l.raw && lo <= t < hi && t in last)
  {
    var t := sample.capturedAtMs;
    var n, next := Record(m, l, sample), last[t := SampleSummary(sample)];
    if lo <= t < hi {
      assert At(m, t) == At(last, t);
      assert At(next, t) == SampleSummary(sample);
      if t !in l.raw && t in last {
        JoinCounts(At(m, t), SampleSummary(sample));
        assert At(n, t).Count() > 1;
      }
    }
    hide SampleSummary, Join;
    assert forall v :: v != t ==> At(n, v) == At(m, v) && At(next, v) == At(last, v);
  }

  ghost predicate AlwaysRecordsLast(states: seq<State>, steps: seq<Step>, lo: int, hi: int)
    requires |states| == |steps| + 1
  {
    forall i :: 0 <= i <= |steps| ==> RecordsLast(states[i], steps[..i], lo, hi)
  }

  lemma AlwaysStep(states: seq<State>, steps: seq<Step>, lo: int, hi: int)
    requires |states| == |steps| + 1 && steps != []
    ensures var n := |steps| - 1;
            AlwaysRecordsLast(states, steps, lo, hi) <==>
              AlwaysRecordsLast(states[..n + 1], steps[..n], lo, hi) && RecordsLast(states[|steps|], steps, lo, hi)
    ensures var n := |steps| - 1;
            AlwaysRecordsLast(states[..n + 1], steps[..n], lo, hi) ==> RecordsLast(states[n], steps[..n], lo, hi)
  {
    hide RecordsLast;
    var n := |steps| - 1;
    assert forall i :: 0 <= i <= n ==> states[..n + 1][i] == states[i] && steps[..n][..i] == steps[..i];
    assert steps[..|steps|] == steps && steps[..n][..n] == steps[..n];
    if AlwaysRecordsLast(states[..n + 1], steps[..n], lo, hi) {
      assert RecordsLast(states[..n + 1][n], steps[..n][..n], lo, hi);
    }
    if AlwaysRecordsLast(states, steps, lo, hi) {
      forall i | 0 <= i <= n
        ensures RecordsLast(states[..n + 1][i], steps[..n][..i], lo, hi)
      {
        assert RecordsLast(states[i], steps[..i], lo, hi);
      }
    }
    if AlwaysRecordsLast(states[..n + 1], steps[..n], lo, hi) && RecordsLast(states[|steps|], steps, lo, hi) {
      forall i | 0 <= i <= |steps|
        ensures RecordsLast(states[i], steps[..i], lo, hi)
      {
        if i <= n {
          assert RecordsLast(states[..n + 1][i], steps[..n][..i], lo, hi);
        }
      }
    }
  }

  /** At every moment of a run the record of a range is the last value stored at each of its times, if and only if no step
    * adds a row there at a time stored before. */
  lemma {:induction false} RecordIsLastStored(c: Config, states: seq<State>, steps: seq<Step>, lo: int, hi: int)
    requires History(c, states, steps)
    ensures AlwaysRecordsLast(states, steps, lo, hi) <==> !AddsAgain(states, steps, lo, hi)
    decreases |steps|
  {
    hide Takes, RecordsLast, AlwaysRecordsLast, AddsAgain;
    if steps == [] {
      NothingRecordedYet(states, lo, hi);
    } else {
      var n := |steps| - 1;
      RecordIsLastStored(c, states[..n + 1], steps[..n], lo, hi);
      AlwaysStep(states, steps, lo, hi);
      AgainStep(states, steps, lo, hi);
      if AlwaysRecordsLast(states[..n + 1], steps[..n], lo, hi) {
        StepRecordsLast(c, states, steps, lo, hi);
      }
    }
  }

  lemma NothingRecordedYet(states: seq<State>, lo: int, hi: int)
    requires |states| == 1 && Starts(states[0])
    ensures AlwaysRecordsLast(states, [], lo, hi) && !AddsAgain(states, [], lo, hi)
  {
  }

  // ---------- Conservation in terms of the steps ----------

  lemma CleanRunRecordsLast(c: Config, states: seq<State>, steps: seq<Step>, lo: int, hi: int)
    requires Run(c, states, steps) && !AddsAgain(states, steps, lo, hi)
    ensures Sum(states[|steps|].log.recorded, lo, hi) == Sum(LastStored(steps), lo, hi)
  {
    hide Takes, Clean, AddsAgain, RecordsLast;
    assert forall i :: 0 <= i < |steps| ==> Next(c, states[i], steps[i], states[i + 1]);
    RecordIsLastStored(c, states, steps, lo, hi);
    assert RecordsLast(states[|steps|], steps[..|steps|], lo, hi);
    assert steps[..|steps|] == steps;
    LastSums(states[|steps|], steps, lo, hi);
  }

  lemma LastSums(s: State, steps: seq<Step>, lo: int, hi: int)
    requires RecordsLast(s, steps, lo, hi)
    ensures Sum(s.log.recorded, lo, hi) == Sum(LastStored(steps), lo, hi)
  {
    SumAgrees(s.log.recorded, LastStored(steps), lo, hi);
  }

  /** Conservation from the steps alone: after a run of clean steps that adds no time of the range again, a settled bucket is
    * there exactly when a sample was stored in its range, and reports the last values stored there. */
  lemma StoredConservation(c: Config, states: seq<State>, steps: seq<Step>, tier: Tier, k: int)
    requires Run(c, states, steps) && (tier == L3 || tier == L4)
    requires !AddsAgain(states, steps, k, k + tier.ResolutionMs())
    requires Settled(c, states[|steps|].ladder, states[|steps|].log.clock, tier, k)
    ensures var table, w := states[|steps|].ladder.Rows(tier), tier.ResolutionMs();
            && (k in table <==> StoredTimes(steps, k, k + w) != {})
            && (k in table ==> ReportsExactly(table[k], Sum(LastStored(steps), k, k + w)))
  {
    hide Run, AddsAgain, Settled, ReportsExactly, Sum;
    Conservation(c, states, steps, tier, k);
    CleanRunRecordsLast(c, states, steps, k, k + tier.ResolutionMs());
    StoredOrEmpty(steps, k, k + tier.ResolutionMs());
  }

  /** The same for a minute that has not expired. */
  lemma StoredMinuteConservation(c: Config, states: seq<State>, steps: seq<Step>, k: int)
    requires Run(c, states, steps) && !AddsAgain(states, steps, k, k + 60_000)
    requires Aligned(60_000, k) && InClock(k)
    requires k + 60_000 > L2Horizon(c, states[|steps|].ladder, states[|steps|].log.clock)
    ensures var table := states[|steps|].ladder.l2;
            && (k in table <==> StoredTimes(steps, k, k + 60_000) != {})
            && (k in table ==> ReportsExactly(table[k], Sum(LastStored(steps), k, k + 60_000)))
  {
    hide Run, AddsAgain, ReportsExactly, Sum, InClock;
    MinuteConservation(c, states, steps, k);
    CleanRunRecordsLast(c, states, steps, k, k + 60_000);
    StoredOrEmpty(steps, k, k + 60_000);
  }

  lemma StoredOrEmpty(steps: seq<Step>, lo: int, hi: int)
    ensures Sum(LastStored(steps), lo, hi) == Empty <==> StoredTimes(steps, lo, hi) == {}
  {
    StoredAreTimes(steps, lo, hi);
    LastStoredPositive(steps);
    hide Sum, StoredTimes, LastStored;
    if Sum(LastStored(steps), lo, hi) == Empty {
      forall t | t in StoredTimes(steps, lo, hi)
        ensures false
      {
        SumEmptyMeansNone(LastStored(steps), lo, hi, t);
      }
    }
    if StoredTimes(steps, lo, hi) == {} {
      forall t | lo <= t < hi
        ensures At(LastStored(steps), t) == Empty
      {
        assert t !in StoredTimes(steps, lo, hi);
      }
      SumNone(LastStored(steps), lo, hi);
    }
  }

  ghost predicate AlwaysValid(c: Config, states: seq<State>) {
    forall i :: 0 <= i < |states| ==> Valid(c, states[i].ladder, states[i].log)
  }

  ghost predicate AllClean(c: Config, states: seq<State>, steps: seq<Step>)
    requires |states| == |steps| + 1
  {
    forall i :: 0 <= i < |steps| ==> Clean(c, states[i], steps[i])
  }

  /** At every moment of a run the store stands for the last values stored, if and only if every step is clean and none adds
    * a time again: these are all the ways in which a stored sample or value is lost, or counted twice. */
  lemma RunConservesExactly(c: Config, states: seq<State>, steps: seq<Step>, lo: int, hi: int)
    requires History(c, states, steps) && forall step :: step in steps ==> InRange(step)
    ensures AlwaysValid(c, states) && AlwaysRecordsLast(states, steps, lo, hi)
       <==> AllClean(c, states, steps) && !AddsAgain(states, steps, lo, hi)
  {
    hide Valid, Takes, Clean, AddsAgain, AlwaysRecordsLast;
    RunKeepsExactly(c, states, steps);
    RecordIsLastStored(c, states, steps, lo, hi);
  }
}

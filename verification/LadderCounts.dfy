/** The count law: what settled buckets count, and between which times, over every run, whatever values were stored or
  * replaced on the way; and when that count is the number of distinct samples. */
module LadderCounts {
  import opened Prelude
  import opened Summaries
  import opened TierFold
  import opened TimeGrid
  import opened LadderModel
  import opened LadderTables
  import opened LadderInvariant
  import opened LadderPromotion
  import opened LadderTick
  import opened LadderInsert
  import opened LadderRuns
  import opened LadderConservation
  import opened LadderPlain
  import opened LadderProgress

  /** The step loses no row: a new row does not hide a pruned one, and an L4 pass does not fold past the L3 watermark.
    * Replayed values may change and need not reach any ancestor. */
  ghost predicate KeepsRows(c: Config, s: State, step: Step) {
    match step
    case Store(sample, now) =>
      var t := sample.capturedAtMs;
      && InClock(t)
      && (t !in s.ladder.raw ==> MinuteExpired(c, s.ladder, now, t) || !HidesPrunedRow(s.ladder, t))
    case Tick(now, archived, faults) => ClockKeys(s.ladder.l2) ==> !TickOverruns(c, s.ladder, now, faults)
  }

  ghost predicate RowsKept(c: Config, states: seq<State>, steps: seq<Step>)
    requires |states| == |steps| + 1
  {
    forall i :: 0 <= i < |steps| ==> KeepsRows(c, states[i], steps[i])
  }

  predicate AddsAny(s: State, step: Step) { step.Store? && step.sample.capturedAtMs !in s.ladder.raw }

  function Plus(m: map<int, Summary>, t: int): map<int, Summary> {
    m[t := Join(At(m, t), SampleSummary(PlainSample(RawSample(t, 0.0, 0.0, 0.0, 0.0, None))))]
  }

  /** Every row added so far, by time, its values left out. */
  ghost function Added(states: seq<State>, steps: seq<Step>): map<int, Summary>
    requires |states| == |steps| + 1
  {
    if steps == [] then map[]
    else
      var n := |steps| - 1;
      var before := Added(states[..n + 1], steps[..n]);
      if AddsAny(states[n], steps[n]) then Plus(before, steps[n].sample.capturedAtMs) else before
  }

  // ---------- The ladder without values ----------

  lemma PlainStore(c: Config, l: Ladder, log: Log, sample: RawSample, now: int)
    requires Valid(c, Plain(l), log) && log.clock <= now && InClock(sample.capturedAtMs)
    requires var t := sample.capturedAtMs; t !in l.raw ==> MinuteExpired(c, l, now, t) || !HidesPrunedRow(l, t)
    ensures var t := sample.capturedAtMs;
            Valid(c, Plain(InsertSample(c, l, sample, now).0),
                  Log(if t !in l.raw then Plus(log.recorded, t) else log.recorded, now))
  {
    var t := sample.capturedAtMs;
    PlainChecks(c, l, now, t);
    PlainReplay(c, l, log, t);
    hide Valid, InsertSample, Partial, HidesPrunedRow, MinuteExpired, CorrectionReaches, MinuteTakes, InClock, SampleSummary,
         Join;
    InsertKeeps(c, Plain(l), log, PlainSample(sample), now);
    PlainInsert(c, l, sample, now);
  }

  lemma PlainReplay(c: Config, l: Ladder, log: Log, t: int)
    requires Valid(c, Plain(l), log)
    ensures t in Plain(l).raw <==> t in l.raw
    ensures t in l.raw ==> Plain(l).raw[t] == PlainSample(RawSample(t, 0.0, 0.0, 0.0, 0.0, None))
  {
    hide TiersExact, TiersBacked, RawFits, WellFormed, LogShaped, InClock;
    if t in l.raw {
      assert t in Plain(l).raw;
    }
  }

  lemma PlainStep(c: Config, s: State, step: Step, t: State, m: map<int, Summary>)
    requires Valid(c, Plain(s.ladder), Log(m, s.log.clock)) && Takes(c, s, step, t) && KeepsRows(c, s, step)
    ensures Valid(c, Plain(t.ladder),
                  Log(if AddsAny(s, step) then Plus(m, step.sample.capturedAtMs) else m, t.log.clock))
  {
    hide Valid, InsertSample, Maintain, HidesPrunedRow, MinuteExpired, InClock, Plus, ClockKeys, TickOverruns, Plain, Record;
    match step
    case Store(sample, now) => PlainStore(c, s.ladder, Log(m, s.log.clock), sample, now);
    case Tick(now, archived, faults) =>
      PlainMaintain(c, s.ladder, now, archived, faults);
      PlainOverruns(c, s.ladder, now, faults);
      TickKeeps(c, Plain(s.ladder), Log(m, s.log.clock), now, archived, faults);
  }

  /** Along a run that loses no row, the ladder without values satisfies the whole invariant for the rows added. */
  lemma {:induction false} PlainRunKeeps(c: Config, states: seq<State>, steps: seq<Step>)
    requires History(c, states, steps) && RowsKept(c, states, steps)
    ensures Valid(c, Plain(states[|steps|].ladder), Log(Added(states, steps), states[|steps|].log.clock))
    decreases |steps|
  {
    hide Valid, Takes, KeepsRows, Plain, AddsAny, Plus;
    if steps == [] {
      PlainEmpty();
      EmptyIsValid(c, states[0].log.clock);
    } else {
      var n := |steps| - 1;
      PlainRunKeeps(c, states[..n + 1], steps[..n]);
      PlainStep(c, states[n], steps[n], states[n + 1], Added(states[..n + 1], steps[..n]));
    }
  }

  lemma PlainEmpty()
    ensures Plain(EMPTY_LADDER) == EMPTY_LADDER
  {
    assert PlainTable(map[]) == map[] && PlainRaw(map[]) == map[];
  }

  // ---------- What was added ----------

  /** The times in a range at which a step added a row. */
  ghost function AddedTimes(states: seq<State>, steps: seq<Step>, lo: int, hi: int): set<int>
    requires |states| == |steps| + 1
  {
    set i | 0 <= i < |steps| && AddsRow(states[i], steps[i], lo, hi) :: steps[i].sample.capturedAtMs
  }

  lemma AddedTimesStep(states: seq<State>, steps: seq<Step>, lo: int, hi: int)
    requires |states| == |steps| + 1 && steps != []
    ensures var n := |steps| - 1;
            AddedTimes(states, steps, lo, hi) == AddedTimes(states[..n + 1], steps[..n], lo, hi) +
              (if AddsRow(states[n], steps[n], lo, hi) then {steps[n].sample.capturedAtMs} else {})
  {
    var n := |steps| - 1;
    var before, now := AddedTimes(states[..n + 1], steps[..n], lo, hi), AddedTimes(states, steps, lo, hi);
    forall t | t in before
      ensures t in now
    {
      var i :| 0 <= i < n && AddsRow(states[..n + 1][i], steps[..n][i], lo, hi) && steps[..n][i].sample.capturedAtMs == t;
      assert AddsRow(states[i], steps[i], lo, hi);
    }
    forall t | t in now
      ensures t in before || (AddsRow(states[n], steps[n], lo, hi) && t == steps[n].sample.capturedAtMs)
    {
      var i :| 0 <= i < |steps| && AddsRow(states[i], steps[i], lo, hi) && steps[i].sample.capturedAtMs == t;
      if i < n {
        assert states[..n + 1][i] == states[i] && steps[..n][i] == steps[i];
      }
    }
  }

  /** The record of the rows added holds, in every range, as many samples as rows were added there, at those times. */
  lemma {:induction false} AddedCounts(states: seq<State>, steps: seq<Step>, lo: int, hi: int)
    requires |states| == |steps| + 1
    ensures Sum(Added(states, steps), lo, hi).Count() == NewRows(states, steps, lo, hi)
    ensures forall t :: lo <= t < hi ==> (t in Added(states, steps) <==> t in AddedTimes(states, steps, lo, hi))
    ensures OfTheirTimes(Added(states, steps))
    decreases |steps|
  {
    hide Sum, Plus, OfTheirTimes;
    if steps == [] {
      SumNone(map[], lo, hi);
      NothingTimed();
    } else {
      var n := |steps| - 1;
      AddedCounts(states[..n + 1], steps[..n], lo, hi);
      AddedTimesStep(states, steps, lo, hi);
      hide AddedTimes;
      if AddsAny(states[n], steps[n]) {
        PlusCounts(Added(states[..n + 1], steps[..n]), steps[n].sample.capturedAtMs, lo, hi);
      }
    }
  }

  /** Every entry was captured at its own time. */
  ghost predicate OfTheirTimes(m: map<int, Summary>) {
    forall t :: t in m ==> m[t].Of? && m[t].count > 0 && m[t].first == t && m[t].newest == t
  }

  lemma NothingTimed()
    ensures OfTheirTimes(map[])
  {
  }

  lemma PlusCounts(m: map<int, Summary>, t: int, lo: int, hi: int)
    requires OfTheirTimes(m)
    ensures OfTheirTimes(Plus(m, t)) && Plus(m, t).Keys == m.Keys + {t}
    ensures Sum(Plus(m, t), lo, hi).Count() == Sum(m, lo, hi).Count() + (if lo <= t < hi then 1 else 0)
  {
    hide Sum;
    var sample := SampleSummary(PlainSample(RawSample(t, 0.0, 0.0, 0.0, 0.0, None)));
    if lo <= t < hi {
      SumJoinAt(m, Plus(m, t), lo, hi, t, sample);
    } else {
      SumElsewhere(m, Plus(m, t), t, lo, hi);
    }
  }

  /** The first and newest time of a range are the least and greatest time it has an entry at. */
  lemma {:induction false} TimesOfSum(m: map<int, Summary>, lo: int, hi: int)
    requires OfTheirTimes(m)
    ensures var s := Sum(m, lo, hi);
            && (s.Empty? <==> forall t :: lo <= t < hi ==> t !in m)
            && (s.Of? ==>
                  && lo <= s.first < hi && s.first in m && lo <= s.newest < hi && s.newest in m
                  && forall t :: lo <= t < hi && t in m ==> s.first <= t <= s.newest)
    decreases hi - lo
  {
    if lo < hi {
      TimesOfSum(m, lo, hi - 1);
    }
  }

  // ---------- The law ----------

  /** The bucket at `k` is there exactly when a row was added in its range; it counts the rows added there, and its first
    * and newest times are those of the earliest and the latest of them. */
  ghost predicate CountsExactly(table: Table, w: int, k: int, states: seq<State>, steps: seq<Step>)
    requires |states| == |steps| + 1
  {
    var times := AddedTimes(states, steps, k, k + w);
    && (k in table <==> times != {})
    && (if k in table then table[k].sampleCount else 0) == NewRows(states, steps, k, k + w)
    && (k in table ==>
          && table[k].firstCapturedAtMs in times && table[k].newestCapturedAtMs in times
          && forall t :: t in times ==> table[k].firstCapturedAtMs <= t <= table[k].newestCapturedAtMs)
  }

  lemma PlainTile(table: Table, w: int, k: int, states: seq<State>, steps: seq<Step>)
    requires |states| == |steps| + 1
    requires Tile(PlainTable(table), k) == Sum(Added(states, steps), k, k + w)
    ensures CountsExactly(table, w, k, states, steps)
  {
    hide Added, Sum, NewRows;
    AddedCounts(states, steps, k, k + w);
    TimesOfSum(Added(states, steps), k, k + w);
    TimesInRange(states, steps, k, k + w);
    assert k in PlainTable(table) <==> k in table;
  }

  lemma TimesInRange(states: seq<State>, steps: seq<Step>, lo: int, hi: int)
    requires |states| == |steps| + 1
    ensures forall t :: t in AddedTimes(states, steps, lo, hi) ==> lo <= t < hi
  {
  }

  /** Whatever values were stored or replaced: at the end of every run that loses no row, each settled five-minute and
    * hourly bucket counts the rows added in its range, however they arrived and however often finer tiers were pruned. */
  lemma CountConservation(c: Config, states: seq<State>, steps: seq<Step>, tier: Tier, k: int)
    requires History(c, states, steps) && RowsKept(c, states, steps)
    requires tier == L3 || tier == L4
    requires Settled(c, states[|steps|].ladder, states[|steps|].log.clock, tier, k)
    ensures CountsExactly(states[|steps|].ladder.Rows(tier), tier.ResolutionMs(), k, states, steps)
  {
    hide Valid, Settled, CountsExactly, Takes, Starts, RowsKept, PlainTable, Sum, Plain, Tile;
    PlainRunKeeps(c, states, steps);
    var l, log := states[|steps|].ladder, Log(Added(states, steps), states[|steps|].log.clock);
    SettledTile(c, l, log, tier, k);
    PlainTile(l.Rows(tier), tier.ResolutionMs(), k, states, steps);
  }

  lemma SettledTile(c: Config, l: Ladder, log: Log, tier: Tier, k: int)
    requires Valid(c, Plain(l), log) && (tier == L3 || tier == L4) && Settled(c, l, log.clock, tier, k)
    ensures Tile(PlainTable(l.Rows(tier)), k) == Sum(log.recorded, k, k + tier.ResolutionMs())
  {
    assert Mark(Plain(l), tier) == Mark(l, tier) && L3Horizon(c, Plain(l), log.clock) == L3Horizon(c, l, log.clock);
  }

  /** The same for a minute that has not expired. */
  lemma MinuteCountConservation(c: Config, states: seq<State>, steps: seq<Step>, k: int)
    requires History(c, states, steps) && RowsKept(c, states, steps)
    requires Aligned(60_000, k) && InClock(k)
    requires k + 60_000 > L2Horizon(c, states[|steps|].ladder, states[|steps|].log.clock)
    ensures CountsExactly(states[|steps|].ladder.l2, 60_000, k, states, steps)
  {
    PlainRunKeeps(c, states, steps);
    var l := states[|steps|].ladder;
    ClockBounds(60_000, k);
    assert L2Horizon(c, Plain(l), states[|steps|].log.clock) == L2Horizon(c, l, states[|steps|].log.clock);
    assert Tile(PlainTable(l.l2), k) == Sum(Added(states, steps), k, k + 60_000);
    PlainTile(l.l2, 60_000, k, states, steps);
  }

  /** With both tiers on, L4 never runs ahead of L3, whatever values were stored or replaced. */
  lemma MarksStayNested(c: Config, states: seq<State>, steps: seq<Step>)
    requires History(c, states, steps) && RowsKept(c, states, steps) && c.l3.enabled && c.l4.enabled
    ensures var l := states[|steps|].ladder;
            l.l4FoldedUntil.Some? ==> l.l3FoldedUntil.Some? && l.l4FoldedUntil.value <= l.l3FoldedUntil.value
  {
    hide Takes, Starts, KeepsRows, TiersExact, TiersBacked, RawFits, Shaped;
    PlainRunKeeps(c, states, steps);
    assert MarksNest(c, Plain(states[|steps|].ladder));
  }

  // ---------- Rows and distinct samples ----------

  /** The times in a range that were ever stored, on time, late or again. */
  function StoredTimes(steps: seq<Step>, lo: int, hi: int): set<int> {
    if steps == [] then {}
    else
      var step := steps[|steps| - 1];
      StoredTimes(steps[..|steps| - 1], lo, hi) +
      (if step.Store? && lo <= step.sample.capturedAtMs < hi then {step.sample.capturedAtMs} else {})
  }

  /** Some step adds a row at a time that had been stored before, after that time's raw row was pruned. */
  ghost predicate AddsAgain(states: seq<State>, steps: seq<Step>, lo: int, hi: int)
    requires |states| == |steps| + 1
  {
    exists i :: 0 <= i < |steps| && AddsRow(states[i], steps[i], lo, hi)
                && steps[i].sample.capturedAtMs in StoredTimes(steps[..i], lo, hi)
  }

  lemma RawAfterStep(c: Config, s: State, step: Step, t: State, v: int)
    requires Takes(c, s, step, t)
    ensures v in t.ladder.raw ==> v in s.ladder.raw || (step.Store? && v == step.sample.capturedAtMs)
  {
    match step
    case Store(sample, now) =>
      hide InsertSample;
      RefoldsLeaveRaw(c, s.ladder, sample, now);
    case Tick(now, archived, faults) =>
      hide PromoteL3, PromoteL4, ClockKeys, L2Cutoff, L3Cutoff, L4Cutoff, Prune, Drop;
      PromotionsKeepKeys(c, WithFlags(c, s.ladder, faults), now, faults);
  }

  lemma RefoldOneLeavesRaw(l: Ladder, source: Tier, target: Tier, start: int, now: int, keepDays: int, b: TierBucket,
                           newRow: bool)
    requires Promotes(source, target)
    ensures RefoldOne(l, source, target, start, now, keepDays, b, newRow).raw == l.raw
  {
    hide Fold, RowsIn, TotalCount, KeepMs;
  }

  lemma RefoldsLeaveRaw(c: Config, l: Ladder, sample: RawSample, now: int)
    ensures InsertSample(c, l, sample, now).0.raw == StoredRaw(l, sample)
  {
    hide Updated, UpdateMinute, BucketStartFor, RefoldOne, RawToBucket, InsertSample;
    var u, t, b, newRow := WithMinute(l, sample), sample.capturedAtMs, RawToBucket(sample), sample.capturedAtMs !in l.raw;
    var mid := RefoldL3(c, u, t, now, b, newRow);
    InsertIs(c, l, sample, now);
    RefoldOneLeavesRaw(u, L2, L3, BucketStartFor(300_000, t), now, c.l2KeepDays, b, newRow);
    RefoldOneLeavesRaw(mid, L3, L4, BucketStartFor(3_600_000, t), now, c.l3.keepDays, b, newRow);
    RefoldOneLeavesRaw(mid, L2, L4, BucketStartFor(3_600_000, t), now, c.l2KeepDays, b, newRow);
  }

  /** Every raw row was stored by some step. */
  lemma {:induction false} RawWasStored(c: Config, states: seq<State>, steps: seq<Step>, lo: int, hi: int, t: int)
    requires History(c, states, steps) && lo <= t < hi && t in states[|steps|].ladder.raw
    ensures t in StoredTimes(steps, lo, hi)
    decreases |steps|
  {
    hide Takes;
    if steps != [] {
      var n := |steps| - 1;
      RawAfterStep(c, states[n], steps[n], states[n + 1], t);
      if t in states[n].ladder.raw {
        RawWasStored(c, states[..n + 1], steps[..n], lo, hi, t);
      }
    }
  }

  /** Rows added never fall short of the distinct times stored, and exceed them exactly when a time was added again. */
  lemma {:induction false} RowsAndTimes(c: Config, states: seq<State>, steps: seq<Step>, lo: int, hi: int)
    requires History(c, states, steps)
    ensures NewRows(states, steps, lo, hi) >= |StoredTimes(steps, lo, hi)|
    ensures NewRows(states, steps, lo, hi) == |StoredTimes(steps, lo, hi)| <==> !AddsAgain(states, steps, lo, hi)
    decreases |steps|
  {
    hide Takes, AddsAgain;
    if steps == [] {
      NoneAgain(states, lo, hi);
    } else {
      var n := |steps| - 1;
      RowsAndTimes(c, states[..n + 1], steps[..n], lo, hi);
      AgainStep(states, steps, lo, hi);
      var step := steps[n];
      if step.Store? && lo <= step.sample.capturedAtMs < hi && step.sample.capturedAtMs in states[n].ladder.raw {
        RawWasStored(c, states[..n + 1], steps[..n], lo, hi, step.sample.capturedAtMs);
      }
      if step.Store? {
        OneMore(StoredTimes(steps[..n], lo, hi), step.sample.capturedAtMs);
      }
    }
  }

  lemma OneMore(s: set<int>, t: int)
    ensures |s + {t}| == |s| + (if t in s then 0 else 1)
  {
    if t in s {
      assert s + {t} == s;
    }
  }

  lemma NoneAgain(states: seq<State>, lo: int, hi: int)
    requires |states| == 1
    ensures !AddsAgain(states, [], lo, hi)
  {
  }

  lemma AgainStep(states: seq<State>, steps: seq<Step>, lo: int, hi: int)
    requires |states| == |steps| + 1 && steps != []
    ensures var n := |steps| - 1;
            AddsAgain(states, steps, lo, hi) <==>
              || AddsAgain(states[..n + 1], steps[..n], lo, hi)
              || (AddsRow(states[n], steps[n], lo, hi)
                  && steps[n].sample.capturedAtMs in StoredTimes(steps[..n], lo, hi))
  {
    hide StoredTimes;
    var n := |steps| - 1;
    forall i | 0 <= i < n
      ensures states[..n + 1][i] == states[i] && steps[..n][i] == steps[i] && steps[..n][..i] == steps[..i]
    {
    }
    if AddsAgain(states, steps, lo, hi) {
      var i :| 0 <= i < |steps| && AddsRow(states[i], steps[i], lo, hi)
               && steps[i].sample.capturedAtMs in StoredTimes(steps[..i], lo, hi);
      if i < n {
        assert AddsRow(states[..n + 1][i], steps[..n][i], lo, hi);
      }
    }
    if AddsAgain(states[..n + 1], steps[..n], lo, hi) {
      var i :| 0 <= i < n && AddsRow(states[..n + 1][i], steps[..n][i], lo, hi)
               && steps[..n][i].sample.capturedAtMs in StoredTimes(steps[..n][..i], lo, hi);
      assert AddsRow(states[i], steps[i], lo, hi);
    }
  }

  /** The count of a settled bucket is the number of distinct samples stored in its range if and only if no time in the
    * range was added again after its raw row had been pruned. */
  lemma DistinctCountExactly(c: Config, states: seq<State>, steps: seq<Step>, tier: Tier, k: int)
    requires History(c, states, steps) && RowsKept(c, states, steps)
    requires tier == L3 || tier == L4
    requires Settled(c, states[|steps|].ladder, states[|steps|].log.clock, tier, k)
    ensures var table := states[|steps|].ladder.Rows(tier);
            ((if k in table then table[k].sampleCount else 0) == |StoredTimes(steps, k, k + tier.ResolutionMs())|
             <==> !AddsAgain(states, steps, k, k + tier.ResolutionMs()))
  {
    hide History, Settled, AddsAgain, StoredTimes, NewRows, AddedTimes;
    CountConservation(c, states, steps, tier, k);
    RowsAndTimes(c, states, steps, k, k + tier.ResolutionMs());
  }
}

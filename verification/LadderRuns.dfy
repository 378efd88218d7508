/** A whole sample insert keeps the invariant, with that sample recorded. */
module LadderRuns {
  import opened Prelude
  import opened Summaries
  import opened TierFold
  import opened TimeGrid
  import opened LadderModel
  import opened LadderTables
  import opened LadderInvariant
  import opened LadderPromotion
  import opened LadderTick
  import opened LadderInsert

  // ---------- The ancestors after an insert ----------

  /** The ladder between the update of the minute and the re-folds. */
  function WithMinute(l: Ladder, sample: RawSample): Ladder {
    l.(raw := StoredRaw(l, sample), l2 := Updated(l, sample).0)
  }

  /** The five minutes of `t`, if folded and not expired, are re-folded from their minutes or have the same total as before. */
  ghost predicate FiveReached(c: Config, u: Ladder, m: map<int, Summary>, n: map<int, Summary>, now: int, t: int) {
    var five := BucketStartFor(300_000, t);
    FoldedInto(300_000, t, u.l3FoldedUntil, L3Horizon(c, u, now)) ==>
      FiveMinutesAreRead(c, now, five) || Sum(n, five, five + 300_000) == Sum(m, five, five + 300_000)
  }

  /** The same for its hour. */
  ghost predicate HourReached(c: Config, u: Ladder, m: map<int, Summary>, n: map<int, Summary>, now: int, t: int) {
    var hour := BucketStartFor(3_600_000, t);
    FoldedInto(3_600_000, t, u.l4FoldedUntil, L4Horizon(c, now)) ==>
      HourIsRead(c, u, now, hour) || Sum(n, hour, hour + 3_600_000) == Sum(m, hour, hour + 3_600_000)
  }

  ghost predicate TotalsReached(c: Config, u: Ladder, m: map<int, Summary>, n: map<int, Summary>, now: int, t: int) {
    FiveReached(c, u, m, n, now, t) && HourReached(c, u, m, n, now, t)
  }

  /** The record changed at the time of the sample only. */
  ghost predicate RecordedOnce(m: map<int, Summary>, n: map<int, Summary>, t: int) {
    InClock(t) && OnlyAt(m, n, t) && t in n && Positive(n)
  }

  /** How the record changed, as the re-folds are told of it. */
  ghost predicate Recorded(c: Config, u: Ladder, m: map<int, Summary>, n: map<int, Summary>, sample: RawSample,
                           now: int, newRow: bool) {
    var t := sample.capturedAtMs;
    && RecordedOnce(m, n, t)
    && (if newRow then At(n, t) == Join(At(m, t), SampleSummary(sample)) else TotalsReached(c, u, m, n, now, t))
  }

  /** As much of it as the re-fold of the hour needs. */
  ghost predicate HourRecorded(c: Config, u: Ladder, m: map<int, Summary>, n: map<int, Summary>, sample: RawSample,
                               now: int, newRow: bool) {
    var t := sample.capturedAtMs;
    && RecordedOnce(m, n, t)
    && (if newRow then At(n, t) == Join(At(m, t), SampleSummary(sample)) else HourReached(c, u, m, n, now, t))
  }

  /** A re-fold from a tier that holds nothing adds a new row to what the target had, and else leaves it. */
  lemma RefoldFromNothing(u: Ladder, t: int, now: int, keepDays: int, sample: RawSample, newRow: bool, m: map<int, Summary>,
                          n: map<int, Summary>, horizon: int, until: int)
    requires InClock(t) && u.l3 == map[] && Shaped(u.l4, 3_600_000)
    requires Exact(u.l4, m, 3_600_000, horizon, until) && OnlyAt(m, n, t)
    requires newRow ==> At(n, t) == Join(At(m, t), SampleSummary(sample))
    requires var start := BucketStartFor(3_600_000, t);
             newRow || start + 3_600_000 <= horizon || Sum(n, start, start + 3_600_000) == Sum(m, start, start + 3_600_000)
    ensures var start := BucketStartFor(3_600_000, t);
            var r := RefoldOne(u, L3, L4, start, now, keepDays, RawToBucket(sample), newRow);
            && r == u.(l4 := r.l4) && Shaped(r.l4, 3_600_000)
            && (forall k :: k != start ==> Tile(r.l4, k) == Tile(u.l4, k))
            && Exact(r.l4, n, 3_600_000, horizon, until)
  {
    hide Exact, BucketStartFor, InClock, Sum, Join, SampleSummary, KeepMs, RefoldOne, Tile, OnlyAt, At, RawToBucket;
    var start := BucketStartFor(3_600_000, t);
    var r := RefoldOne(u, L3, L4, start, now, keepDays, RawToBucket(sample), newRow);
    assert Abstract(u.l3) == map[];
    NothingRecorded(start, start + 3_600_000);
    RefoldOutcome(u, L3, L4, t, now, keepDays, sample, newRow);
    BucketAround(3_600_000, t);
    OldTile(u.l4, m, 3_600_000, horizon, until, start);
    if newRow {
      JoinedSum(m, n, t, start, start + 3_600_000, SampleSummary(sample));
    }
    WriteTile(u.l4, r.l4, m, n, 3_600_000, t, start, horizon, until);
  }

  lemma NothingRecorded(lo: int, hi: int)
    ensures Sum(map[], lo, hi) == Empty
  {
    SumNone(map[], lo, hi);
  }

  lemma RefoldL3Keeps(c: Config, u: Ladder, m: map<int, Summary>, n: map<int, Summary>, sample: RawSample, now: int, newRow: bool)
    requires WellFormed(c, u) && Recorded(c, u, m, n, sample, now, newRow)
    requires Exact(u.l2, n, 60_000, L2Horizon(c, u, now), I64_MAX)
    requires Exact(u.l3, m, 300_000, L3Horizon(c, u, now), Mark(u, L3)) && Backed(u.l3, m, 300_000)
    ensures var r := RefoldL3(c, u, sample.capturedAtMs, now, RawToBucket(sample), newRow);
            && r == u.(l3 := r.l3)
            && Shaped(r.l3, 300_000) && Backed(r.l3, n, 300_000)
            && Exact(r.l3, n, 300_000, L3Horizon(c, u, now), Mark(u, L3))
            && (u.l3FoldedUntil.None? ==> r.l3 == u.l3)
  {
    hide Exact, Backed, Shaped, InClock, BucketStartFor, Sum, OnlyAt, At, Join, SampleSummary, RefoldOne, KeepMs, Aligned,
         RawToBucket, Tile, Positive, SatSub;
    var t := sample.capturedAtMs;
    var start := BucketStartFor(300_000, t);
    var r := RefoldL3(c, u, t, now, RawToBucket(sample), newRow);
    BucketAround(300_000, t);
    if Behind(start, u.l3FoldedUntil) {
      ClockBounds(300_000, start);
      RefoldExact(u, L2, L3, t, now, c.l2KeepDays, sample, newRow, m, n, L2Horizon(c, u, now), I64_MAX,
                  L3Horizon(c, u, now), Mark(u, L3));
    } else {
      WriteTile(u.l3, u.l3, m, n, 300_000, t, start, L3Horizon(c, u, now), Mark(u, L3));
    }
    BackedAfter(u.l3, r.l3, m, n, 300_000, t, start);
  }

  lemma RefoldL4Keeps(c: Config, u: Ladder, m: map<int, Summary>, n: map<int, Summary>, sample: RawSample, now: int, newRow: bool)
    requires WellFormed(c, u) && HourRecorded(c, u, m, n, sample, now, newRow)
    requires Exact(u.l2, n, 60_000, L2Horizon(c, u, now), I64_MAX)
    requires Exact(u.l3, n, 300_000, L3Horizon(c, u, now), Mark(u, L3))
    requires Exact(u.l4, m, 3_600_000, L4Horizon(c, now), Mark(u, L4)) && Backed(u.l4, m, 3_600_000)
    ensures var r := RefoldL4(c, u, sample.capturedAtMs, now, RawToBucket(sample), newRow);
            && r == u.(l4 := r.l4)
            && Shaped(r.l4, 3_600_000) && Backed(r.l4, n, 3_600_000)
            && Exact(r.l4, n, 3_600_000, L4Horizon(c, now), Mark(u, L4))
  {
    hide Exact, Backed, Shaped, InClock, BucketStartFor, Sum, OnlyAt, At, Join, SampleSummary, RefoldOne, KeepMs, Aligned,
         RawToBucket, Tile, Positive, SatSub;
    var t := sample.capturedAtMs;
    var start := BucketStartFor(3_600_000, t);
    var r := RefoldL4(c, u, t, now, RawToBucket(sample), newRow);
    BucketAround(3_600_000, t);
    if Behind(start, u.l4FoldedUntil) {
      ClockBounds(3_600_000, start);
      AlignedInside(3_600_000, start, Mark(u, L4));
      if u.l3Enabled.UnwrapOr(true) && !c.l3.enabled {
        RefoldFromNothing(u, t, now, c.l3.keepDays, sample, newRow, m, n, L4Horizon(c, now), Mark(u, L4));
      } else if c.l3.enabled {
        RefoldExact(u, L3, L4, t, now, c.l3.keepDays, sample, newRow, m, n, L3Horizon(c, u, now), Mark(u, L3),
                    L4Horizon(c, now), Mark(u, L4));
      } else {
        RefoldExact(u, L2, L4, t, now, c.l2KeepDays, sample, newRow, m, n, L2Horizon(c, u, now), I64_MAX,
                    L4Horizon(c, now), Mark(u, L4));
      }
    } else {
      WriteTile(u.l4, u.l4, m, n, 3_600_000, t, start, L4Horizon(c, now), Mark(u, L4));
    }
    BackedAfter(u.l4, r.l4, m, n, 3_600_000, t, start);
  }

  /** In a complete minute the record of a timestamp is its raw row. */
  lemma CompleteMinute(c: Config, l: Ladder, log: Log, t: int)
    requires Valid(c, l, log) && InClock(t) && t in l.raw
    requires !Partial(l, t) && !MinuteExpired(c, l, log.clock, t)
    ensures At(log.recorded, t) == SampleSummary(l.raw[t])
  {
    BucketAround(60_000, t);
    MinuteKnown(l, log.recorded, L2Horizon(c, l, log.clock), t);
    hide BucketStartFor, InClock, Exact, RawFits, Backed, SampleSummary, L2Cutoff;
    RowsAgree(l, log.recorded, MinuteOf(t));
    assert At(RawAbstract(l.raw), t) == SampleSummary(l.raw[t]);
  }

  lemma RowsAgree(l: Ladder, m: map<int, Summary>, minute: int)
    requires Positive(m) && MinuteFits(l.raw, m, minute)
    requires Tile(l.l2, minute) == Sum(m, minute, minute + 60_000)
    requires minute in l.l2 ==> l.l2[minute].sampleCount <= RowCount(l.raw, minute)
    ensures AgreeOn(RawAbstract(l.raw), m, minute, minute + 60_000)
  {
    hide Sum, RawIn, SampleSummary;
    RawTotal(l.raw, minute, minute + 60_000);
    SumCountNonNegative(m, minute, minute + 60_000);
  }

  // ---------- One insert ----------

  /** What a clean insert records, in terms of totals. */
  lemma CleanTotals(c: Config, l: Ladder, log: Log, sample: RawSample)
    requires Valid(c, l, log) && CleanInsert(c, l, log.recorded, sample, log.clock)
    ensures KeptRight(l, log.recorded, sample, L2Horizon(c, l, log.clock))
    ensures sample.capturedAtMs in l.raw ==>
              TotalsReached(c, l, log.recorded, Record(log.recorded, l, sample), log.clock, sample.capturedAtMs)
  {
    var t, m := sample.capturedAtMs, log.recorded;
    hide Exact, RawFits, Backed, Shaped, LeavesRange, Sum, RowCount, BucketStartFor, InClock, FoldedInto, HourIsRead,
         FiveMinutesAreRead, HidesPrunedRow, L2Cutoff, L3Cutoff, SampleSummary;
    if ChangedReplay(l, sample) {
      var five, hour := BucketStartFor(300_000, t), BucketStartFor(3_600_000, t);
      BucketAround(60_000, t);
      BucketAround(300_000, t);
      BucketAround(3_600_000, t);
      LeavesRangeExactly(m, sample, MinuteOf(t), MinuteOf(t) + 60_000);
      LeavesRangeExactly(m, sample, five, five + 300_000);
      LeavesRangeExactly(m, sample, hour, hour + 3_600_000);
    }
  }

  lemma MinuteInPlace(c: Config, l: Ladder, log: Log, sample: RawSample)
    requires Valid(c, l, log) && CleanInsert(c, l, log.recorded, sample, log.clock)
    ensures var u := WithMinute(l, sample);
            var n := Record(log.recorded, l, sample);
            var horizon := L2Horizon(c, l, log.clock);
            && MinuteTier(u.l2, u.raw, n, horizon)
            && Updated(l, sample).1 != Refused
            && (Updated(l, sample).1 == Kept <==> sample.capturedAtMs in l.raw && Partial(l, sample.capturedAtMs))
            && LogShaped(n) && RawShaped(u.raw, n)
            && L2Horizon(c, u, log.clock) == horizon && L3Horizon(c, u, log.clock) == L3Horizon(c, l, log.clock)
            && WellFormed(c, u)
  {
    CleanTotals(c, l, log, sample);
    hide Exact, RawFits, Backed, Updated, Record, Partial, CorrectionReaches, MinuteTakes, KeptRight;
    UpdatedKeeps(l, log.recorded, sample, L2Horizon(c, l, log.clock));
    hide HidesPrunedRow;
    RecordShaped(log.recorded, l, sample);
  }

  lemma RecordedFor(c: Config, l: Ladder, log: Log, sample: RawSample)
    requires Valid(c, l, log) && CleanInsert(c, l, log.recorded, sample, log.clock)
    ensures Recorded(c, WithMinute(l, sample), log.recorded, Record(log.recorded, l, sample), sample, log.clock,
                     sample.capturedAtMs !in l.raw)
  {
    CleanTotals(c, l, log, sample);
    hide Exact, RawFits, Backed, Updated, MinuteOf, RowCount, BucketStartFor, SampleSummary, Sum, LeavesRange;
    RecordShaped(log.recorded, l, sample);
  }

  lemma AncestorsKeep(c: Config, l: Ladder, log: Log, sample: RawSample)
    requires Valid(c, l, log) && CleanInsert(c, l, log.recorded, sample, log.clock)
    requires Updated(l, sample).1 != Kept
    ensures var r := RefoldAncestors(c, WithMinute(l, sample), sample.capturedAtMs, log.clock, RawToBucket(sample),
                                     sample.capturedAtMs !in l.raw);
            Valid(c, r, log.(recorded := Record(log.recorded, l, sample))) && r.l2 == WithMinute(l, sample).l2
  {
    hide Valid, MinuteTier, Recorded, WithMinute, Record, Updated, LogShaped, RawShaped, WellFormed, RefoldAncestors,
         CleanInsert, L2Cutoff;
    MinuteInPlace(c, l, log, sample);
    RecordedFor(c, l, log, sample);
    MinuteChanges(l, sample);
    RefoldsKeep(c, l, log, WithMinute(l, sample), Record(log.recorded, l, sample), sample, sample.capturedAtMs !in l.raw);
  }

  lemma MinuteChanges(l: Ladder, sample: RawSample)
    ensures var u := WithMinute(l, sample); u == l.(raw := u.raw, l2 := u.l2)
  {
  }

  /** The re-folds put every coarser tier right, once the minute is. */
  lemma RefoldsKeep(c: Config, l: Ladder, log: Log, u: Ladder, n: map<int, Summary>, sample: RawSample, newRow: bool)
    requires Valid(c, l, log) && WellFormed(c, u) && u == l.(raw := u.raw, l2 := u.l2)
    requires MinuteTier(u.l2, u.raw, n, L2Horizon(c, l, log.clock)) && LogShaped(n) && RawShaped(u.raw, n)
    requires Recorded(c, u, log.recorded, n, sample, log.clock, newRow)
    ensures var r := RefoldAncestors(c, u, sample.capturedAtMs, log.clock, RawToBucket(sample), newRow);
            Valid(c, r, log.(recorded := n)) && r.l2 == u.l2
  {
    var m, now := log.recorded, log.clock;
    CoarseTiers(c, l, log, u);
    hide Exact, RawFits, RawShaped, Backed, Shaped, Recorded, HourRecorded, RefoldL3, RefoldL4, L2Cutoff, L3Cutoff, Valid,
         WellFormed, LogShaped;
    RefoldL3Keeps(c, u, m, n, sample, now, newRow);
    var v := RefoldL3(c, u, sample.capturedAtMs, now, RawToBucket(sample), newRow);
    SameForL4(c, u, v, m, n, sample, now, newRow);
    RefoldL4Keeps(c, v, m, n, sample, now, newRow);
    var r := RefoldL4(c, v, sample.capturedAtMs, now, RawToBucket(sample), newRow);
    ValidAgain(c, v, r, log.(recorded := n));
  }

  /** The invariant's claims on the coarser tiers, which the minute update leaves alone. */
  lemma CoarseTiers(c: Config, l: Ladder, log: Log, u: Ladder)
    requires Valid(c, l, log) && u == l.(raw := u.raw, l2 := u.l2)
    ensures Exact(u.l3, log.recorded, 300_000, L3Horizon(c, u, log.clock), Mark(u, L3))
    ensures Exact(u.l4, log.recorded, 3_600_000, L4Horizon(c, log.clock), Mark(u, L4))
    ensures Backed(u.l3, log.recorded, 300_000) && Backed(u.l4, log.recorded, 3_600_000)
  {
    hide Exact, Backed, RawFits;
  }

  /** The parts of the invariant, put together after the last re-fold. */
  lemma ValidAgain(c: Config, v: Ladder, r: Ladder, log: Log)
    requires WellFormed(c, v) && r == v.(l4 := r.l4) && Shaped(r.l4, 3_600_000)
    requires LogShaped(log.recorded) && RawShaped(r.raw, log.recorded)
    requires MinuteTier(r.l2, r.raw, log.recorded, L2Horizon(c, v, log.clock))
    requires Backed(r.l3, log.recorded, 300_000) && Backed(r.l4, log.recorded, 3_600_000)
    requires Exact(r.l3, log.recorded, 300_000, L3Horizon(c, v, log.clock), Mark(v, L3))
    requires Exact(r.l4, log.recorded, 3_600_000, L4Horizon(c, log.clock), Mark(v, L4))
    ensures Valid(c, r, log)
  {
    hide Exact, Backed, RawFits, Shaped, L2Cutoff, L3Cutoff;
  }

  lemma SameForL4(c: Config, u: Ladder, v: Ladder, m: map<int, Summary>, n: map<int, Summary>, sample: RawSample,
                  now: int, newRow: bool)
    requires WellFormed(c, u) && Recorded(c, u, m, n, sample, now, newRow)
    requires v == u.(l3 := v.l3) && Shaped(v.l3, 300_000) && (u.l3FoldedUntil.None? ==> v.l3 == u.l3)
    ensures WellFormed(c, v) && HourRecorded(c, v, m, n, sample, now, newRow)
    ensures L2Horizon(c, v, now) == L2Horizon(c, u, now) && L3Horizon(c, v, now) == L3Horizon(c, u, now)
    ensures Mark(v, L3) == Mark(u, L3) && Mark(v, L4) == Mark(u, L4)
  {
    hide L2Cutoff, L3Cutoff, BucketStartFor, MinuteOf;
  }

  /** Storing a sample keeps the invariant, with that sample recorded. */
  lemma InsertKeeps(c: Config, l: Ladder, log: Log, sample: RawSample, now: int)
    requires Valid(c, l, log) && log.clock <= now
    requires CleanInsert(c, l, log.recorded, sample, now)
    ensures Valid(c, InsertSample(c, l, sample, now).0, Log(Record(log.recorded, l, sample), now))
    ensures InsertSample(c, l, sample, now).1 != Refused
  {
    var later := log.(clock := now);
    TimePasses(c, l, log, now);
    MinuteInPlace(c, l, later, sample);
    if Updated(l, sample).1 == Kept {
      KeptInsert(c, l, later, sample);
    } else {
      AncestorsKeep(c, l, later, sample);
    }
    InsertIs(c, l, sample, now);
  }

  lemma InsertIs(c: Config, l: Ladder, sample: RawSample, now: int)
    ensures var u := WithMinute(l, sample);
            var change := Updated(l, sample).1;
            InsertSample(c, l, sample, now) ==
              (if change == Merged || change == Rebuilt
               then RefoldAncestors(c, u, sample.capturedAtMs, now, RawToBucket(sample), sample.capturedAtMs !in l.raw)
               else u, change)
  {
    hide UpdateMinute, RefoldAncestors, RawToBucket;
  }

  /** When a partial minute keeps its row, a clean replay leaves the totals of all its unexpired ancestors alone: an expired
    * minute is too old for the re-folds that would have to read it. */
  lemma KeptTotals(c: Config, l: Ladder, m: map<int, Summary>, n: map<int, Summary>, now: int, t: int)
    requires WellFormed(c, l) && InClock(t) && OnlyAt(m, n, t) && TotalsReached(c, l, m, n, now, t)
    requires MinuteOf(t) + 60_000 > L2Horizon(c, l, now) ==>
               Sum(n, MinuteOf(t), MinuteOf(t) + 60_000) == Sum(m, MinuteOf(t), MinuteOf(t) + 60_000)
    ensures var five, hour := BucketStartFor(300_000, t), BucketStartFor(3_600_000, t);
            && (FoldedInto(300_000, t, l.l3FoldedUntil, L3Horizon(c, l, now)) ==>
                  Sum(n, five, five + 300_000) == Sum(m, five, five + 300_000))
            && (FoldedInto(3_600_000, t, l.l4FoldedUntil, L4Horizon(c, now)) ==>
                  Sum(n, hour, hour + 3_600_000) == Sum(m, hour, hour + 3_600_000))
  {
    hide Sum, BucketStartFor, InClock, Shaped, KeepMs, SatSub;
    var minute, five, hour := MinuteOf(t), BucketStartFor(300_000, t), BucketStartFor(3_600_000, t);
    BucketAround(60_000, t);
    BucketAround(300_000, t);
    BucketsNest(60_000, 300_000, t);
    BucketsNest(300_000, 3_600_000, t);
    if minute + 60_000 > L2Horizon(c, l, now) {
      SameAround(m, n, t, minute, minute + 60_000, five, five + 300_000);
      SameAround(m, n, t, minute, minute + 60_000, hour, hour + 3_600_000);
    } else if FoldedInto(300_000, t, l.l3FoldedUntil, L3Horizon(c, l, now)) {
      SameAround(m, n, t, five, five + 300_000, hour, hour + 3_600_000);
    }
  }

  lemma KeptInsert(c: Config, l: Ladder, log: Log, sample: RawSample)
    requires Valid(c, l, log) && CleanInsert(c, l, log.recorded, sample, log.clock)
    requires Updated(l, sample).1 == Kept
    ensures Valid(c, WithMinute(l, sample), log.(recorded := Record(log.recorded, l, sample)))
  {
    MinuteInPlace(c, l, log, sample);
    KeptCoarse(c, l, log, sample);
    hide Exact, RawFits, Backed, Updated, Record, L2Cutoff, L3Cutoff, CleanInsert, Shaped;
  }

  /** The coarser tiers when nothing is re-folded. */
  lemma KeptCoarse(c: Config, l: Ladder, log: Log, sample: RawSample)
    requires Valid(c, l, log) && CleanInsert(c, l, log.recorded, sample, log.clock)
    requires sample.capturedAtMs in l.raw && Partial(l, sample.capturedAtMs)
    ensures var n := Record(log.recorded, l, sample);
            && Exact(l.l3, n, 300_000, L3Horizon(c, l, log.clock), Mark(l, L3))
            && Exact(l.l4, n, 3_600_000, L4Horizon(c, log.clock), Mark(l, L4))
            && Backed(l.l3, n, 300_000) && Backed(l.l4, n, 3_600_000)
  {
    hide Valid, Sum, BucketStartFor, Record, CleanInsert, Exact, Backed, Shaped, InClock, LogShaped, RawShaped, Partial,
         L2Cutoff, L3Cutoff, L4Cutoff, TotalsReached, WellFormed, KeptRight, OnlyAt, FoldedInto, Aligned;
    var t, m, n := sample.capturedAtMs, log.recorded, Record(log.recorded, l, sample);
    var five, hour := BucketStartFor(300_000, t), BucketStartFor(3_600_000, t);
    ShapeOf(c, l, log, sample);
    CleanTotals(c, l, log, sample);
    CoarseTiers(c, l, log, l);
    RecordShaped(m, l, sample);
    KeptMinuteTotal(l, m, sample, L2Horizon(c, l, log.clock));
    KeptTotals(c, l, m, n, log.clock, t);
    BucketAround(300_000, t);
    BucketAround(3_600_000, t);
    PositiveLog(n);
    StaysBacked(l.l3, m, n, 300_000, t);
    StaysBacked(l.l4, m, n, 3_600_000, t);
    MarkAhead(300_000, t, l.l3FoldedUntil, L3Horizon(c, l, log.clock));
    MarkAhead(3_600_000, t, l.l4FoldedUntil, L4Horizon(c, log.clock));
    LeftExact(l.l3, m, n, 300_000, t, five, L3Horizon(c, l, log.clock), Mark(l, L3));
    LeftExact(l.l4, m, n, 3_600_000, t, hour, L4Horizon(c, log.clock), Mark(l, L4));
  }

  lemma ShapeOf(c: Config, l: Ladder, log: Log, sample: RawSample)
    requires Valid(c, l, log) && CleanInsert(c, l, log.recorded, sample, log.clock)
    ensures WellFormed(c, l) && LogShaped(log.recorded) && RawShaped(l.raw, log.recorded) && InClock(sample.capturedAtMs)
  {
    hide WellFormed, LogShaped, RawShaped, TiersExact, TiersBacked, RawFits, MinuteTakes, CorrectionReaches, InClock;
  }

  lemma KeptMinuteTotal(l: Ladder, m: map<int, Summary>, sample: RawSample, horizon: int)
    requires KeptRight(l, m, sample, horizon) && sample.capturedAtMs in l.raw && Partial(l, sample.capturedAtMs)
    ensures var minute := MinuteOf(sample.capturedAtMs);
            minute + 60_000 > horizon ==>
              Sum(Record(m, l, sample), minute, minute + 60_000) == Sum(m, minute, minute + 60_000)
  {
    hide Sum, Record, Partial, MinuteOf;
  }

  /** A tile that a tier answers for has been folded into it and has not expired. */
  lemma MarkAhead(w: int, t: int, mark: Option<int>, horizon: int)
    requires Coarse(w) && InClock(t)
    ensures var start := BucketStartFor(w, t);
            horizon < start + w <= RequiredWatermark(mark) ==> FoldedInto(w, t, mark, horizon)
  {
    BucketAround(w, t);
    hide BucketStartFor, InClock;
  }
}

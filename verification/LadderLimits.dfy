/** Where a step of the ladder does not conserve samples: each case with its exact condition. `LadderExamples` has a run
  * from the empty store for each. */
module LadderLimits {
  import opened Prelude
  import opened Summaries
  import opened TierFold
  import opened TimeGrid
  import opened LadderModel
  import opened LadderTables
  import opened LadderInvariant
  import opened LadderPromotion
  import opened LadderTick
  import opened LadderInsert
  import opened LadderRuns
  import opened LadderConservation

  // ---------- A new row in a minute that lost exactly one ----------

  lemma RefoldOneLeavesMinutes(u: Ladder, source: Tier, target: Tier, start: int, now: int, keepDays: int, b: TierBucket,
                               newRow: bool)
    requires Promotes(source, target)
    ensures var r := RefoldOne(u, source, target, start, now, keepDays, b, newRow);
            r.l2 == u.l2 && r.l3FoldedUntil == u.l3FoldedUntil && r.l4FoldedUntil == u.l4FoldedUntil
  {
    hide Fold, RowsIn, TotalCount, KeepMs;
  }

  lemma RefoldsLeaveMinutes(c: Config, u: Ladder, t: int, now: int, newSample: TierBucket, newRow: bool)
    ensures var r := RefoldAncestors(c, u, t, now, newSample, newRow);
            r.l2 == u.l2 && r.l3FoldedUntil == u.l3FoldedUntil && r.l4FoldedUntil == u.l4FoldedUntil
  {
    hide RefoldOne, BucketStartFor;
    var mid := RefoldL3(c, u, t, now, newSample, newRow);
    RefoldOneLeavesMinutes(u, L2, L3, BucketStartFor(300_000, t), now, c.l2KeepDays, newSample, newRow);
    RefoldOneLeavesMinutes(mid, L3, L4, BucketStartFor(3_600_000, t), now, c.l3.keepDays, newSample, newRow);
    RefoldOneLeavesMinutes(mid, L2, L4, BucketStartFor(3_600_000, t), now, c.l2KeepDays, newSample, newRow);
  }

  /** The rebuilt bucket counts one sample too few. */
  lemma HiddenRowIsLost(c: Config, l: Ladder, log: Log, sample: RawSample)
    requires Valid(c, l, log) && Shaped(l.l2, 60_000) && InClock(sample.capturedAtMs)
    requires HidesPrunedRow(l, sample.capturedAtMs) && !MinuteExpired(c, l, log.clock, sample.capturedAtMs)
    ensures var t := sample.capturedAtMs;
            var minute := MinuteOf(t);
            var l2 := Updated(l, sample).0;
            && minute in l2
            && l2[minute].sampleCount + 1 == Sum(Record(log.recorded, l, sample), minute, minute + 60_000).Count()
  {
    hide Valid, HidesPrunedRow, MinuteExpired, InClock, MinuteOf, Record, Updated, Sum;
    RebuiltCount(l, sample);
    RecordGrows(c, l, log, sample);
  }

  lemma RebuiltCount(l: Ladder, sample: RawSample)
    requires Shaped(l.l2, 60_000) && InClock(sample.capturedAtMs) && HidesPrunedRow(l, sample.capturedAtMs)
    ensures var minute := MinuteOf(sample.capturedAtMs);
            minute in Updated(l, sample).0 && Updated(l, sample).0[minute].sampleCount == l.l2[minute].sampleCount
  {
    hide MinuteOf, InClock, Rebuild, Updated, RawIn, Shaped;
    RebuiltCase(l, sample);
    RebuildKeepsSamples(MinuteOf(sample.capturedAtMs), MinuteRows(l, sample));
    MinuteRowCount(l.raw, sample.capturedAtMs, sample);
  }

  lemma RecordGrows(c: Config, l: Ladder, log: Log, sample: RawSample)
    requires Valid(c, l, log) && InClock(sample.capturedAtMs)
    requires HidesPrunedRow(l, sample.capturedAtMs) && !MinuteExpired(c, l, log.clock, sample.capturedAtMs)
    ensures var minute := MinuteOf(sample.capturedAtMs);
            && Shaped(l.l2, 60_000) && minute in l.l2
            && Sum(Record(log.recorded, l, sample), minute, minute + 60_000).Count() == l.l2[minute].sampleCount + 1
  {
    var t, m := sample.capturedAtMs, log.recorded;
    var minute := MinuteOf(t);
    BucketAround(60_000, t);
    MinuteKnown(l, m, L2Horizon(c, l, log.clock), t);
    hide BucketStartFor, InClock, Exact, RawFits, Backed, SampleSummary, Sum, RowCount, L2Cutoff;
    SumJoinAt(m, Record(m, l, sample), minute, minute + 60_000, t, SampleSummary(sample));
    CountAdds(Sum(m, minute, minute + 60_000), sample);
  }

  lemma CountAdds(a: Summary, sample: RawSample)
    ensures Join(a, SampleSummary(sample)).Count() == a.Count() + 1
  {
  }

  /** Storing a new row conserves the samples of its minute, and with them the whole invariant, if and only if the
    * minute has expired or does not hide exactly one pruned row. */
  lemma NewRowConservesExactly(c: Config, l: Ladder, log: Log, sample: RawSample, now: int)
    requires Valid(c, l, log) && log.clock <= now
    requires InClock(sample.capturedAtMs) && sample.capturedAtMs !in l.raw
    ensures Valid(c, InsertSample(c, l, sample, now).0, Log(Record(log.recorded, l, sample), now))
       <==> (MinuteExpired(c, l, now, sample.capturedAtMs) || !HidesPrunedRow(l, sample.capturedAtMs))
  {
    if MinuteExpired(c, l, now, sample.capturedAtMs) || !HidesPrunedRow(l, sample.capturedAtMs) {
      InsertKeeps(c, l, log, sample, now);
    } else {
      LostRowShows(c, l, log, sample, now);
    }
  }

  lemma LostRowShows(c: Config, l: Ladder, log: Log, sample: RawSample, now: int)
    requires Valid(c, l, log) && log.clock <= now && InClock(sample.capturedAtMs)
    requires HidesPrunedRow(l, sample.capturedAtMs) && !MinuteExpired(c, l, now, sample.capturedAtMs)
    ensures !Valid(c, InsertSample(c, l, sample, now).0, Log(Record(log.recorded, l, sample), now))
  {
    hide Valid, HidesPrunedRow, InClock, MinuteOf, Record, Updated, Sum, RefoldAncestors, InsertSample, RawToBucket, L2Cutoff,
         SummaryOf;
    var t, after := sample.capturedAtMs, Log(Record(log.recorded, l, sample), now);
    TimePasses(c, l, log, now);
    MinutesShaped(c, l, log);
    HiddenRowIsLost(c, l, log.(clock := now), sample);
    RebuiltIs(l, sample);
    InsertIs(c, l, sample, now);
    RefoldsLeaveMinutes(c, WithMinute(l, sample), t, now, RawToBucket(sample), t !in l.raw);
    var r := InsertSample(c, l, sample, now).0;
    CountIs(r.l2[MinuteOf(t)]);
    if Valid(c, r, after) {
      MinuteIs(c, r, after, t);
      assert false;
    }
  }

  lemma RebuiltIs(l: Ladder, sample: RawSample)
    requires Shaped(l.l2, 60_000) && InClock(sample.capturedAtMs) && HidesPrunedRow(l, sample.capturedAtMs)
    ensures Updated(l, sample).1 == Rebuilt
  {
    RebuiltCase(l, sample);
  }

  lemma CountIs(b: TierBucket)
    ensures SummaryOf(b).Count() == b.sampleCount
  {
  }

  /** What the invariant says of the minute of `t`. */
  lemma MinuteIs(c: Config, l: Ladder, log: Log, t: int)
    requires Valid(c, l, log) && InClock(t) && !MinuteExpired(c, l, log.clock, t)
    ensures Tile(l.l2, MinuteOf(t)) == Sum(log.recorded, MinuteOf(t), MinuteOf(t) + 60_000)
  {
    MinuteKnown(l, log.recorded, L2Horizon(c, l, log.clock), t);
  }

  // ---------- A replay that changes a value ----------

  /** A changed replay reaches its folded five-minute bucket if and only if that bucket is still re-folded from minutes. */
  lemma CorrectionConservesExactly(c: Config, l: Ladder, log: Log, sample: RawSample, metric: Metric)
    requires Valid(c, l, log) && InClock(sample.capturedAtMs)
    requires sample.capturedAtMs in l.raw && sample.Get(metric) != l.raw[sample.capturedAtMs].Get(metric)
    requires !Partial(l, sample.capturedAtMs) && !MinuteExpired(c, l, log.clock, sample.capturedAtMs)
    requires var start := BucketStartFor(300_000, sample.capturedAtMs);
             Behind(start, l.l3FoldedUntil) && start + 300_000 > L3Horizon(c, l, log.clock)
    ensures var start := BucketStartFor(300_000, sample.capturedAtMs);
            var u := WithMinute(l, sample);
            var r := RefoldL3(c, u, sample.capturedAtMs, log.clock, RawToBucket(sample), false);
            (Tile(r.l3, start) == Sum(Record(log.recorded, l, sample), start, start + 300_000)
             <==> start >= SatSub(log.clock, KeepMs(c.l2KeepDays)))
  {
    var t, m, now := sample.capturedAtMs, log.recorded, log.clock;
    var n := Record(m, l, sample);
    var start := BucketStartFor(300_000, t);
    BucketAround(300_000, t);
    FoldedTile(c, l, log, start);
    hide BucketStartFor, InClock, RawFits, RawShaped, LogShaped, Shaped, Backed, Exact, SampleSummary, Sum, KeepMs, Record,
         Partial, MinuteExpired, L2Cutoff, L3Cutoff, RefoldL3;
    RecordShaped(m, l, sample);
    UpdatedKeeps(l, m, sample, L2Horizon(c, l, now));
    if start >= SatSub(now, KeepMs(c.l2KeepDays)) {
      SourcedCorrection(c, l, log, sample, n);
    } else {
      ChangedReplayMoves(c, l, log, sample, metric, start, start + 300_000);
      UnsourcedCorrection(c, WithMinute(l, sample), sample, now);
    }
  }

  lemma FoldedTile(c: Config, l: Ladder, log: Log, start: int)
    requires Valid(c, l, log) && Aligned(300_000, start) && InClock(start)
    requires Behind(start, l.l3FoldedUntil) && start + 300_000 > L3Horizon(c, l, log.clock)
    ensures Tile(l.l3, start) == Sum(log.recorded, start, start + 300_000)
    ensures Shaped(l.l2, 60_000) && Shaped(l.l3, 300_000)
  {
    AlignedInside(300_000, start, Mark(l, L3));
  }

  lemma SourcedCorrection(c: Config, l: Ladder, log: Log, sample: RawSample, n: map<int, Summary>)
    requires Valid(c, l, log) && InClock(sample.capturedAtMs)
    requires MinuteTier(Updated(l, sample).0, StoredRaw(l, sample), n, L2Horizon(c, l, log.clock))
    requires LogShaped(n) && OnlyAt(log.recorded, n, sample.capturedAtMs) && sample.capturedAtMs in n
    requires var start := BucketStartFor(300_000, sample.capturedAtMs);
             && Behind(start, l.l3FoldedUntil) && start + 300_000 > L3Horizon(c, l, log.clock)
             && start >= SatSub(log.clock, KeepMs(c.l2KeepDays))
    ensures var start := BucketStartFor(300_000, sample.capturedAtMs);
            var r := RefoldL3(c, WithMinute(l, sample), sample.capturedAtMs, log.clock, RawToBucket(sample), false);
            Tile(r.l3, start) == Sum(n, start, start + 300_000)
  {
    hide Exact, RawFits, RawShaped, Backed, Updated, InClock, BucketStartFor, LogShaped, Sum, RefoldOne, SampleSummary, At;
    var t, m, now := sample.capturedAtMs, log.recorded, log.clock;
    var u := WithMinute(l, sample);
    var start := BucketStartFor(300_000, t);
    BucketAround(300_000, t);
    ClockBounds(300_000, start);
    AlignedInside(300_000, start, Mark(l, L3));
    PositiveLog(n);
    RefoldExact(u, L2, L3, t, now, c.l2KeepDays, sample, false, m, n, L2Horizon(c, l, now), I64_MAX,
                L3Horizon(c, l, now), Mark(l, L3));
    var r := RefoldL3(c, u, t, now, RawToBucket(sample), false);
    OldTile(r.l3, n, 300_000, L3Horizon(c, l, now), Mark(l, L3), start);
  }

  lemma UnsourcedCorrection(c: Config, u: Ladder, sample: RawSample, now: int)
    requires InClock(sample.capturedAtMs) && Shaped(u.l2, 60_000) && Shaped(u.l3, 300_000)
    requires BucketStartFor(300_000, sample.capturedAtMs) < SatSub(now, KeepMs(c.l2KeepDays))
    ensures var start := BucketStartFor(300_000, sample.capturedAtMs);
            var r := RefoldL3(c, u, sample.capturedAtMs, now, RawToBucket(sample), false);
            Tile(r.l3, start) == Tile(u.l3, start)
  {
    RefoldOutcome(u, L2, L3, sample.capturedAtMs, now, c.l2KeepDays, sample, false);
  }

  lemma ChangedReplayMoves(c: Config, l: Ladder, log: Log, sample: RawSample, metric: Metric, lo: int, hi: int)
    requires Valid(c, l, log) && InClock(sample.capturedAtMs)
    requires sample.capturedAtMs in l.raw && sample.Get(metric) != l.raw[sample.capturedAtMs].Get(metric)
    requires !Partial(l, sample.capturedAtMs) && !MinuteExpired(c, l, log.clock, sample.capturedAtMs)
    requires lo <= sample.capturedAtMs < hi
    ensures Sum(Record(log.recorded, l, sample), lo, hi) != Sum(log.recorded, lo, hi)
  {
    var t, m := sample.capturedAtMs, log.recorded;
    var n := Record(m, l, sample);
    CompleteMinute(c, l, log, t);
    var without := map v | v in m && v != t :: m[v];
    SumJoinAt(without, m, lo, hi, t, At(m, t));
    SumJoinAt(without, n, lo, hi, t, At(n, t));
    JoinMoves(Sum(without, lo, hi), At(m, t), At(n, t), metric);
  }

  lemma JoinMoves(rest: Summary, a: Summary, b: Summary, metric: Metric)
    requires a.Of? && b.Of? && a.Get(metric).sum != b.Get(metric).sum
    ensures Join(rest, a) != Join(rest, b)
  {
    if rest.Of? {
      assert Join(rest, a).Get(metric).sum == rest.Get(metric).sum + a.Get(metric).sum;
      assert Join(rest, b).Get(metric).sum == rest.Get(metric).sum + b.Get(metric).sum;
    }
  }

  // ---------- A changed replay and the hour ----------

  /** The replay changes what is recorded of `metric` at its time. */
  predicate ChangesRecord(m: map<int, Summary>, sample: RawSample, metric: Metric) {
    var was := At(m, sample.capturedAtMs);
    was.Of? && was.Get(metric).sum != sample.Get(metric)
  }

  lemma RecordMoves(m: map<int, Summary>, l: Ladder, sample: RawSample, metric: Metric, lo: int, hi: int)
    requires ChangedReplay(l, sample) && ChangesRecord(m, sample, metric)
    requires lo <= sample.capturedAtMs < hi
    ensures Sum(Record(m, l, sample), lo, hi) != Sum(m, lo, hi)
  {
    var t := sample.capturedAtMs;
    var n := Record(m, l, sample);
    var without := map v | v in m && v != t :: m[v];
    SumJoinAt(without, m, lo, hi, t, At(m, t));
    SumJoinAt(without, n, lo, hi, t, At(n, t));
    JoinMoves(Sum(without, lo, hi), At(m, t), At(n, t), metric);
  }

  /** A replay does not touch five minutes that are past the keep days of their minutes, nor anything else. */
  lemma FiveMinutesStay(c: Config, u: Ladder, t: int, now: int, b: TierBucket)
    ensures !FiveMinutesAreRead(c, now, BucketStartFor(300_000, t)) ==> RefoldL3(c, u, t, now, b, false) == u
    ensures var r := RefoldL3(c, u, t, now, b, false);
            r == u.(l3 := r.l3) && (u.l3FoldedUntil.None? ==> r == u)
  {
    hide BucketStartFor, Fold, RowsIn, TotalCount, KeepMs;
  }

  /** Nor an hour that its re-fold does not read. */
  lemma HourStays(c: Config, u: Ladder, t: int, now: int, b: TierBucket)
    requires !c.l3.enabled ==> u.l3 == map[]
    ensures !HourIsRead(c, u, now, BucketStartFor(3_600_000, t)) ==> RefoldL4(c, u, t, now, b, false) == u
    ensures var r := RefoldL4(c, u, t, now, b, false); r == u.(l4 := r.l4)
  {
    hide BucketStartFor, Fold, RowsIn, KeepMs;
    RowsNone(map[], BucketStartFor(3_600_000, t), SatAdd(BucketStartFor(3_600_000, t), 3_600_000));
    assert TotalCount([]) == 0;
    hide TotalCount;
  }

  /** What the invariant says of flags and watermarks, and what the update of the minute leaves of the rest. */
  lemma FlagsKnown(c: Config, l: Ladder, log: Log, sample: RawSample)
    requires Valid(c, l, log)
    ensures var u := WithMinute(l, sample);
            && u == l.(raw := u.raw, l2 := u.l2)
            && (c.l3.enabled ==> l.l3Enabled.UnwrapOr(true)) && (c.l4.enabled ==> l.l4Enabled.UnwrapOr(true))
            && (!c.l3.enabled ==> l.l3 == map[] && l.l3FoldedUntil.None? && (l.l3Enabled.Some? ==> !l.l3Enabled.value))
            && (l.l4FoldedUntil.Some? ==> c.l4.enabled) && (l.l3FoldedUntil.Some? ==> c.l3.enabled)
  {
    hide Updated, TiersExact, TiersBacked, RawFits;
  }

  lemma TileKnown(c: Config, l: Ladder, log: Log, tier: Tier, start: int)
    requires Valid(c, l, log) && (tier == L3 || tier == L4)
    requires Aligned(tier.ResolutionMs(), start) && InClock(start) && Behind(start, l.FoldedUntil(tier))
    requires start + tier.ResolutionMs() > if tier == L3 then L3Horizon(c, l, log.clock) else L4Horizon(c, log.clock)
    ensures Tile(l.Rows(tier), start) == Sum(log.recorded, start, start + tier.ResolutionMs())
    ensures start + tier.ResolutionMs() <= Mark(l, tier)
  {
    AlignedInside(tier.ResolutionMs(), start, Mark(l, tier));
  }

  /** The ancestors after the minute of a replay has been rebuilt. */
  function Replayed(c: Config, l: Ladder, sample: RawSample, now: int): Ladder {
    RefoldAncestors(c, WithMinute(l, sample), sample.capturedAtMs, now, RawToBucket(sample), false)
  }

  /** A partial minute keeps all but the raw row as it was. */
  lemma ReplayIs(c: Config, l: Ladder, sample: RawSample, now: int)
    requires Shaped(l.l2, 60_000) && InClock(sample.capturedAtMs) && ChangedReplay(l, sample)
    ensures InsertSample(c, l, sample, now) ==
            if Partial(l, sample.capturedAtMs) then (l.(raw := StoredRaw(l, sample)), Kept)
            else (Replayed(c, l, sample, now), Rebuilt)
  {
    InsertIs(c, l, sample, now);
    hide InsertSample, RefoldAncestors, InClock, Shaped;
    if Partial(l, sample.capturedAtMs) {
      KeptCase(l, sample);
    } else {
      RebuiltCase(l, sample);
    }
  }

  /** What a changed replay leaves alone. */
  lemma ReplayLeaves(c: Config, l: Ladder, log: Log, sample: RawSample)
    requires Valid(c, l, log) && InClock(sample.capturedAtMs) && ChangedReplay(l, sample)
    ensures var r, t := InsertSample(c, l, sample, log.clock).0, sample.capturedAtMs;
            && r.l3FoldedUntil == l.l3FoldedUntil && r.l4FoldedUntil == l.l4FoldedUntil
            && (Partial(l, t) ==> r.l2 == l.l2)
            && (Partial(l, t) || !FiveMinutesAreRead(c, log.clock, BucketStartFor(300_000, t)) ==> r.l3 == l.l3)
            && (Partial(l, t) || !HourIsRead(c, l, log.clock, BucketStartFor(3_600_000, t)) ==> r.l4 == l.l4)
  {
    hide Valid, BucketStartFor, KeepMs, RefoldL3, RefoldL4, WithMinute, InsertSample, ChangedReplay, Partial, Shaped, InClock,
         FiveMinutesAreRead;
    var u, t, now, b := WithMinute(l, sample), sample.capturedAtMs, log.clock, RawToBucket(sample);
    MinutesShaped(c, l, log);
    FlagsKnown(c, l, log, sample);
    ReplayIs(c, l, sample, now);
    FiveMinutesStay(c, u, t, now, b);
    HourStays(c, RefoldL3(c, u, t, now, b, false), t, now, b);
  }

  /** With the five minutes unread, the hour is re-folded on top of the minute alone. */
  lemma FiveMinutesUnread(c: Config, l: Ladder, log: Log, sample: RawSample)
    requires Valid(c, l, log) && InClock(sample.capturedAtMs) && ChangedReplay(l, sample)
    requires !Partial(l, sample.capturedAtMs) && !FiveMinutesAreRead(c, log.clock, BucketStartFor(300_000, sample.capturedAtMs))
    ensures InsertSample(c, l, sample, log.clock).0 ==
            RefoldL4(c, WithMinute(l, sample), sample.capturedAtMs, log.clock, RawToBucket(sample), false)
  {
    hide Valid, BucketStartFor, KeepMs, RefoldL3, RefoldL4, WithMinute, InsertSample, ChangedReplay, Partial, Shaped, InClock,
         FiveMinutesAreRead;
    MinutesShaped(c, l, log);
    ReplayIs(c, l, sample, log.clock);
    FiveMinutesStay(c, WithMinute(l, sample), sample.capturedAtMs, log.clock, RawToBucket(sample));
  }

  lemma MinutesShaped(c: Config, l: Ladder, log: Log)
    requires Valid(c, l, log)
    ensures Shaped(l.l2, 60_000) && Shaped(l.l3, 300_000) && Shaped(l.l4, 3_600_000) && LogShaped(log.recorded)
    ensures RawShaped(l.raw, log.recorded)
  {
    hide Shaped, LogShaped, RawShaped, TiersExact, TiersBacked, RawFits;
  }

  /** Changing a replayed value in an unexpired, folded hour of a ladder with both tiers on: the hour stands for the
    * recorded samples afterwards if and only if the minute is complete and both re-folds on the way read their sources. */
  lemma HourCorrectionExactly(c: Config, l: Ladder, log: Log, sample: RawSample, metric: Metric)
    requires Valid(c, l, log) && InClock(sample.capturedAtMs) && c.l3.enabled && c.l4.enabled
    requires ChangedReplay(l, sample) && ChangesRecord(log.recorded, sample, metric)
    requires Behind(BucketStartFor(3_600_000, sample.capturedAtMs), l.l4FoldedUntil)
    requires BucketStartFor(3_600_000, sample.capturedAtMs) + 3_600_000 > L4Horizon(c, log.clock)
    ensures var t, now := sample.capturedAtMs, log.clock;
            var start := BucketStartFor(3_600_000, t);
            (Tile(InsertSample(c, l, sample, now).0.l4, start) == Sum(Record(log.recorded, l, sample), start, start + 3_600_000)
             <==> !Partial(l, t) && start >= SatSub(now, KeepMs(c.l3.keepDays))
                  && BucketStartFor(300_000, t) >= SatSub(now, KeepMs(c.l2KeepDays)))
  {
    hide Valid, BucketStartFor, InClock, ChangedReplay, ChangesRecord, Sum, Record, L4Horizon, L3Horizon, KeepMs, Partial,
         InsertSample, Tile;
    var t, now := sample.capturedAtMs, log.clock;
    var start := BucketStartFor(3_600_000, t);
    BucketAround(3_600_000, t);
    RecordMoves(log.recorded, l, sample, metric, start, start + 3_600_000);
    TileKnown(c, l, log, L4, start);
    FlagsKnown(c, l, log, sample);
    ReplayLeaves(c, l, log, sample);
    if !Partial(l, t) && start >= SatSub(now, KeepMs(c.l3.keepDays)) {
      if BucketStartFor(300_000, t) >= SatSub(now, KeepMs(c.l2KeepDays)) {
        ReadReplay(c, l, log, sample);
        ReplayedTile(c, l, log, sample, start);
      } else {
        HourFromOldTiles(c, l, log, sample);
      }
    }
  }

  /** A replay into a complete minute whose re-folds all read their sources leaves the invariant in place. */
  lemma ReadReplay(c: Config, l: Ladder, log: Log, sample: RawSample)
    requires Valid(c, l, log) && InClock(sample.capturedAtMs) && ChangedReplay(l, sample) && !Partial(l, sample.capturedAtMs)
    requires HourIsRead(c, l, log.clock, BucketStartFor(3_600_000, sample.capturedAtMs))
    requires l.l3FoldedUntil.Some? ==> FiveMinutesAreRead(c, log.clock, BucketStartFor(300_000, sample.capturedAtMs))
    ensures Valid(c, InsertSample(c, l, sample, log.clock).0, log.(recorded := Record(log.recorded, l, sample)))
  {
    hide Valid, HourIsRead, FiveMinutesAreRead, Partial, BucketStartFor, InClock, LeavesRange, L3Cutoff, L4Cutoff, InsertSample;
    InsertKeeps(c, l, log, sample, log.clock);
    assert log.(recorded := Record(log.recorded, l, sample)) == Log(Record(log.recorded, l, sample), log.clock);
  }

  lemma ReplayedTile(c: Config, l: Ladder, log: Log, sample: RawSample, start: int)
    requires Valid(c, l, log) && InClock(sample.capturedAtMs) && ChangedReplay(l, sample)
    requires Aligned(3_600_000, start) && InClock(start) && Behind(start, l.l4FoldedUntil)
    requires start + 3_600_000 > L4Horizon(c, log.clock)
    requires Valid(c, InsertSample(c, l, sample, log.clock).0, log.(recorded := Record(log.recorded, l, sample)))
    ensures Tile(InsertSample(c, l, sample, log.clock).0.l4, start) ==
            Sum(Record(log.recorded, l, sample), start, start + 3_600_000)
  {
    hide Valid, InClock, Record, Sum, InsertSample, ChangedReplay, Partial, HourIsRead, FiveMinutesAreRead, Tile;
    ReplayLeaves(c, l, log, sample);
    TileKnown(c, InsertSample(c, l, sample, log.clock).0, log.(recorded := Record(log.recorded, l, sample)), L4, start);
  }

  /** An hour re-folded from five minutes that the replay did not reach stands for what was recorded before. */
  lemma HourFromOldTiles(c: Config, l: Ladder, log: Log, sample: RawSample)
    requires Valid(c, l, log) && InClock(sample.capturedAtMs) && c.l3.enabled && c.l4.enabled
    requires ChangedReplay(l, sample) && !Partial(l, sample.capturedAtMs)
    requires Behind(BucketStartFor(3_600_000, sample.capturedAtMs), l.l4FoldedUntil)
    requires BucketStartFor(3_600_000, sample.capturedAtMs) + 3_600_000 > L4Horizon(c, log.clock)
    requires BucketStartFor(3_600_000, sample.capturedAtMs) >= SatSub(log.clock, KeepMs(c.l3.keepDays))
    requires BucketStartFor(300_000, sample.capturedAtMs) < SatSub(log.clock, KeepMs(c.l2KeepDays))
    ensures var start := BucketStartFor(3_600_000, sample.capturedAtMs);
            Tile(InsertSample(c, l, sample, log.clock).0.l4, start) == Sum(log.recorded, start, start + 3_600_000)
  {
    hide Valid, BucketStartFor, InClock, Sum, Record, KeepMs, RefoldL4, RefoldOne, WithMinute, Shaped, L3Horizon, L4Horizon,
         ChangedReplay, Abstract, Join, SampleSummary, RawToBucket, InsertSample, Partial;
    var t, now := sample.capturedAtMs, log.clock;
    var start := BucketStartFor(3_600_000, t);
    BucketAround(3_600_000, t);
    L3Covers(c, l, log, start);
    TileKnown(c, l, log, L4, start);
    FiveMinutesUnread(c, l, log, sample);
    FlagsKnown(c, l, log, sample);
    MinuteStaysShaped(c, l, log, sample);
    HourRefolded(c, WithMinute(l, sample), sample, now);
  }

  lemma MinuteStaysShaped(c: Config, l: Ladder, log: Log, sample: RawSample)
    requires Valid(c, l, log)
    ensures Shaped(WithMinute(l, sample).l3, 300_000) && Shaped(WithMinute(l, sample).l4, 3_600_000)
  {
    hide Updated, Shaped, TiersExact, TiersBacked, RawFits;
  }

  /** An hour re-folded from its five minutes, where they hold anything. */
  lemma HourRefolded(c: Config, u: Ladder, sample: RawSample, now: int)
    requires InClock(sample.capturedAtMs) && Shaped(u.l3, 300_000) && Shaped(u.l4, 3_600_000)
    requires u.l3Enabled.UnwrapOr(true) && u.l4Enabled.UnwrapOr(true)
    requires Behind(BucketStartFor(3_600_000, sample.capturedAtMs), u.l4FoldedUntil)
    requires BucketStartFor(3_600_000, sample.capturedAtMs) >= SatSub(now, KeepMs(c.l3.keepDays))
    ensures var start := BucketStartFor(3_600_000, sample.capturedAtMs);
            var sum := Sum(Abstract(u.l3), start, start + 3_600_000);
            Tile(RefoldL4(c, u, sample.capturedAtMs, now, RawToBucket(sample), false).l4, start) ==
              if sum != Empty then sum else Tile(u.l4, start)
  {
    hide BucketStartFor, InClock, Sum, KeepMs, RefoldOne, Shaped, Abstract, Join, SampleSummary, RawToBucket;
    RefoldOutcome(u, L3, L4, sample.capturedAtMs, now, c.l3.keepDays, sample, false);
  }

  lemma L3Covers(c: Config, l: Ladder, log: Log, start: int)
    requires Valid(c, l, log) && c.l3.enabled && c.l4.enabled
    requires Aligned(3_600_000, start) && InClock(start) && Behind(start, l.l4FoldedUntil)
    requires start >= SatSub(log.clock, KeepMs(c.l3.keepDays))
    ensures Sum(Abstract(l.l3), start, start + 3_600_000) == Sum(log.recorded, start, start + 3_600_000)
  {
    AlignedInside(3_600_000, start, Mark(l, L4));
    SourceCovers(l.l3, log.recorded, 300_000, 3_600_000, start, L3Horizon(c, l, log.clock), Mark(l, L3));
  }

  /** The same with hours folded straight from minutes: one re-fold, which finds the minutes only by the stored flag that L3
    * is off. */
  lemma HourFromMinutesExactly(c: Config, l: Ladder, log: Log, sample: RawSample, metric: Metric)
    requires Valid(c, l, log) && InClock(sample.capturedAtMs) && !c.l3.enabled && c.l4.enabled
    requires ChangedReplay(l, sample) && ChangesRecord(log.recorded, sample, metric)
    requires Behind(BucketStartFor(3_600_000, sample.capturedAtMs), l.l4FoldedUntil)
    requires BucketStartFor(3_600_000, sample.capturedAtMs) + 3_600_000 > L4Horizon(c, log.clock)
    ensures var t, now := sample.capturedAtMs, log.clock;
            var start := BucketStartFor(3_600_000, t);
            (Tile(InsertSample(c, l, sample, now).0.l4, start) == Sum(Record(log.recorded, l, sample), start, start + 3_600_000)
             <==> !Partial(l, t) && l.l3Enabled.Some? && start >= SatSub(now, KeepMs(c.l2KeepDays)))
  {
    hide Valid, BucketStartFor, InClock, ChangedReplay, ChangesRecord, Sum, Record, L4Horizon, L3Horizon, KeepMs, Partial,
         InsertSample, Tile;
    var t := sample.capturedAtMs;
    var start := BucketStartFor(3_600_000, t);
    BucketAround(3_600_000, t);
    RecordMoves(log.recorded, l, sample, metric, start, start + 3_600_000);
    TileKnown(c, l, log, L4, start);
    FlagsKnown(c, l, log, sample);
    ReplayLeaves(c, l, log, sample);
    if !Partial(l, t) && HourIsRead(c, l, log.clock, start) {
      ReadReplay(c, l, log, sample);
      ReplayedTile(c, l, log, sample, start);
    }
  }

  // ---------- A changed replay and the whole invariant ----------

  /** A replay that is not taken into its minute breaks the invariant. */
  lemma MissedMinute(c: Config, l: Ladder, log: Log, sample: RawSample)
    requires Valid(c, l, log) && InClock(sample.capturedAtMs) && ChangedReplay(l, sample)
    requires !MinuteTakes(c, l, log.recorded, log.clock, sample)
    ensures !Valid(c, InsertSample(c, l, sample, log.clock).0, log.(recorded := Record(log.recorded, l, sample)))
  {
    hide Valid, InClock, LeavesRange, Sum, InsertSample, BucketStartFor, L2Cutoff, Partial, Tile, HourIsRead, FiveMinutesAreRead;
    var t, after := sample.capturedAtMs, log.(recorded := Record(log.recorded, l, sample));
    var r := InsertSample(c, l, sample, log.clock).0;
    MinutesShaped(c, l, log);
    AroundMinute(t);
    LeavesRangeExactly(log.recorded, sample, MinuteOf(t), MinuteOf(t) + 60_000);
    MinuteIs(c, l, log, t);
    ReplayLeaves(c, l, log, sample);
    if Valid(c, r, after) {
      MinuteIs(c, r, after, t);
      assert false;
    }
  }

  lemma AroundMinute(t: int)
    requires InClock(t)
    ensures MinuteOf(t) <= t < MinuteOf(t) + 60_000
  {
    BucketAround(60_000, t);
  }

  /** So does one that misses an unexpired five-minute bucket. */
  lemma MissedFiveMinutes(c: Config, l: Ladder, log: Log, sample: RawSample)
    requires Valid(c, l, log) && InClock(sample.capturedAtMs) && ChangedReplay(l, sample)
    requires var five := BucketStartFor(300_000, sample.capturedAtMs);
             && FoldedInto(300_000, sample.capturedAtMs, l.l3FoldedUntil, L3Horizon(c, l, log.clock))
             && !FiveMinutesAreRead(c, log.clock, five) && !LeavesRange(log.recorded, sample, five, five + 300_000)
    ensures !Valid(c, InsertSample(c, l, sample, log.clock).0, log.(recorded := Record(log.recorded, l, sample)))
  {
    hide Valid, BucketStartFor, InClock, LeavesRange, Sum, KeepMs, InsertSample, L3Cutoff, Tile, Partial, HourIsRead,
         FiveMinutesAreRead;
    var t, after := sample.capturedAtMs, log.(recorded := Record(log.recorded, l, sample));
    var five := BucketStartFor(300_000, t);
    var r := InsertSample(c, l, sample, log.clock).0;
    MinutesShaped(c, l, log);
    BucketAround(300_000, t);
    LeavesRangeExactly(log.recorded, sample, five, five + 300_000);
    TileKnown(c, l, log, L3, five);
    ReplayLeaves(c, l, log, sample);
    if Valid(c, r, after) {
      TileKnown(c, r, after, L3, five);
      assert false;
    }
  }

  /** And one that misses an unexpired hour. */
  lemma MissedHour(c: Config, l: Ladder, log: Log, sample: RawSample)
    requires Valid(c, l, log) && InClock(sample.capturedAtMs) && ChangedReplay(l, sample)
    requires var hour := BucketStartFor(3_600_000, sample.capturedAtMs);
             && FoldedInto(3_600_000, sample.capturedAtMs, l.l4FoldedUntil, L4Horizon(c, log.clock))
             && !HourIsRead(c, l, log.clock, hour) && !LeavesRange(log.recorded, sample, hour, hour + 3_600_000)
    ensures !Valid(c, InsertSample(c, l, sample, log.clock).0, log.(recorded := Record(log.recorded, l, sample)))
  {
    hide Valid, BucketStartFor, InClock, LeavesRange, Sum, KeepMs, InsertSample, L4Horizon, Tile, Partial, HourIsRead,
         FiveMinutesAreRead;
    var t := sample.capturedAtMs;
    var hour := BucketStartFor(3_600_000, t);
    MinutesShaped(c, l, log);
    BucketAround(3_600_000, t);
    LeavesRangeExactly(log.recorded, sample, hour, hour + 3_600_000);
    TileKnown(c, l, log, L4, hour);
    ReplayLeaves(c, l, log, sample);
    if Valid(c, InsertSample(c, l, sample, log.clock).0, log.(recorded := Record(log.recorded, l, sample))) {
      ReplayedTile(c, l, log, sample, hour);
      assert false;
    }
  }

  /** Storing a changed replay keeps the whole invariant if and only if it is taken into its minute and reaches every
    * unexpired ancestor, or makes no difference there. */
  lemma CorrectionInsertExactly(c: Config, l: Ladder, log: Log, sample: RawSample, now: int)
    requires Valid(c, l, log) && log.clock <= now && InClock(sample.capturedAtMs) && ChangedReplay(l, sample)
    ensures Valid(c, InsertSample(c, l, sample, now).0, Log(Record(log.recorded, l, sample), now))
       <==> MinuteTakes(c, l, log.recorded, now, sample) && CorrectionReaches(c, l, log.recorded, now, sample)
  {
    hide Valid, MinuteTakes, InsertSample, BucketStartFor, FoldedInto, FiveMinutesAreRead, HourIsRead, LeavesRange, InClock,
         L3Horizon, L4Horizon, Partial, MinuteExpired, HidesPrunedRow;
    var later := log.(clock := now);
    TimePasses(c, l, log, now);
    if !MinuteTakes(c, l, log.recorded, now, sample) {
      MissedMinute(c, l, later, sample);
    } else if CorrectionReaches(c, l, log.recorded, now, sample) {
      InsertKeeps(c, l, log, sample, now);
    } else {
      var five := BucketStartFor(300_000, sample.capturedAtMs);
      if FoldedInto(300_000, sample.capturedAtMs, l.l3FoldedUntil, L3Horizon(c, l, now))
         && !FiveMinutesAreRead(c, now, five) && !LeavesRange(log.recorded, sample, five, five + 300_000) {
        MissedFiveMinutes(c, l, later, sample);
      } else {
        MissedHour(c, l, later, sample);
      }
    }
  }

  /** Every unexpired folded ancestor of `t` is read from its source by the re-fold. */
  predicate ReReads(c: Config, l: Ladder, now: int, t: int) {
    && (FoldedInto(300_000, t, l.l3FoldedUntil, L3Horizon(c, l, now)) ==>
          FiveMinutesAreRead(c, now, BucketStartFor(300_000, t)))
    && (FoldedInto(3_600_000, t, l.l4FoldedUntil, L4Horizon(c, now)) ==>
          HourIsRead(c, l, now, BucketStartFor(3_600_000, t)))
  }

  /** Where a metric changes, only the store decides: the minute has expired or is not partial, and every unexpired folded
    * ancestor is read from its source. */
  lemma ChangedMetricExactly(c: Config, l: Ladder, log: Log, sample: RawSample, now: int, metric: Metric)
    requires Valid(c, l, log) && log.clock <= now && InClock(sample.capturedAtMs) && ChangedReplay(l, sample)
    requires ChangesRecord(log.recorded, sample, metric)
    ensures Valid(c, InsertSample(c, l, sample, now).0, Log(Record(log.recorded, l, sample), now))
       <==> (MinuteExpired(c, l, now, sample.capturedAtMs) || !Partial(l, sample.capturedAtMs))
            && ReReads(c, l, now, sample.capturedAtMs)
  {
    CorrectionInsertExactly(c, l, log, sample, now);
    MetricMoves(log.recorded, sample, metric);
    hide Valid, InsertSample, BucketStartFor, FoldedInto, FiveMinutesAreRead, HourIsRead, LeavesRange, InClock, L3Horizon,
         L4Horizon, Partial, MinuteExpired, MinuteOf;
  }

  lemma MetricMoves(m: map<int, Summary>, sample: RawSample, metric: Metric)
    requires ChangesRecord(m, sample, metric)
    ensures forall lo, hi :: !LeavesRange(m, sample, lo, hi)
  {
    hide JoinRoot, OtherRoots;
    assert SampleSummary(sample).Get(metric).sum == sample.Get(metric);
  }

  // ---------- Every step ----------

  /** A sample of the outermost hours, where bucket bounds saturate, is not spoken of. */
  predicate InRange(step: Step) { step.Store? ==> InClock(step.sample.capturedAtMs) }

  /** A step keeps the invariant if and only if it is clean: the conditions are all there are. */
  lemma StepKeepsExactly(c: Config, s: State, step: Step, t: State)
    requires Valid(c, s.ladder, s.log) && Takes(c, s, step, t) && InRange(step)
    ensures Valid(c, t.ladder, t.log) <==> Clean(c, s, step)
  {
    hide Valid, CorrectionReaches, MinuteTakes, TickOverruns, ClockKeys, HidesPrunedRow, MinuteExpired, InClock, Partial,
         InsertSample, Maintain;
    match step
    case Tick(now, archived, faults) => TickKeeps(c, s.ladder, s.log, now, archived, faults);
    case Store(sample, now) =>
      if sample.capturedAtMs !in s.ladder.raw {
        NewRowConservesExactly(c, s.ladder, s.log, sample, now);
      } else if ChangedReplay(s.ladder, sample) {
        CorrectionInsertExactly(c, s.ladder, s.log, sample, now);
      } else {
        InsertKeeps(c, s.ladder, s.log, sample, now);
      }
  }

  /** Every state of a run from the empty store satisfies the invariant if and only if every step of it is clean. */
  lemma {:induction false} RunKeepsExactly(c: Config, states: seq<State>, steps: seq<Step>)
    requires History(c, states, steps) && forall step :: step in steps ==> InRange(step)
    ensures (forall i :: 0 <= i < |states| ==> Valid(c, states[i].ladder, states[i].log))
       <==> (forall i :: 0 <= i < |steps| ==> Clean(c, states[i], steps[i]))
    decreases |steps|
  {
    hide Valid, Takes, InRange, Clean;
    EmptyIsValid(c, states[0].log.clock);
    if steps != [] {
      var n := |steps| - 1;
      assert forall i :: 0 <= i < n ==> steps[..n][i] == steps[i];
      assert forall i :: 0 <= i <= n ==> states[..n + 1][i] == states[i];
      RunKeepsExactly(c, states[..n + 1], steps[..n]);
      assert steps[n] in steps;
      if Valid(c, states[n].ladder, states[n].log) {
        StepKeepsExactly(c, states[n], steps[n], states[n + 1]);
      }
    }
  }

  // ---------- A late row behind a pruned source ----------

  /** A row merged into an ancestor whose source is gone leaves the count right exactly when it was right before:
    * once an hour has been archived or expired, a late row restarts it from one. */
  lemma MergeCountsRightExactly(u: Ladder, source: Tier, target: Tier, m: map<int, Summary>, sample: RawSample, now: int,
                                keepDays: int)
    requires Promotes(source, target) && InClock(sample.capturedAtMs)
    requires Shaped(u.Rows(source), source.ResolutionMs()) && Shaped(u.Rows(target), target.ResolutionMs())
    requires BucketStartFor(target.ResolutionMs(), sample.capturedAtMs) < SatSub(now, KeepMs(keepDays))
    ensures var t := sample.capturedAtMs;
            var w := target.ResolutionMs();
            var start := BucketStartFor(w, t);
            var n := m[t := Join(At(m, t), SampleSummary(sample))];
            var r := RefoldOne(u, source, target, start, now, keepDays, RawToBucket(sample), true);
            (Tile(r.Rows(target), start).Count() == Sum(n, start, start + w).Count()
             <==> Tile(u.Rows(target), start).Count() == Sum(m, start, start + w).Count())
  {
    hide BucketStartFor, InClock, SampleSummary, RefoldOne, Sum, Join, Abstract, Shaped, KeepMs, Tile, RawToBucket, At;
    var t, w := sample.capturedAtMs, target.ResolutionMs();
    var start := BucketStartFor(w, t);
    BucketAround(w, t);
    RefoldOutcome(u, source, target, t, now, keepDays, sample, true);
    MergedSum(m, sample, start, start + w);
    CountAdds(Sum(m, start, start + w), sample);
    CountAdds(Tile(u.Rows(target), start), sample);
  }

  lemma MergedSum(m: map<int, Summary>, sample: RawSample, lo: int, hi: int)
    requires lo <= sample.capturedAtMs < hi
    ensures var t := sample.capturedAtMs;
            Sum(m[t := Join(At(m, t), SampleSummary(sample))], lo, hi) == Join(Sum(m, lo, hi), SampleSummary(sample))
  {
    var t := sample.capturedAtMs;
    SumJoinAt(m, m[t := Join(At(m, t), SampleSummary(sample))], lo, hi, t, SampleSummary(sample));
  }

  /** A late row of a range whose bucket has left the table and whose source is past its keep days starts the bucket again
    * from one: that is right if and only if no sample had been recorded there before. */
  lemma LateRowStartsAgain(u: Ladder, source: Tier, target: Tier, m: map<int, Summary>, sample: RawSample, now: int,
                           keepDays: int)
    requires Promotes(source, target) && InClock(sample.capturedAtMs) && Positive(m)
    requires Shaped(u.Rows(source), source.ResolutionMs()) && Shaped(u.Rows(target), target.ResolutionMs())
    requires BucketStartFor(target.ResolutionMs(), sample.capturedAtMs) < SatSub(now, KeepMs(keepDays))
    requires BucketStartFor(target.ResolutionMs(), sample.capturedAtMs) !in u.Rows(target)
    ensures var t := sample.capturedAtMs;
            var w := target.ResolutionMs();
            var start := BucketStartFor(w, t);
            var n := m[t := Join(At(m, t), SampleSummary(sample))];
            var r := RefoldOne(u, source, target, start, now, keepDays, RawToBucket(sample), true);
            && Tile(r.Rows(target), start) == SampleSummary(sample)
            && start in r.Rows(target) && r.Rows(target)[start].sampleCount == 1
            && (Tile(r.Rows(target), start).Count() == Sum(n, start, start + w).Count()
                <==> forall v :: start <= v < start + w ==> v !in m)
  {
    var w := target.ResolutionMs();
    var start := BucketStartFor(w, sample.capturedAtMs);
    MergeCountsRightExactly(u, source, target, m, sample, now, keepDays);
    RefoldOutcome(u, source, target, sample.capturedAtMs, now, keepDays, sample, true);
    SumCountNonNegative(m, start, start + w);
    hide RefoldOne, BucketStartFor, InClock, Shaped, KeepMs, Sum;
    if Sum(m, start, start + w) == Empty {
      forall v | start <= v < start + w
        ensures v !in m
      {
        SumEmptyMeansNone(m, start, start + w, v);
      }
    } else if forall v :: start <= v < start + w ==> v !in m {
      SumNone(m, start, start + w);
    }
  }
}

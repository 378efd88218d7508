/** A sample insert that fails between two of its statements and is tried again: the second try sees a raw row that is
  * already there, and exactly when that loses the sample (the sample insert of the store's `lib.rs`). */
module LadderRetry {
  import opened Prelude
  import opened Summaries
  import opened TierFold
  import opened TimeGrid
  import opened LadderModel
  import opened LadderTables
  import opened LadderInvariant
  import opened LadderPromotion
  import opened LadderInsert
  import opened LadderRuns
  import opened LadderConservation
  import opened LadderLimits

  /** Where an insert stops: with only its raw row written, before the re-folds, or before the re-fold of the hour. */
  datatype Cut = BeforeMinute | BeforeRefolds | BeforeHour

  /** What an insert leaves that adds a row and stops there. */
  function Interrupted(c: Config, l: Ladder, sample: RawSample, now: int, cut: Cut): Ladder {
    match cut
    case BeforeMinute => l.(raw := StoredRaw(l, sample))
    case BeforeRefolds => WithMinute(l, sample)
    case BeforeHour => RefoldL3(c, WithMinute(l, sample), sample.capturedAtMs, now, RawToBucket(sample), true)
  }

  /** The insert merges its row into a bucket that counts samples without rows. */
  predicate Merges(l: Ladder, t: int) { Partial(l, t) && !HidesPrunedRow(l, t) }

  /** No unexpired ancestor has folded `t`. */
  predicate NothingFolded(c: Config, l: Ladder, now: int, t: int) {
    && !FoldedInto(300_000, t, l.l3FoldedUntil, L3Horizon(c, l, now))
    && !FoldedInto(3_600_000, t, l.l4FoldedUntil, L4Horizon(c, now))
  }

  /** The hour is read from its source, if it has been folded and has not expired. */
  predicate HourReReads(c: Config, l: Ladder, now: int, t: int) {
    FoldedInto(3_600_000, t, l.l4FoldedUntil, L4Horizon(c, now)) ==> HourIsRead(c, l, now, BucketStartFor(3_600_000, t))
  }

  /** When a second try makes good an insert that stopped at `cut`. A merged row is never seen again; else the re-folds have to
    * read it from below, since they take it for a replay. */
  predicate RetryKeeps(c: Config, l: Ladder, now: int, t: int, cut: Cut) {
    match cut
    case BeforeMinute => (MinuteExpired(c, l, now, t) || !Partial(l, t)) && ReReads(c, l, now, t)
    case BeforeRefolds =>
      && (MinuteExpired(c, l, now, t) || !HidesPrunedRow(l, t))
      && (if Merges(l, t) then NothingFolded(c, l, now, t) else ReReads(c, l, now, t))
    case BeforeHour =>
      && (MinuteExpired(c, l, now, t) || !HidesPrunedRow(l, t))
      && (if Merges(l, t) then !FoldedInto(3_600_000, t, l.l4FoldedUntil, L4Horizon(c, now)) else HourReReads(c, l, now, t))
  }

  // ---------- What the second try does ----------

  lemma RefoldL3LeavesMinute(c: Config, u: Ladder, t: int, now: int, b: TierBucket, newRow: bool)
    ensures var r := RefoldL3(c, u, t, now, b, newRow); r == u.(l3 := r.l3)
  {
    hide Fold, RowsIn, TotalCount, BucketStartFor, KeepMs;
  }

  lemma Cuts(c: Config, l: Ladder, sample: RawSample, now: int, cut: Cut)
    ensures var i := Interrupted(c, l, sample, now, cut);
            && i.raw == StoredRaw(l, sample)
            && i.l2 == (if cut == BeforeMinute then l.l2 else WithMinute(l, sample).l2)
            && i == l.(raw := i.raw, l2 := i.l2, l3 := i.l3) && (cut != BeforeHour ==> i.l3 == l.l3)
            && sample.capturedAtMs in i.raw && i.raw[sample.capturedAtMs] == sample
  {
    hide Updated, RefoldL3, RawToBucket;
    RefoldL3LeavesMinute(c, WithMinute(l, sample), sample.capturedAtMs, now, RawToBucket(sample), true);
  }

  /** A row that was merged the first time is in a partial minute the second time; any other is in a complete one. */
  lemma SecondSight(c: Config, l: Ladder, sample: RawSample, now: int, cut: Cut)
    requires Shaped(l.l2, 60_000) && InClock(sample.capturedAtMs) && sample.capturedAtMs !in l.raw
    ensures var i := Interrupted(c, l, sample, now, cut);
            && Shaped(i.l2, 60_000)
            && (Partial(i, sample.capturedAtMs) <==> Merges(l, sample.capturedAtMs))
  {
    hide RawIn, InClock, BucketStartFor, Fold, Rebuild, RawToBucket, Updated, Interrupted;
    var t := sample.capturedAtMs;
    Cuts(c, l, sample, now, cut);
    MinuteRowCount(l.raw, t, sample);
    AroundMinute(t);
    MinuteAligned(t);
    if Merges(l, t) {
      MergedCase(l, sample);
      MergedCount(l.l2[MinuteOf(t)], sample, MinuteOf(t));
    } else {
      RebuiltCase(l, sample);
      RebuildKeepsSamples(MinuteOf(t), MinuteRows(l, sample));
    }
  }

  lemma MinuteAligned(t: int)
    requires InClock(t)
    ensures Aligned(60_000, MinuteOf(t)) && InClock(MinuteOf(t))
  {
    BucketAround(60_000, t);
  }

  lemma MergedCount(b: TierBucket, sample: RawSample, start: int)
    requires b.sampleCount > 0
    ensures var folded := Fold(start, [b, RawToBucket(sample)]);
            folded.Some? && folded.value.sampleCount == b.sampleCount + 1
  {
    FoldPair(start, b, sample);
    CountIs(Fold(start, [b, RawToBucket(sample)]).value);
    CountIs(b);
    CountAdds(SummaryOf(b), sample);
    hide SummaryOf, SampleSummary, Join, Fold;
  }

  /** So it is kept as it is, or rebuilt from the same rows and re-folded like a replay. */
  lemma SecondTry(c: Config, l: Ladder, sample: RawSample, now: int, cut: Cut)
    requires Shaped(l.l2, 60_000) && InClock(sample.capturedAtMs) && sample.capturedAtMs !in l.raw
    ensures var i, t := Interrupted(c, l, sample, now, cut), sample.capturedAtMs;
            InsertSample(c, i, sample, now).0 ==
              if Merges(l, t) then i
              else RefoldAncestors(c, i.(l2 := WithMinute(l, sample).l2), t, now, RawToBucket(sample), false)
  {
    hide RawIn, InClock, BucketStartFor, Fold, Rebuild, RawToBucket, Updated, Interrupted, InsertSample, RefoldAncestors, Merges,
         Shaped, Partial, HidesPrunedRow;
    var i, t := Interrupted(c, l, sample, now, cut), sample.capturedAtMs;
    Cuts(c, l, sample, now, cut);
    SecondSight(c, l, sample, now, cut);
    InsertIs(c, i, sample, now);
    assert StoredRaw(i, sample) == i.raw;
    if Merges(l, t) {
      KeptCase(i, sample);
    } else {
      NotMerged(l, t);
      RebuiltCase(l, sample);
      RebuiltCase(i, sample);
      SameRebuild(l, i, sample);
    }
  }

  lemma NotMerged(l: Ladder, t: int)
    requires !Merges(l, t)
    ensures !Partial(l, t) || HidesPrunedRow(l, t)
  {
  }

  lemma SameRebuild(l: Ladder, i: Ladder, sample: RawSample)
    requires MinuteRows(l, sample) != [] && MinuteRows(i, sample) != []
    requires i.raw == StoredRaw(l, sample) && StoredRaw(i, sample) == i.raw
    requires var minute := MinuteOf(sample.capturedAtMs);
             && Updated(l, sample) == (l.l2[minute := Rebuild(minute, MinuteRows(l, sample))], Rebuilt)
             && Updated(i, sample) == (i.l2[minute := Rebuild(minute, MinuteRows(i, sample))], Rebuilt)
    requires i.l2 == l.l2 || i.l2 == WithMinute(l, sample).l2
    ensures WithMinute(i, sample) == i.(l2 := WithMinute(l, sample).l2)
  {
    hide Rebuild, RawIn, BucketStartFor;
    assert MinuteRows(i, sample) == MinuteRows(l, sample);
  }

  // ---------- When nothing is lost ----------

  /** A new row changes the total of every range around it. */
  lemma RowGrows(m: map<int, Summary>, l: Ladder, sample: RawSample, lo: int, hi: int)
    requires sample.capturedAtMs !in l.raw && lo <= sample.capturedAtMs < hi
    ensures Sum(Record(m, l, sample), lo, hi) != Sum(m, lo, hi)
  {
    var t := sample.capturedAtMs;
    SumJoinAt(m, Record(m, l, sample), lo, hi, t, SampleSummary(sample));
    CountAdds(Sum(m, lo, hi), sample);
  }

  /** The minute of an interrupted insert, whatever happens to the rest. */
  lemma NewMinuteFacts(c: Config, l: Ladder, log: Log, sample: RawSample)
    requires Valid(c, l, log) && InClock(sample.capturedAtMs) && sample.capturedAtMs !in l.raw
    requires MinuteExpired(c, l, log.clock, sample.capturedAtMs) || !HidesPrunedRow(l, sample.capturedAtMs)
    ensures var u, n := WithMinute(l, sample), Record(log.recorded, l, sample);
            && MinuteTier(u.l2, u.raw, n, L2Horizon(c, l, log.clock)) && WellFormed(c, u) && LogShaped(n) && RawShaped(u.raw, n)
            && u == l.(raw := u.raw, l2 := u.l2) && u.raw == StoredRaw(l, sample)
            && RecordedOnce(log.recorded, n, sample.capturedAtMs)
            && At(n, sample.capturedAtMs) == Join(At(log.recorded, sample.capturedAtMs), SampleSummary(sample))
  {
    hide Exact, RawFits, Backed, Shaped, Updated, HidesPrunedRow, MinuteExpired, InClock, CorrectionReaches, MinuteTakes, SampleSummary,
         Join;
    MinuteInPlace(c, l, log, sample);
    RecordShaped(log.recorded, l, sample);
  }

  /** Tiers that the rest of an insert did not reach are right for as long as they do not answer for its time. */
  lemma UnfoldedStays(c: Config, l: Ladder, log: Log, n: map<int, Summary>, t: int)
    requires Valid(c, l, log) && RecordedOnce(log.recorded, n, t)
    ensures !FoldedInto(300_000, t, l.l3FoldedUntil, L3Horizon(c, l, log.clock)) ==>
              Exact(l.l3, n, 300_000, L3Horizon(c, l, log.clock), Mark(l, L3)) && Backed(l.l3, n, 300_000)
    ensures !FoldedInto(3_600_000, t, l.l4FoldedUntil, L4Horizon(c, log.clock)) ==>
              Exact(l.l4, n, 3_600_000, L4Horizon(c, log.clock), Mark(l, L4)) && Backed(l.l4, n, 3_600_000)
  {
    hide Valid, Sum, BucketStartFor, Exact, Backed, Shaped, InClock, L2Cutoff, L3Cutoff, L4Cutoff, OnlyAt, Positive, Aligned,
         FoldedInto;
    var m := log.recorded;
    CoarseTiers(c, l, log, l);
    BucketAround(300_000, t);
    BucketAround(3_600_000, t);
    StaysBacked(l.l3, m, n, 300_000, t);
    StaysBacked(l.l4, m, n, 3_600_000, t);
    MarkAhead(300_000, t, l.l3FoldedUntil, L3Horizon(c, l, log.clock));
    MarkAhead(3_600_000, t, l.l4FoldedUntil, L4Horizon(c, log.clock));
    if !FoldedInto(300_000, t, l.l3FoldedUntil, L3Horizon(c, l, log.clock)) {
      LeftExact(l.l3, m, n, 300_000, t, BucketStartFor(300_000, t), L3Horizon(c, l, log.clock), Mark(l, L3));
    }
    if !FoldedInto(3_600_000, t, l.l4FoldedUntil, L4Horizon(c, log.clock)) {
      LeftExact(l.l4, m, n, 3_600_000, t, BucketStartFor(3_600_000, t), L4Horizon(c, log.clock), Mark(l, L4));
    }
  }

  /** The parts of the invariant after an interruption. */
  lemma ValidParts(c: Config, l: Ladder, r: Ladder, log: Log, n: map<int, Summary>)
    requires Valid(c, l, log) && r == l.(raw := r.raw, l2 := r.l2, l3 := r.l3) && WellFormed(c, r)
    requires MinuteTier(r.l2, r.raw, n, L2Horizon(c, l, log.clock)) && LogShaped(n) && RawShaped(r.raw, n)
    requires Exact(r.l3, n, 300_000, L3Horizon(c, l, log.clock), Mark(l, L3)) && Backed(r.l3, n, 300_000)
    requires Exact(r.l4, n, 3_600_000, L4Horizon(c, log.clock), Mark(l, L4)) && Backed(r.l4, n, 3_600_000)
    ensures Valid(c, r, log.(recorded := n))
  {
    hide Exact, Backed, RawFits, Shaped, L2Cutoff, L3Cutoff, LogShaped, RawShaped, WellFormed;
  }

  /** A tile that answers for the time of the row and was not touched does not have it. */
  lemma UntouchedMisses(c: Config, l: Ladder, r: Ladder, log: Log, sample: RawSample, tier: Tier)
    requires Valid(c, l, log) && InClock(sample.capturedAtMs) && sample.capturedAtMs !in l.raw
    requires tier == L3 || tier == L4
    requires r.Rows(tier) == l.Rows(tier) && r.l3FoldedUntil == l.l3FoldedUntil && r.l4FoldedUntil == l.l4FoldedUntil
    requires FoldedInto(tier.ResolutionMs(), sample.capturedAtMs, l.FoldedUntil(tier),
                        if tier == L3 then L3Horizon(c, l, log.clock) else L4Horizon(c, log.clock))
    ensures !Valid(c, r, log.(recorded := Record(log.recorded, l, sample)))
  {
    hide Valid, BucketStartFor, InClock, Sum, Record, L3Cutoff, L4Horizon, Tile;
    var start, w := BucketStartFor(tier.ResolutionMs(), sample.capturedAtMs), tier.ResolutionMs();
    var after := log.(recorded := Record(log.recorded, l, sample));
    BucketAround(w, sample.capturedAtMs);
    RowGrows(log.recorded, l, sample, start, start + w);
    TileKnown(c, l, log, tier, start);
    if Valid(c, r, after) {
      TileKnown(c, r, after, tier, start);
      assert false;
    }
  }

  /** Nor does an unexpired minute that is not touched, or is rebuilt one row short. */
  lemma MinuteMisses(c: Config, l: Ladder, r: Ladder, log: Log, sample: RawSample)
    requires Valid(c, l, log) && InClock(sample.capturedAtMs) && sample.capturedAtMs !in l.raw
    requires !MinuteExpired(c, l, log.clock, sample.capturedAtMs)
    requires r.l3FoldedUntil == l.l3FoldedUntil && r.l4FoldedUntil == l.l4FoldedUntil
    requires r.l2 == l.l2 || (HidesPrunedRow(l, sample.capturedAtMs) && r.l2 == WithMinute(l, sample).l2)
    ensures !Valid(c, r, log.(recorded := Record(log.recorded, l, sample)))
  {
    hide Valid, InClock, Sum, Record, Tile, L2Cutoff, BucketStartFor, HidesPrunedRow, Updated, SummaryOf;
    var t, after := sample.capturedAtMs, log.(recorded := Record(log.recorded, l, sample));
    MinutesShaped(c, l, log);
    AroundMinute(t);
    MinuteIs(c, l, log, t);
    RowGrows(log.recorded, l, sample, MinuteOf(t), MinuteOf(t) + 60_000);
    if r.l2 != l.l2 {
      HiddenRowIsLost(c, l, log, sample);
      TileCount(r.l2, MinuteOf(t));
    }
    if Valid(c, r, after) {
      MinuteIs(c, r, after, t);
      assert false;
    }
  }

  lemma TileCount(table: Table, k: int)
    ensures k in table ==> Tile(table, k).Count() == table[k].sampleCount
  {
  }

  // ---------- The three interruptions ----------

  /** An expired minute is too old for the re-folds that would have to read it. */
  lemma ExpiredUnread(c: Config, l: Ladder, log: Log, now: int, t: int)
    requires Valid(c, l, log) && InClock(t) && MinuteExpired(c, l, now, t)
    ensures FoldedInto(300_000, t, l.l3FoldedUntil, L3Horizon(c, l, now)) ==>
              !FiveMinutesAreRead(c, now, BucketStartFor(300_000, t))
    ensures ReReads(c, l, now, t) ==> NothingFolded(c, l, now, t)
  {
    hide BucketStartFor, InClock, Shaped, KeepMs, SatSub, TiersExact, TiersBacked, RawFits, LogShaped, RawShaped;
    BucketAround(60_000, t);
    BucketAround(300_000, t);
    BucketsNest(60_000, 300_000, t);
    BucketsNest(300_000, 3_600_000, t);
  }

  /** Kept as it is after the raw row alone. */
  lemma RowAlone(c: Config, l: Ladder, log: Log, sample: RawSample)
    requires Valid(c, l, log) && InClock(sample.capturedAtMs) && sample.capturedAtMs !in l.raw
    requires MinuteExpired(c, l, log.clock, sample.capturedAtMs) && NothingFolded(c, l, log.clock, sample.capturedAtMs)
    ensures Valid(c, l.(raw := StoredRaw(l, sample)), log.(recorded := Record(log.recorded, l, sample)))
  {
    var t, n, r := sample.capturedAtMs, Record(log.recorded, l, sample), l.(raw := StoredRaw(l, sample));
    hide Exact, Backed, RawFits, Shaped, InClock, FoldedInto, Sum, BucketStartFor, Record, HidesPrunedRow, L2Cutoff, L3Cutoff;
    RecordShaped(log.recorded, l, sample);
    PositiveLog(n);
    UnfoldedStays(c, l, log, n, t);
    MinuteAligned(t);
    AroundMinute(t);
    FitsElsewhere(l, log.recorded, n, sample, L2Horizon(c, l, log.clock));
    StaysBacked(l.l2, log.recorded, n, 60_000, t);
    LeftExact(l.l2, log.recorded, n, 60_000, t, MinuteOf(t), L2Horizon(c, l, log.clock), I64_MAX);
    SameShape(c, l, r);
    ValidParts(c, l, r, log, n);
  }

  lemma SameShape(c: Config, l: Ladder, r: Ladder)
    requires WellFormed(c, l) && r == l.(raw := r.raw)
    ensures WellFormed(c, r)
  {
    hide Shaped;
  }

  lemma RetryAfterRow(c: Config, l: Ladder, log: Log, sample: RawSample)
    requires Valid(c, l, log) && InClock(sample.capturedAtMs) && sample.capturedAtMs !in l.raw
    ensures Valid(c, InsertSample(c, Interrupted(c, l, sample, log.clock, BeforeMinute), sample, log.clock).0,
                  log.(recorded := Record(log.recorded, l, sample)))
       <==> RetryKeeps(c, l, log.clock, sample.capturedAtMs, BeforeMinute)
  {
    hide Valid, InClock, MinuteExpired, Partial, HidesPrunedRow, FoldedInto, HourIsRead, FiveMinutesAreRead, InsertSample,
         RefoldAncestors, BucketStartFor, Record, L3Cutoff, Shaped;
    var t, now, i := sample.capturedAtMs, log.clock, Interrupted(c, l, sample, log.clock, BeforeMinute);
    var r := InsertSample(c, i, sample, now).0;
    MinutesShaped(c, l, log);
    SecondTry(c, l, sample, now, BeforeMinute);
    HidesIsPartial(l, t);
    if MinuteExpired(c, l, now, t) {
      ExpiredUnread(c, l, log, now, t);
    }
    if Merges(l, t) {
      AfterRowMerged(c, l, log, sample, r);
    } else {
      AfterRowRebuilt(c, l, log, sample, r);
    }
  }

  lemma HidesIsPartial(l: Ladder, t: int)
    ensures HidesPrunedRow(l, t) ==> Partial(l, t)
  {
    hide BucketStartFor, RawIn;
  }

  lemma AfterRowMerged(c: Config, l: Ladder, log: Log, sample: RawSample, r: Ladder)
    requires Valid(c, l, log) && InClock(sample.capturedAtMs) && sample.capturedAtMs !in l.raw
    requires Merges(l, sample.capturedAtMs) && r == l.(raw := StoredRaw(l, sample))
    ensures Valid(c, r, log.(recorded := Record(log.recorded, l, sample)))
       <==> MinuteExpired(c, l, log.clock, sample.capturedAtMs) && NothingFolded(c, l, log.clock, sample.capturedAtMs)
  {
    hide Valid, InClock, MinuteExpired, Partial, HidesPrunedRow, FoldedInto, Record, L3Cutoff;
    var t, now := sample.capturedAtMs, log.clock;
    if !MinuteExpired(c, l, now, t) {
      MinuteMisses(c, l, r, log, sample);
    } else if FoldedInto(300_000, t, l.l3FoldedUntil, L3Horizon(c, l, now)) {
      UntouchedMisses(c, l, r, log, sample, L3);
    } else if FoldedInto(3_600_000, t, l.l4FoldedUntil, L4Horizon(c, now)) {
      UntouchedMisses(c, l, r, log, sample, L4);
    } else {
      RowAlone(c, l, log, sample);
    }
  }

  /** The re-folds of a retry, from a minute that is in place. */
  lemma AfterRowRebuilt(c: Config, l: Ladder, log: Log, sample: RawSample, r: Ladder)
    requires Valid(c, l, log) && InClock(sample.capturedAtMs) && sample.capturedAtMs !in l.raw && !Merges(l, sample.capturedAtMs)
    requires r == RefoldAncestors(c, WithMinute(l, sample), sample.capturedAtMs, log.clock, RawToBucket(sample), false)
    ensures Valid(c, r, log.(recorded := Record(log.recorded, l, sample)))
       <==> (MinuteExpired(c, l, log.clock, sample.capturedAtMs) || !HidesPrunedRow(l, sample.capturedAtMs))
            && ReReads(c, l, log.clock, sample.capturedAtMs)
  {
    hide Valid, InClock, MinuteExpired, Partial, HidesPrunedRow, FoldedInto, HourIsRead, FiveMinutesAreRead, RefoldAncestors,
         BucketStartFor, Record, L3Cutoff, WithMinute;
    var t, now, u := sample.capturedAtMs, log.clock, WithMinute(l, sample);
    RefoldsLeaveMinutes(c, u, t, now, RawToBucket(sample), false);
    RefoldedAlone(c, l, log, sample);
    if !MinuteExpired(c, l, now, t) && HidesPrunedRow(l, t) {
      MinuteMisses(c, l, r, log, sample);
    } else if !ReReads(c, l, now, t) {
      if FoldedInto(300_000, t, l.l3FoldedUntil, L3Horizon(c, l, now))
         && !FiveMinutesAreRead(c, now, BucketStartFor(300_000, t)) {
        UntouchedMisses(c, l, r, log, sample, L3);
      } else {
        UntouchedMisses(c, l, r, log, sample, L4);
      }
    } else {
      NewMinuteFacts(c, l, log, sample);
      ReadIsReached(c, l, log, u, sample);
      RefoldsKeep(c, l, log, u, Record(log.recorded, l, sample), sample, false);
    }
  }

  /** What the re-folds of a retry leave alone. */
  lemma RefoldedAlone(c: Config, l: Ladder, log: Log, sample: RawSample)
    requires Valid(c, l, log)
    ensures var u, t := WithMinute(l, sample), sample.capturedAtMs;
            var r := RefoldAncestors(c, u, t, log.clock, RawToBucket(sample), false);
            && r.l3FoldedUntil == l.l3FoldedUntil && r.l4FoldedUntil == l.l4FoldedUntil
            && (!FiveMinutesAreRead(c, log.clock, BucketStartFor(300_000, t)) ==> r.l3 == l.l3)
            && (!HourIsRead(c, l, log.clock, BucketStartFor(3_600_000, t)) ==> r.l4 == l.l4)
  {
    hide Valid, BucketStartFor, RefoldL3, RefoldL4, WithMinute, FiveMinutesAreRead;
    var u, t, now, b := WithMinute(l, sample), sample.capturedAtMs, log.clock, RawToBucket(sample);
    FlagsKnown(c, l, log, sample);
    FiveMinutesStay(c, u, t, now, b);
    HourStays(c, RefoldL3(c, u, t, now, b, false), t, now, b);
  }

  lemma ReadIsReached(c: Config, l: Ladder, log: Log, u: Ladder, sample: RawSample)
    requires ReReads(c, l, log.clock, sample.capturedAtMs) && u == l.(raw := u.raw, l2 := u.l2)
    requires RecordedOnce(log.recorded, Record(log.recorded, l, sample), sample.capturedAtMs)
    ensures Recorded(c, u, log.recorded, Record(log.recorded, l, sample), sample, log.clock, false)
  {
    hide FiveMinutesAreRead, BucketStartFor, L3Cutoff, Record, Sum, InClock, RecordedOnce;
    assert FoldedInto(300_000, sample.capturedAtMs, u.l3FoldedUntil, L3Horizon(c, u, log.clock)) ==>
        FiveMinutesAreRead(c, log.clock, BucketStartFor(300_000, sample.capturedAtMs));
  }

  lemma RetryAfterMinute(c: Config, l: Ladder, log: Log, sample: RawSample)
    requires Valid(c, l, log) && InClock(sample.capturedAtMs) && sample.capturedAtMs !in l.raw
    ensures Valid(c, InsertSample(c, Interrupted(c, l, sample, log.clock, BeforeRefolds), sample, log.clock).0,
                  log.(recorded := Record(log.recorded, l, sample)))
       <==> RetryKeeps(c, l, log.clock, sample.capturedAtMs, BeforeRefolds)
  {
    hide Valid, InClock, MinuteExpired, Partial, HidesPrunedRow, FoldedInto, HourIsRead, FiveMinutesAreRead, InsertSample,
         RefoldAncestors, BucketStartFor, Record, L3Cutoff, Shaped;
    var t, now, i := sample.capturedAtMs, log.clock, Interrupted(c, l, sample, log.clock, BeforeRefolds);
    var r := InsertSample(c, i, sample, now).0;
    MinutesShaped(c, l, log);
    SecondTry(c, l, sample, now, BeforeRefolds);
    if Merges(l, t) {
      AfterMinuteMerged(c, l, log, sample, r);
    } else {
      assert i.(l2 := WithMinute(l, sample).l2) == WithMinute(l, sample);
      AfterRowRebuilt(c, l, log, sample, r);
    }
  }

  lemma AfterMinuteMerged(c: Config, l: Ladder, log: Log, sample: RawSample, r: Ladder)
    requires Valid(c, l, log) && InClock(sample.capturedAtMs) && sample.capturedAtMs !in l.raw
    requires Merges(l, sample.capturedAtMs) && r == WithMinute(l, sample)
    ensures Valid(c, r, log.(recorded := Record(log.recorded, l, sample)))
       <==> NothingFolded(c, l, log.clock, sample.capturedAtMs)
  {
    hide Valid, InClock, MinuteExpired, Partial, HidesPrunedRow, FoldedInto, Record, L3Cutoff, WithMinute, LogShaped, RawShaped,
         MinuteTier, WellFormed, Exact, Backed;
    var t, now, n := sample.capturedAtMs, log.clock, Record(log.recorded, l, sample);
    NewMinuteFacts(c, l, log, sample);
    if FoldedInto(300_000, t, l.l3FoldedUntil, L3Horizon(c, l, now)) {
      UntouchedMisses(c, l, r, log, sample, L3);
    } else if FoldedInto(3_600_000, t, l.l4FoldedUntil, L4Horizon(c, now)) {
      UntouchedMisses(c, l, r, log, sample, L4);
    } else {
      UnfoldedStays(c, l, log, n, t);
      ValidParts(c, l, r, log, n);
    }
  }

  /** The ladder after the re-fold of the five minutes has been done, the first time. */
  lemma FiveMinutesDone(c: Config, l: Ladder, log: Log, sample: RawSample)
    requires Valid(c, l, log) && InClock(sample.capturedAtMs) && sample.capturedAtMs !in l.raw
    requires MinuteExpired(c, l, log.clock, sample.capturedAtMs) || !HidesPrunedRow(l, sample.capturedAtMs)
    ensures var v, n := Interrupted(c, l, sample, log.clock, BeforeHour), Record(log.recorded, l, sample);
            && MinuteTier(v.l2, v.raw, n, L2Horizon(c, l, log.clock)) && WellFormed(c, v) && LogShaped(n) && RawShaped(v.raw, n)
            && v == l.(raw := v.raw, l2 := v.l2, l3 := v.l3)
            && RecordedOnce(log.recorded, n, sample.capturedAtMs)
            && Exact(v.l3, n, 300_000, L3Horizon(c, l, log.clock), Mark(l, L3)) && Backed(v.l3, n, 300_000)
  {
    hide Valid, InClock, MinuteExpired, HidesPrunedRow, Record, L3Cutoff, L2Cutoff, WithMinute, LogShaped, RawShaped, Exact, RawFits,
         Shaped, Backed, RefoldL3, Join, SampleSummary, WellFormed, RecordedOnce, TotalsReached, HourReached;
    var u, n, now := WithMinute(l, sample), Record(log.recorded, l, sample), log.clock;
    NewMinuteFacts(c, l, log, sample);
    CoarseTiers(c, l, log, u);
    RefoldL3Keeps(c, u, log.recorded, n, sample, now, true);
    SameForL4(c, u, RefoldL3(c, u, sample.capturedAtMs, now, RawToBucket(sample), true), log.recorded, n, sample, now, true);
  }

  lemma RetryAfterFiveMinutes(c: Config, l: Ladder, log: Log, sample: RawSample)
    requires Valid(c, l, log) && InClock(sample.capturedAtMs) && sample.capturedAtMs !in l.raw
    ensures Valid(c, InsertSample(c, Interrupted(c, l, sample, log.clock, BeforeHour), sample, log.clock).0,
                  log.(recorded := Record(log.recorded, l, sample)))
       <==> RetryKeeps(c, l, log.clock, sample.capturedAtMs, BeforeHour)
  {
    hide Valid, InClock, MinuteExpired, Partial, HidesPrunedRow, FoldedInto, HourIsRead, FiveMinutesAreRead, InsertSample,
         RefoldAncestors, BucketStartFor, Record, L3Cutoff, Shaped, Interrupted;
    var t, now, v := sample.capturedAtMs, log.clock, Interrupted(c, l, sample, log.clock, BeforeHour);
    var r := InsertSample(c, v, sample, now).0;
    MinutesShaped(c, l, log);
    Cuts(c, l, sample, now, BeforeHour);
    SecondTry(c, l, sample, now, BeforeHour);
    if Merges(l, t) {
      AfterFiveMerged(c, l, log, sample, v);
    } else {
      assert v.(l2 := WithMinute(l, sample).l2) == v;
      AfterFiveRebuilt(c, l, log, sample, v, r);
    }
  }

  lemma AfterFiveMerged(c: Config, l: Ladder, log: Log, sample: RawSample, v: Ladder)
    requires Valid(c, l, log) && InClock(sample.capturedAtMs) && sample.capturedAtMs !in l.raw
    requires Merges(l, sample.capturedAtMs) && v == Interrupted(c, l, sample, log.clock, BeforeHour)
    ensures Valid(c, v, log.(recorded := Record(log.recorded, l, sample)))
       <==> !FoldedInto(3_600_000, sample.capturedAtMs, l.l4FoldedUntil, L4Horizon(c, log.clock))
  {
    hide Valid, InClock, MinuteExpired, Partial, HidesPrunedRow, FoldedInto, Record, L3Cutoff, LogShaped, RawShaped, MinuteTier,
         WellFormed, Exact, Backed, Interrupted;
    var t, n := sample.capturedAtMs, Record(log.recorded, l, sample);
    FiveMinutesDone(c, l, log, sample);
    if FoldedInto(3_600_000, t, l.l4FoldedUntil, L4Horizon(c, log.clock)) {
      UntouchedMisses(c, l, v, log, sample, L4);
    } else {
      UnfoldedStays(c, l, log, n, t);
      ValidParts(c, l, v, log, n);
    }
  }

  lemma AfterFiveRebuilt(c: Config, l: Ladder, log: Log, sample: RawSample, v: Ladder, r: Ladder)
    requires Valid(c, l, log) && InClock(sample.capturedAtMs) && sample.capturedAtMs !in l.raw && !Merges(l, sample.capturedAtMs)
    requires v == Interrupted(c, l, sample, log.clock, BeforeHour)
    requires r == RefoldAncestors(c, v, sample.capturedAtMs, log.clock, RawToBucket(sample), false)
    ensures Valid(c, r, log.(recorded := Record(log.recorded, l, sample)))
       <==> (MinuteExpired(c, l, log.clock, sample.capturedAtMs) || !HidesPrunedRow(l, sample.capturedAtMs))
            && HourReReads(c, l, log.clock, sample.capturedAtMs)
  {
    hide Valid, InClock, MinuteExpired, Partial, HidesPrunedRow, FoldedInto, HourIsRead, RefoldAncestors, BucketStartFor, Record,
         L3Cutoff, Interrupted, WithMinute;
    var t, now, b := sample.capturedAtMs, log.clock, RawToBucket(sample);
    Cuts(c, l, sample, now, BeforeHour);
    RefoldsLeaveMinutes(c, v, t, now, b, false);
    if !MinuteExpired(c, l, now, t) && HidesPrunedRow(l, t) {
      MinuteMisses(c, l, r, log, sample);
    } else if !HourReReads(c, l, now, t) {
      HourAlone(c, l, log, sample, v);
      UntouchedMisses(c, l, r, log, sample, L4);
    } else {
      HourMadeGood(c, l, log, sample, v);
    }
  }

  lemma HourAlone(c: Config, l: Ladder, log: Log, sample: RawSample, v: Ladder)
    requires Valid(c, l, log) && v == Interrupted(c, l, sample, log.clock, BeforeHour)
    requires !HourIsRead(c, l, log.clock, BucketStartFor(3_600_000, sample.capturedAtMs))
    ensures RefoldAncestors(c, v, sample.capturedAtMs, log.clock, RawToBucket(sample), false).l4 == l.l4
  {
    hide Valid, BucketStartFor, RefoldL3, RefoldL4, Interrupted;
    var t, now, b := sample.capturedAtMs, log.clock, RawToBucket(sample);
    Cuts(c, l, sample, now, BeforeHour);
    FlagsKnown(c, l, log, sample);
    NoL3NoRefold(c, l, sample, now);
    FiveMinutesStay(c, v, t, now, b);
    HourStays(c, RefoldL3(c, v, t, now, b, false), t, now, b);
  }

  lemma NoL3NoRefold(c: Config, l: Ladder, sample: RawSample, now: int)
    ensures l.l3FoldedUntil.None? ==> Interrupted(c, l, sample, now, BeforeHour).l3 == l.l3
  {
    hide RefoldOne, Updated, BucketStartFor, RawToBucket;
  }

  lemma HourMadeGood(c: Config, l: Ladder, log: Log, sample: RawSample, v: Ladder)
    requires Valid(c, l, log) && InClock(sample.capturedAtMs) && sample.capturedAtMs !in l.raw
    requires MinuteExpired(c, l, log.clock, sample.capturedAtMs) || !HidesPrunedRow(l, sample.capturedAtMs)
    requires v == Interrupted(c, l, sample, log.clock, BeforeHour) && HourReReads(c, l, log.clock, sample.capturedAtMs)
    ensures Valid(c, RefoldAncestors(c, v, sample.capturedAtMs, log.clock, RawToBucket(sample), false),
                  log.(recorded := Record(log.recorded, l, sample)))
  {
    hide Valid, InClock, MinuteExpired, HidesPrunedRow, Record, L3Cutoff, L2Cutoff, LogShaped, RawShaped, Exact, RawFits, Shaped,
         Backed, RefoldL3, RefoldL4, WellFormed, Interrupted, FoldedInto, HourIsRead, BucketStartFor, Sum;
    var t, n, now, b := sample.capturedAtMs, Record(log.recorded, l, sample), log.clock, RawToBucket(sample);
    FiveMinutesDone(c, l, log, sample);
    CoarseTiers(c, l, log, l);
    AgreesWithItself(log.recorded, n, t);
    RefoldL3Keeps(c, v, n, n, sample, now, false);
    var w := RefoldL3(c, v, t, now, b, false);
    SameForL4(c, v, w, n, n, sample, now, false);
    RefoldL3LeavesMinute(c, v, t, now, b, false);
    HourIsReached(c, l, log, w, sample);
    RefoldL4Keeps(c, w, log.recorded, n, sample, now, false);
    ValidAgain(c, w, RefoldL4(c, w, t, now, b, false), log.(recorded := n));
  }

  lemma HourIsReached(c: Config, l: Ladder, log: Log, w: Ladder, sample: RawSample)
    requires HourReReads(c, l, log.clock, sample.capturedAtMs) && w == l.(raw := w.raw, l2 := w.l2, l3 := w.l3)
    requires RecordedOnce(log.recorded, Record(log.recorded, l, sample), sample.capturedAtMs)
    ensures HourRecorded(c, w, log.recorded, Record(log.recorded, l, sample), sample, log.clock, false)
  {
    hide FiveMinutesAreRead, BucketStartFor, L4Horizon, Record, Sum, InClock, RecordedOnce;
  }

  lemma AgreesWithItself(m: map<int, Summary>, n: map<int, Summary>, t: int)
    requires RecordedOnce(m, n, t)
    ensures RecordedOnce(n, n, t)
  {
  }

  /** An insert that stops between its statements and is tried again ends in the invariant, with its sample recorded, if and
    * only if the condition of that interruption holds. */
  lemma RetryExactly(c: Config, l: Ladder, log: Log, sample: RawSample, now: int, cut: Cut)
    requires Valid(c, l, log) && log.clock <= now && InClock(sample.capturedAtMs) && sample.capturedAtMs !in l.raw
    ensures Valid(c, InsertSample(c, Interrupted(c, l, sample, now, cut), sample, now).0,
                  Log(Record(log.recorded, l, sample), now))
       <==> RetryKeeps(c, l, now, sample.capturedAtMs, cut)
  {
    hide Valid, InClock, RetryKeeps, Interrupted, InsertSample, Record;
    var later := log.(clock := now);
    TimePasses(c, l, log, now);
    match cut
    case BeforeMinute => RetryAfterRow(c, l, later, sample);
    case BeforeRefolds => RetryAfterMinute(c, l, later, sample);
    case BeforeHour => RetryAfterFiveMinutes(c, l, later, sample);
  }
}

/** When a tick writes a bucket: as soon as its time has passed by the grace, and not before (`maintenance.rs`, `ladder.rs`). */
module LadderTimely {
  import opened Prelude
  import opened TierFold
  import opened TimeGrid
  import opened LadderModel
  import opened LadderTables
  import opened LadderInvariant
  import opened LadderPromotion
  import opened LadderProgress
  import opened LadderTick

  /** A bucket of `w` milliseconds from `start` ended at least three seconds and two polls before `now`. */
  predicate Ripe(c: Config, w: int, start: int, now: int) {
    SatAdd(SatAdd(start, w), if 2 * c.pollIntervalMs >= 3_000 then Clamp(2 * c.pollIntervalMs) else 3_000) <= now
  }

  /** The row at `k` is new or has changed. */
  predicate Written(before: Table, after: Table, k: int) { k in after && (k !in before || after[k] != before[k]) }

  lemma DueIsRipe(c: Config, l: Ladder, now: int, faults: TickFaults, k: int)
    ensures Due(L3Pass(c, now, faults), k) <==> Ripe(c, 300_000, k, now)
    ensures Due(L4Pass(c, l, now, faults), k) <==>
            Ripe(c, 3_600_000, k, now)
            && (c.l3.enabled && !faults.gateLost && l.l3FoldedUntil.Some? ==> SatAdd(k, 3_600_000) <= l.l3FoldedUntil.value)
  {
    hide SatAdd, GraceMs;
    GraceIs(c.pollIntervalMs);
  }

  lemma GraceIs(pollIntervalMs: int)
    ensures GraceMs(pollIntervalMs) == if 2 * pollIntervalMs >= 3_000 then Clamp(2 * pollIntervalMs) else 3_000
  {
  }

  /** A deletion writes nothing. */
  lemma PruneWritesNothing(c: Config, l: Ladder, now: int, l3Mark: Option<int>, l4Mark: Option<int>, archived: Option<set<int>>,
                           fails: set<Tier>, k: int)
    ensures var r := PruneTiers(c, l, now, l3Mark, l4Mark, archived, fails);
            && (k in r.l3 ==> k in l.l3 && r.l3[k] == l.l3[k])
            && (k in r.l4 ==> k in l.l4 && r.l4[k] == l.l4[k])
  {
    hide L2Cutoff, L3Cutoff, L4Cutoff;
  }

  /** Nothing goes into a coarser tier early: whatever a tick adds or changes there had ended three seconds and two polls
    * before, and an hour had moreover ended by the L3 watermark, where that was read. */
  lemma TickIsTimely(c: Config, l: Ladder, now: int, archived: Option<set<int>>, faults: TickFaults, k: int)
    requires ClockKeys(l.l2) && ClockKeys(l.l3)
    ensures var r := Maintain(c, l, now, archived, faults).0;
            && (Written(l.l3, r.l3, k) ==> c.l3.enabled && Ripe(c, 300_000, k, now))
            && (Written(l.l4, r.l4, k) ==> c.l4.enabled && Ripe(c, 3_600_000, k, now))
  {
    hide PromoteL3, PromoteL4, ClockKeys, PruneTiers, Ripe, WithFlags;
    var flagged := WithFlags(c, l, faults);
    FlagsLeaveAll(c, l, faults);
    PromoteL3KeepsClock(c, flagged, now, faults);
    var folded3 := PromoteL3(c, flagged, now, faults).0;
    var folded4 := PromoteL4(c, folded3, now, faults).0;
    FiveMinutesTimely(c, flagged, now, faults, k);
    HoursTimely(c, folded3, now, faults, k);
    PruneWritesNothing(c, folded4, now, if faults.l3MarkLost then None else l.l3FoldedUntil,
                       if faults.l4MarkLost then None else l.l4FoldedUntil, archived, faults.pruneFails, k);
  }

  lemma FlagsLeaveAll(c: Config, l: Ladder, faults: TickFaults)
    ensures var r := WithFlags(c, l, faults);
            r == l.(l3Enabled := r.l3Enabled, l4Enabled := r.l4Enabled)
  {
  }

  lemma FiveMinutesTimely(c: Config, l: Ladder, now: int, faults: TickFaults, k: int)
    requires ClockKeys(l.l2)
    ensures var r := PromoteL3(c, l, now, faults).0;
            && (Written(l.l3, r.l3, k) ==> c.l3.enabled && Ripe(c, 300_000, k, now))
            && r.l4 == l.l4 && r.l2 == l.l2 && r.l4FoldedUntil == l.l4FoldedUntil
  {
    hide PromoteFrom, ClockKeys, Due, Ripe;
    if c.l3.enabled {
      var p, from := L3Pass(c, now, faults), l.FoldedUntil(L3).UnwrapOr(I64_MIN);
      PassIsTimely(l, p, from, 0, k);
      PassTouchesTarget(l, p, from, 0);
      DueIsRipe(c, l, now, faults, k);
    }
  }

  lemma HoursTimely(c: Config, l: Ladder, now: int, faults: TickFaults, k: int)
    requires ClockKeys(l.l2) && ClockKeys(l.l3)
    ensures var r := PromoteL4(c, l, now, faults).0;
            && (Written(l.l4, r.l4, k) ==> c.l4.enabled && Ripe(c, 3_600_000, k, now))
            && r.l3 == l.l3 && r.l2 == l.l2
  {
    hide PromoteFrom, ClockKeys, Due, Ripe;
    if c.l4.enabled {
      var p, from := L4Pass(c, l, now, faults), l.FoldedUntil(L4).UnwrapOr(I64_MIN);
      PassIsTimely(l, p, from, 0, k);
      PassTouchesTarget(l, p, from, 0);
      DueIsRipe(c, l, now, faults, k);
    }
  }

  lemma {:induction false} PassTouchesTarget(l: Ladder, p: Pass, from: int, promoted: nat)
    requires Promotes(p.source, p.target) && ClockKeys(l.Rows(p.source))
    ensures var r := PromoteFrom(l, p, from, promoted).0;
            r == l.WithRows(p.target, r.Rows(p.target)).WithFoldedUntil(p.target, r.FoldedUntil(p.target))
    decreases |KeysFrom(l.Rows(p.source), from)|
  {
    if promoted < MAX_PROMOTIONS_PER_TICK {
      TurnAdvances(l, p, from, promoted);
      TurnTouchesTarget(l, p, from, promoted);
      hide NextTurn, KeysFrom, ClockKeys;
      match NextTurn(l, p, from, promoted)
      case Stop(left) =>
      case Skip(until) => PassTouchesTarget(l, p, until, promoted);
      case Wrote(left, until) => PassTouchesTarget(left, p, until, promoted + 1);
    }
  }

  lemma TurnTouchesTarget(l: Ladder, p: Pass, from: int, promoted: nat)
    requires Promotes(p.source, p.target) && ClockKeys(l.Rows(p.source))
    ensures var turn := NextTurn(l, p, from, promoted);
            !turn.Skip? ==>
              && ClockKeys(turn.left.Rows(p.source))
              && turn.left ==
                   l.WithRows(p.target, turn.left.Rows(p.target)).WithFoldedUntil(p.target, turn.left.FoldedUntil(p.target))
  {
    hide Fold, RowsIn, Held, BucketStartFor, OldestAtOrAfter, SatAdd;
  }

  // ---------- And nothing waits longer ----------

  /** The target of the source row at `s` is in the table. */
  predicate Has(target: Table, w: int, s: int)
    requires w > 0
  {
    BucketStartFor(w, s) in target
  }

  /** A pass without a failure that has budget left has written the target of every source row that is due. */
  lemma DueIsWritten(l: Ladder, p: Pass, from: int, s: int)
    requires Promotes(p.source, p.target) && ClockKeys(l.Rows(p.source)) && p.fault == NoFault
    requires Boundary(p.target.ResolutionMs(), from) && PositiveTable(l.Rows(p.source))
    requires s in l.Rows(p.source) && s >= from && Due(p, BucketStartFor(p.target.ResolutionMs(), s))
    requires PromoteFrom(l, p, from, 0).1 < 50
    ensures Has(PromoteFrom(l, p, from, 0).0.Rows(p.target), p.target.ResolutionMs(), s)
  {
    var source, w := l.Rows(p.source), p.target.ResolutionMs();
    var stop := PassStopsOnlyAtAWall(l, p, from, 0);
    hide PromoteFrom, KeysFrom, Boundary, Due, Fold, RowsIn, BucketStartFor, InClock;
    assert InClock(s) by { KeyInClock(source, s); }
    if s >= stop {
      NextIsDue(l, p, stop, s);
    } else {
      assert Served(source, PromoteFrom(l, p, from, 0).0.Rows(p.target), w, s);
      TileHolds(source, w, s);
    }
  }

  lemma KeyInClock(table: Table, s: int)
    requires ClockKeys(table) && s in table
    ensures InClock(s)
  {
  }

  lemma TileHolds(source: Table, w: int, s: int)
    requires Coarse(w) && InClock(s) && s in source && PositiveTable(source)
    ensures FoldTile(source, w, BucketStartFor(w, s)).Some?
  {
    var start := BucketStartFor(w, s);
    BucketAround(w, s);
    FoldRange(source, start, start, start + w);
    SourceHasTotal(source, start, start + w, s);
  }

  /** If a source row at or past the stop is due, so is the next one, and the stop is no wall. */
  lemma NextIsDue(l: Ladder, p: Pass, stop: int, s: int)
    requires Promotes(p.source, p.target) && ClockKeys(l.Rows(p.source))
    requires s in l.Rows(p.source) && s >= stop && Due(p, BucketStartFor(p.target.ResolutionMs(), s))
    ensures !Wall(l.Rows(p.source), p, stop)
  {
    var source, w := l.Rows(p.source), p.target.ResolutionMs();
    assert s in KeysFrom(source, stop);
    var next := OldestAtOrAfter(source, stop).value;
    BucketAround(w, s);
    BucketAround(w, next);
    hide BucketStartFor, Aligned, InClock, OldestAtOrAfter;
    AlignedBefore(w, BucketStartFor(w, next), BucketStartFor(w, s), s);
  }

  /** The tick may delete at once what it has just written, under the cutoffs of that tier. */
  predicate GoneAtOnce(c: Config, l4Mark: Option<int>, tier: Tier, start: int, now: int)
    requires tier == L3 || tier == L4
  {
    if tier == L3 then PastKeep(start + 300_000, c.l3.keepDays, now) && (c.l4.enabled ==> Reached(l4Mark, start + 300_000))
    else L4Expires(c) && PastKeep(start + 3_600_000, c.l4.keepDays, now)
  }

  /** The other half for five minutes: in a tick whose L3 pass does not fail and has some of its fifty promotions left, every
    * minute from the watermark on whose five minutes ended three seconds and two polls ago has been folded into them. */
  lemma RipeFiveMinutesAreWritten(c: Config, l: Ladder, log: Log, now: int, archived: Option<set<int>>, faults: TickFaults, s: int)
    requires Valid(c, l, log) && log.clock <= now && c.l3.enabled && faults.promoteL3 == NoFault
    requires ClockKeys(l.l2) && ClockKeys(l.l3) && Maintain(c, l, now, archived, faults).1 < 50
    requires s in l.l2 && s >= l.l3FoldedUntil.UnwrapOr(I64_MIN) && Ripe(c, 300_000, BucketStartFor(300_000, s), now)
    ensures var l4Mark := if faults.l4MarkLost then None else l.l4FoldedUntil;
            || Has(Maintain(c, l, now, archived, faults).0.l3, 300_000, s)
            || GoneAtOnce(c, l4Mark, L3, BucketStartFor(300_000, s), now)
  {
    hide Ripe, ClockKeys, PromoteL4, BucketStartFor, Due, PruneTiers, WithFlags, GoneAtOnce, Valid, Boundary, PromoteFrom, InClock;
    var flagged, start := WithFlags(c, l, faults), BucketStartFor(300_000, s);
    var p, from := L3Pass(c, now, faults), l.l3FoldedUntil.UnwrapOr(I64_MIN);
    FlagsLeaveAll(c, l, faults);
    ValidSources(c, l, log);
    DueIsRipe(c, l, now, faults, start);
    DueIsWritten(flagged, p, from, s);
    PromoteL3KeepsClock(c, flagged, now, faults);
    var folded3 := PromoteL3(c, flagged, now, faults).0;
    HoursTimely(c, folded3, now, faults, start);
    KeyInClock(l.l2, s);
    KeptUnlessPast(c, PromoteL4(c, folded3, now, faults).0, now, if faults.l3MarkLost then None else l.l3FoldedUntil,
                   if faults.l4MarkLost then None else l.l4FoldedUntil, archived, faults.pruneFails, s);
  }

  lemma ValidSources(c: Config, l: Ladder, log: Log)
    requires Valid(c, l, log)
    ensures PositiveTable(l.l2) && PositiveTable(l.l3)
    ensures Boundary(300_000, l.l3FoldedUntil.UnwrapOr(I64_MIN)) && Boundary(3_600_000, l.l4FoldedUntil.UnwrapOr(I64_MIN))
  {
    hide TiersExact, TiersBacked, RawFits, Aligned, InClock;
  }

  lemma FiveMinutesGo(c: Config, l: Ladder, now: int, l3Mark: Option<int>, l4Mark: Option<int>, archived: Option<set<int>>,
                      fails: set<Tier>, k: int)
    requires I64_MIN <= k && k + 300_000 <= I64_MAX
    ensures k in l.l3 ==>
              || k in PruneTiers(c, l, now, l3Mark, l4Mark, archived, fails).l3
              || GoneAtOnce(c, l4Mark, L3, k, now)
  {
    hide SatMul, SatSub, L2Cutoff, L4Cutoff;
  }

  lemma KeptUnlessPast(c: Config, l: Ladder, now: int, l3Mark: Option<int>, l4Mark: Option<int>, archived: Option<set<int>>,
                       fails: set<Tier>, s: int)
    requires InClock(s)
    ensures var r := PruneTiers(c, l, now, l3Mark, l4Mark, archived, fails);
            var five, hour := BucketStartFor(300_000, s), BucketStartFor(3_600_000, s);
            && (five in l.l3 ==> five in r.l3 || GoneAtOnce(c, l4Mark, L3, five, now))
            && (hour in l.l4 ==> hour in r.l4 || GoneAtOnce(c, l4Mark, L4, hour, now))
  {
    var five, hour := BucketStartFor(300_000, s), BucketStartFor(3_600_000, s);
    BucketAround(300_000, s);
    BucketAround(3_600_000, s);
    BucketInHour(300_000, s);
    hide BucketStartFor, InClock, PruneTiers, PastKeep, Reached, FoldedOn;
    FiveMinutesGo(c, l, now, l3Mark, l4Mark, archived, fails, five);
    PrunesExactly(c, l, now, l3Mark, l4Mark, archived, fails, hour);
  }

  /** The tier that hours are folded from, as the tick finds it. */
  function HourSource(c: Config, l: Ladder): Table { if c.l3.enabled then l.l3 else l.l2 }

  /** The other half for hours: in a tick whose passes do not fail and whose L4 pass has promotions left, every row of the
    * finer tier from the watermark on whose hour ended three seconds and two polls ago, and with L3 on by its watermark, has
    * been folded into it. */
  lemma RipeHoursAreWritten(c: Config, l: Ladder, log: Log, now: int, archived: Option<set<int>>, faults: TickFaults, s: int)
    requires Valid(c, l, log) && log.clock <= now && c.l4.enabled && faults.promoteL4 == NoFault
    requires ClockKeys(l.l2) && ClockKeys(l.l3) && Maintain(c, l, now, archived, faults).2 < 50
    requires s in HourSource(c, l) && s >= l.l4FoldedUntil.UnwrapOr(I64_MIN)
    requires Ripe(c, 3_600_000, BucketStartFor(3_600_000, s), now)
    requires c.l3.enabled ==>
               l.l3FoldedUntil.Some? && SatAdd(BucketStartFor(3_600_000, s), 3_600_000) <= l.l3FoldedUntil.value
    ensures || Has(Maintain(c, l, now, archived, faults).0.l4, 3_600_000, s)
            || GoneAtOnce(c, l.l4FoldedUntil, L4, BucketStartFor(3_600_000, s), now)
  {
    hide Ripe, ClockKeys, BucketStartFor, Due, PruneTiers, WithFlags, GoneAtOnce, Valid, Boundary, PromoteFrom, InClock, SatAdd;
    var flagged, hour := WithFlags(c, l, faults), BucketStartFor(3_600_000, s);
    var later := log.(clock := now);
    FlagsLeaveAll(c, l, faults);
    TimePasses(c, l, log, now);
    FlagsKeep(c, l, later, faults);
    PromoteL3KeepsClock(c, flagged, now, faults);
    PromoteL3Keeps(c, flagged, later, now, faults);
    FiveMinutesTimely(c, flagged, now, faults, s);
    PromotionsKeepKeys(c, flagged, now, faults);
    var folded3 := PromoteL3(c, flagged, now, faults).0;
    ValidSources(c, folded3, later);
    MarkStays(c, flagged, later, folded3);
    var p, from := L4Pass(c, folded3, now, faults), folded3.l4FoldedUntil.UnwrapOr(I64_MIN);
    DueIsRipe(c, folded3, now, faults, hour);
    DueIsWritten(folded3, p, from, s);
    assert s in l.l2 || s in l.l3;
    SourceInClock(c, l, s);
    HourKept(c, PromoteL4(c, folded3, now, faults).0, now, if faults.l3MarkLost then None else l.l3FoldedUntil,
             if faults.l4MarkLost then None else l.l4FoldedUntil, archived, faults.pruneFails, s, l.l4FoldedUntil);
  }

  lemma SourceInClock(c: Config, l: Ladder, s: int)
    requires ClockKeys(l.l2) && ClockKeys(l.l3) && s in HourSource(c, l)
    ensures InClock(s)
  {
  }

  lemma HourKept(c: Config, l: Ladder, now: int, l3Mark: Option<int>, l4Mark: Option<int>, archived: Option<set<int>>,
                 fails: set<Tier>, s: int, mark: Option<int>)
    requires InClock(s)
    ensures var r := PruneTiers(c, l, now, l3Mark, l4Mark, archived, fails);
            var hour := BucketStartFor(3_600_000, s);
            hour in l.l4 ==> hour in r.l4 || GoneAtOnce(c, mark, L4, hour, now)
  {
    hide PruneTiers, BucketStartFor, InClock;
    KeptUnlessPast(c, l, now, l3Mark, l4Mark, archived, fails, s);
  }

  /** The watermark of L3 is at least what it was. */
  lemma MarkStays(c: Config, l: Ladder, log: Log, r: Ladder)
    requires Valid(c, l, log) && Valid(c, r, log) && Mark(l, L3) <= Mark(r, L3)
    ensures l.l3FoldedUntil.Some? ==> r.l3FoldedUntil.Some? && l.l3FoldedUntil.value <= r.l3FoldedUntil.value
  {
    MarkFloor(c, l, log);
    hide Valid;
  }

  // ---------- No tick writes much ----------

  /** All rows that are new or changed stand at one of `keys`. */
  ghost predicate OnlyWrites(before: Table, after: Table, keys: set<int>) {
    forall k :: Written(before, after, k) ==> k in keys
  }

  lemma TurnWritesOne(l: Ladder, p: Pass, from: int, promoted: nat) returns (key: int)
    requires Promotes(p.source, p.target) && ClockKeys(l.Rows(p.source))
    ensures var turn := NextTurn(l, p, from, promoted);
            && (!turn.Skip? ==> ClockKeys(turn.left.Rows(p.source)) && OnlyWrites(l.Rows(p.target), turn.left.Rows(p.target), {key}))
  {
    hide Fold, RowsIn, Held, BucketStartFor, OldestAtOrAfter, SatAdd;
    var oldest := OldestAtOrAfter(l.Rows(p.source), from);
    key := if oldest.Some? then BucketStartFor(p.target.ResolutionMs(), oldest.value) else 0;
  }

  lemma WritesAdd(a: Table, b: Table, c: Table, key: int, keys: set<int>)
    requires OnlyWrites(a, b, {key}) && OnlyWrites(b, c, keys)
    ensures OnlyWrites(a, c, keys + {key}) && |keys + {key}| <= |keys| + 1
  {
    forall k | Written(a, c, k)
      ensures k in keys + {key}
    {
      assert Written(a, b, k) || Written(b, c, k);
    }
    assert key in keys ==> keys + {key} == keys;
  }

  lemma {:induction false} PassWritesFew(l: Ladder, p: Pass, from: int, promoted: nat) returns (keys: set<int>)
    requires Promotes(p.source, p.target) && ClockKeys(l.Rows(p.source)) && promoted <= 50
    ensures var r := PromoteFrom(l, p, from, promoted);
            r.1 <= 50 && |keys| <= 50 - promoted && OnlyWrites(l.Rows(p.target), r.0.Rows(p.target), keys)
    decreases |KeysFrom(l.Rows(p.source), from)|
  {
    keys := {};
    if promoted < MAX_PROMOTIONS_PER_TICK {
      TurnAdvances(l, p, from, promoted);
      var key := TurnWritesOne(l, p, from, promoted);
      hide NextTurn, KeysFrom, ClockKeys, OnlyWrites;
      match NextTurn(l, p, from, promoted)
      case Stop(left) => keys := {key};
      case Skip(until) => keys := PassWritesFew(l, p, until, promoted);
      case Wrote(left, until) =>
        keys := PassWritesFew(left, p, until, promoted + 1);
        WritesAdd(l.Rows(p.target), left.Rows(p.target), PromoteFrom(left, p, until, promoted + 1).0.Rows(p.target), key, keys);
        keys := keys + {key};
    }
  }

  /** A tick promotes at most fifty buckets into each coarser tier, and writes no more rows than that. */
  lemma TickWritesFew(c: Config, l: Ladder, now: int, archived: Option<set<int>>, faults: TickFaults)
    returns (fives: set<int>, hours: set<int>)
    requires ClockKeys(l.l2) && ClockKeys(l.l3)
    ensures var (r, promotedL3, promotedL4) := Maintain(c, l, now, archived, faults);
            && promotedL3 <= 50 && promotedL4 <= 50 && |fives| <= 50 && |hours| <= 50
            && (forall k :: Written(l.l3, r.l3, k) ==> k in fives)
            && (forall k :: Written(l.l4, r.l4, k) ==> k in hours)
  {
    hide ClockKeys, PruneTiers, WithFlags, PromoteFrom, OnlyWrites;
    var flagged := WithFlags(c, l, faults);
    FlagsLeaveAll(c, l, faults);
    PromoteL3KeepsClock(c, flagged, now, faults);
    var folded3 := PromoteL3(c, flagged, now, faults).0;
    var folded4 := PromoteL4(c, folded3, now, faults).0;
    FiveMinutesTimely(c, flagged, now, faults, 0);
    HoursTimely(c, folded3, now, faults, 0);
    NothingWritten(l.l3);
    NothingWritten(l.l4);
    fives, hours := {}, {};
    if c.l3.enabled {
      fives := PassWritesFew(flagged, L3Pass(c, now, faults), flagged.FoldedUntil(L3).UnwrapOr(I64_MIN), 0);
    }
    if c.l4.enabled {
      hours := PassWritesFew(folded3, L4Pass(c, folded3, now, faults), folded3.FoldedUntil(L4).UnwrapOr(I64_MIN), 0);
    }
    PruneStillFew(c, folded4, now, if faults.l3MarkLost then None else l.l3FoldedUntil,
                  if faults.l4MarkLost then None else l.l4FoldedUntil, archived, faults.pruneFails, l.l3, l.l4, fives, hours);
  }

  lemma NothingWritten(table: Table)
    ensures OnlyWrites(table, table, {})
  {
  }

  lemma PruneStillFew(c: Config, l: Ladder, now: int, l3Mark: Option<int>, l4Mark: Option<int>, archived: Option<set<int>>,
                      fails: set<Tier>, l3: Table, l4: Table, fives: set<int>, hours: set<int>)
    requires OnlyWrites(l3, l.l3, fives) && OnlyWrites(l4, l.l4, hours)
    ensures var r := PruneTiers(c, l, now, l3Mark, l4Mark, archived, fails);
            (forall k :: Written(l3, r.l3, k) ==> k in fives) && (forall k :: Written(l4, r.l4, k) ==> k in hours)
  {
    hide PruneTiers;
    forall k
      ensures var r := PruneTiers(c, l, now, l3Mark, l4Mark, archived, fails);
              (Written(l3, r.l3, k) ==> k in fives) && (Written(l4, r.l4, k) ==> k in hours)
    {
      PruneWritesNothing(c, l, now, l3Mark, l4Mark, archived, fails, k);
      assert Written(l3, l.l3, k) ==> k in fives;
      assert Written(l4, l.l4, k) ==> k in hours;
    }
  }
}

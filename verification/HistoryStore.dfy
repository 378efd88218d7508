/** The store as the object its operations update in place: the tables, the watermarks and the tier flags.
  * Each method carries out the statements of its operation and is proved equal to the operation on values. */
module HistoryStore {
  import opened Prelude
  import opened TierFold
  import opened TimeGrid
  import opened LadderModel
  import opened LadderInvariant
  import opened LadderTick
  import opened LadderInsert
  import opened LadderRuns
  import opened LadderLimits

  class Store {
    var raw: map<int, RawSample>
    var l2: Table
    var l3: Table
    var l4: Table
    var l3FoldedUntil: Option<int>
    var l4FoldedUntil: Option<int>
    var l3Enabled: Option<bool>
    var l4Enabled: Option<bool>

    function State(): Ladder
      reads this
    {
      Ladder(raw, l2, l3, l4, l3FoldedUntil, l4FoldedUntil, l3Enabled, l4Enabled)
    }

    constructor ()
      ensures State() == EMPTY_LADDER
    {
      raw, l2, l3, l4 := map[], map[], map[], map[];
      l3FoldedUntil, l4FoldedUntil, l3Enabled, l4Enabled := None, None, None, None;
    }

    method ReadTierBuckets(tier: Tier, since: int, until: int) returns (rows: seq<TierBucket>)
      ensures rows == RowsIn(State().Rows(tier), since, until)
    {
      rows := RowsIn(State().Rows(tier), since, until);
    }

    method UpsertTierBucket(tier: Tier, bucket: TierBucket)
      modifies this`l2, this`l3, this`l4
      ensures State() == old(State()).WithRows(tier, old(State()).Rows(tier)[bucket.bucketStartMs := bucket])
    {
      match tier
      case L1 =>
      case L2 => l2 := l2[bucket.bucketStartMs := bucket];
      case L3 => l3 := l3[bucket.bucketStartMs := bucket];
      case L4 => l4 := l4[bucket.bucketStartMs := bucket];
    }

    method SetFoldedUntil(tier: Tier, end: int)
      modifies this`l3FoldedUntil, this`l4FoldedUntil
      ensures State() == old(State()).WithFoldedUntil(tier, Some(end))
    {
      if tier == L4 {
        l4FoldedUntil := Some(end);
      } else {
        l3FoldedUntil := Some(end);
      }
    }

    /** The promotion loop: fold the oldest complete source range, write it, move the watermark, until the budget is
      * spent or nothing more may be folded. */
    method Promote(p: Pass) returns (promoted: nat)
      requires Promotes(p.source, p.target) && ClockKeys(State().Rows(p.source))
      modifies this
      ensures (State(), promoted) == LadderModel.Promote(old(State()), p)
    {
      hide Fold, RowsIn, IsComplete, BucketStartFor;
      var searchFrom := State().FoldedUntil(p.target).UnwrapOr(I64_MIN);
      promoted := 0;
      ghost var start := State();
      ghost var from := searchFrom;
      while promoted < MAX_PROMOTIONS_PER_TICK
        invariant ClockKeys(State().Rows(p.source))
        invariant PromoteFrom(State(), p, searchFrom, promoted) == PromoteFrom(start, p, from, 0)
        decreases |KeysFrom(State().Rows(p.source), searchFrom)|
      {
        TurnAdvances(State(), p, searchFrom, promoted);
        var oldest := OldestAtOrAfter(State().Rows(p.source), searchFrom);
        if oldest.None? {
          break;
        }
        var targetStart := BucketStartFor(p.target.ResolutionMs(), oldest.value);
        var targetEnd := SatAdd(targetStart, p.target.ResolutionMs());
        if !IsComplete(targetStart, p.target.ResolutionMs(), p.graceMs, p.nowMs) {
          break;
        }
        if p.gate.Some? && targetEnd > p.gate.value {
          break;
        }
        var finer := ReadTierBuckets(p.source, targetStart, targetEnd);
        var bucket := Fold(targetStart, finer);
        FoldStartsThere(targetStart, finer);
        if bucket.None? {
          searchFrom := targetEnd;
          continue;
        }
        if p.fault == UpsertFails(promoted) {
          break;
        }
        UpsertTierBucket(p.target, bucket.value);
        if p.fault == WatermarkFails(promoted) {
          break;
        }
        SetFoldedUntil(p.target, targetEnd);
        searchFrom := targetEnd;
        promoted := promoted + 1;
      }
    }

    /** The enabled flags, each written unless that fails. */
    method PersistFlags(c: Config, faults: TickFaults)
      modifies this`l3Enabled, this`l4Enabled
      ensures State() == WithFlags(c, old(State()), faults)
    {
      if !faults.l3FlagLost {
        l3Enabled := Some(c.l3.enabled);
      }
      if !faults.l4FlagLost {
        l4Enabled := Some(c.l4.enabled);
      }
    }

    /** One maintenance tick; `faults` says which of its steps fail. */
    method Maintain(c: Config, nowMs: int, archived: Option<set<int>>, faults: TickFaults)
      returns (promotedL3: nat, promotedL4: nat)
      requires ClockKeys(l2) && ClockKeys(l3)
      modifies this
      ensures (State(), promotedL3, promotedL4) == LadderModel.Maintain(c, old(State()), nowMs, archived, faults)
    {
      hide LadderModel.Promote, LadderModel.PruneTiers, ClockKeys;
      PersistFlags(c, faults);
      var initialL3 := if faults.l3MarkLost then None else l3FoldedUntil;
      var initialL4 := if faults.l4MarkLost then None else l4FoldedUntil;
      ghost var flagged := State();
      PromoteL3KeepsClock(c, flagged, nowMs, faults);
      promotedL3, promotedL4 := 0, 0;
      if c.l3.enabled {
        promotedL3 := Promote(L3Pass(c, nowMs, faults));
      }
      ghost var folded3 := State();
      if c.l4.enabled {
        promotedL4 := Promote(L4Pass(c, State(), nowMs, faults));
      }
      PruneTiers(c, nowMs, initialL3, initialL4, archived, faults.pruneFails);
    }

    /** The deletions of a tick, each tier under its own cutoff. */
    method PruneTiers(c: Config, nowMs: int, l3Mark: Option<int>, l4Mark: Option<int>, archived: Option<set<int>>,
                      fails: set<Tier>)
      modifies this`raw, this`l2, this`l3, this`l4
      ensures State() == LadderModel.PruneTiers(c, old(State()), nowMs, l3Mark, l4Mark, archived, fails)
    {
      hide L2Cutoff, L3Cutoff, L4Cutoff, Prune, Drop, PruneRaw, KeepMs, L4Expires;
      if L1 !in fails {
        raw := PruneRaw(raw, SatSub(nowMs, KeepMs(c.l1KeepDays)));
      }
      if L2 !in fails {
        l2 := Prune(l2, L2.ResolutionMs(), L2Cutoff(c, nowMs, l3Mark, l4Mark));
      }
      if c.l3.enabled && L3 !in fails {
        l3 := Prune(l3, L3.ResolutionMs(), L3Cutoff(c, nowMs, l4Mark));
      }
      if L4Expires(c) && L4 !in fails {
        if archived.Some? {
          l4 := Drop(l4, archived.value, L4.ResolutionMs(), L4Cutoff(c, nowMs));
        } else {
          l4 := Prune(l4, L4.ResolutionMs(), L4Cutoff(c, nowMs));
        }
      }
    }

    method RefoldOne(source: Tier, target: Tier, targetStart: int, nowMs: int, sourceKeepDays: int,
                     newSample: TierBucket, newRawRow: bool)
      requires Promotes(source, target)
      modifies this
      ensures State() == LadderModel.RefoldOne(old(State()), source, target, targetStart, nowMs, sourceKeepDays, newSample, newRawRow)
    {
      var targetEnd := SatAdd(targetStart, target.ResolutionMs());
      var finer := ReadTierBuckets(source, targetStart, targetEnd);
      var sourceHoldsWholeRange := TotalCount(finer) > 0 && targetStart >= SatSub(nowMs, KeepMs(sourceKeepDays));
      if !sourceHoldsWholeRange && !newRawRow {
        return;
      }
      var bucket: Option<TierBucket>;
      if sourceHoldsWholeRange {
        bucket := Fold(targetStart, finer);
      } else {
        var merge := ReadTierBuckets(target, targetStart, targetEnd);
        bucket := Fold(targetStart, merge + [newSample]);
      }
      if bucket.Some? {
        UpsertTierBucket(target, bucket.value);
      }
    }

    method RefoldAncestors(c: Config, capturedAtMs: int, nowMs: int, newSample: TierBucket, newRawRow: bool)
      modifies this
      ensures State() == LadderModel.RefoldAncestors(c, old(State()), capturedAtMs, nowMs, newSample, newRawRow)
    {
      hide LadderModel.RefoldOne;
      RefoldLeavesMarks(State(), L2, L3, BucketStartFor(L3.ResolutionMs(), capturedAtMs), nowMs, c.l2KeepDays, newSample, newRawRow);
      var l3Watermark, l4Watermark := l3FoldedUntil, l4FoldedUntil;
      var l3On, l4On := l3Enabled.UnwrapOr(true), l4Enabled.UnwrapOr(true);
      var l3Start := BucketStartFor(L3.ResolutionMs(), capturedAtMs);
      if l3On && Behind(l3Start, l3Watermark) {
        RefoldOne(L2, L3, l3Start, nowMs, c.l2KeepDays, newSample, newRawRow);
      }
      var l4Start := BucketStartFor(L4.ResolutionMs(), capturedAtMs);
      if l4On && Behind(l4Start, l4Watermark) {
        var source := if l3On then L3 else L2;
        var keepDays := if source == L3 then c.l3.keepDays else c.l2KeepDays;
        RefoldOne(source, L4, l4Start, nowMs, keepDays, newSample, newRawRow);
      }
    }

    /** Store a sample: its raw row, then its minute, then the ancestors that have already folded it. */
    method InsertSample(c: Config, sample: RawSample, nowMs: int) returns (change: MinuteChange)
      modifies this
      ensures (State(), change) == LadderModel.InsertSample(c, old(State()), sample, nowMs)
    {
      hide LadderModel.RefoldAncestors, Fold, RowsIn, RawIn, Rebuild;
      var t := sample.capturedAtMs;
      var existed := t in raw;
      var newSample := RawToBucket(sample);
      raw := raw[t := sample];
      var minute := BucketStartFor(L2.ResolutionMs(), t);
      var minuteEnd := SatAdd(minute, L2.ResolutionMs());
      var existing := ReadTierBuckets(L2, minute, minuteEnd);
      var rows := RawIn(raw, minute, minuteEnd);
      if existing != [] && RawIsPartial(existing[0].sampleCount, |rows|) {
        if existed {
          return Kept;
        }
        var bucket := Fold(minute, [existing[0], newSample]);
        if bucket.None? {
          return Refused;
        }
        l2 := l2[minute := bucket.value];
        change := Merged;
      } else {
        if rows == [] {
          l2 := map k | k in l2 && k != minute :: l2[k];
        } else {
          l2 := l2[minute := Rebuild(minute, rows)];
        }
        change := Rebuilt;
      }
      RefoldAncestors(c, t, nowMs, newSample, !existed);
    }
  }

  lemma FoldStartsThere(start: int, finer: seq<TierBucket>)
    ensures Fold(start, finer).Some? ==> Fold(start, finer).value.bucketStartMs == start
  {
  }

  lemma RefoldLeavesMarks(l: Ladder, source: Tier, target: Tier, targetStart: int, nowMs: int, sourceKeepDays: int,
                          newSample: TierBucket, newRawRow: bool)
    requires Promotes(source, target)
    ensures var r := LadderModel.RefoldOne(l, source, target, targetStart, nowMs, sourceKeepDays, newSample, newRawRow);
            && r.l3FoldedUntil == l.l3FoldedUntil && r.l4FoldedUntil == l.l4FoldedUntil
            && r.l3Enabled == l.l3Enabled && r.l4Enabled == l.l4Enabled
  {
    hide Fold, RowsIn, TotalCount;
  }

  lemma InsertLeavesL3(c: Config, l: Ladder, sample: RawSample, now: int)
    requires l.l3FoldedUntil.None?
    ensures var r := LadderModel.InsertSample(c, l, sample, now).0; r.l3FoldedUntil.None? && r.l3 == l.l3
  {
    hide UpdateMinute, LadderModel.RefoldOne, BucketStartFor, RawToBucket;
    var b, t, newRow := RawToBucket(sample), sample.capturedAtMs, sample.capturedAtMs !in l.raw;
    InsertIs(c, l, sample, now);
    L4LeavesL3(c, WithMinute(l, sample), t, now, b, newRow);
  }

  lemma L4LeavesL3(c: Config, u: Ladder, t: int, now: int, b: TierBucket, newRow: bool)
    requires u.l3FoldedUntil.None?
    ensures var r := LadderModel.RefoldAncestors(c, u, t, now, b, newRow); r.l3FoldedUntil.None? && r.l3 == u.l3
  {
    hide Fold, RowsIn, TotalCount, BucketStartFor, KeepMs;
  }

  /** A day in the life of the store: after an insert and a tick on the object, with whatever fails in the tick, the values
    * keep the invariant exactly when the tick does not fold past the L3 watermark; without failures it does not, unless
    * an earlier tick left five minutes without their watermark. */
  method InsertThenMaintain(store: Store, c: Config, ghost log: Log, sample: RawSample, nowMs: int, tickMs: int,
                            faults: TickFaults)
    returns (ghost after: Log)
    requires Valid(c, store.State(), log) && log.clock <= nowMs <= tickMs
    requires CleanInsert(c, store.State(), log.recorded, sample, nowMs)
    modifies store
    ensures after == Log(Record(log.recorded, old(store.State()), sample), tickMs)
    ensures ClockKeys(LadderModel.InsertSample(c, old(store.State()), sample, nowMs).0.l2)
    ensures Valid(c, store.State(), after) <==>
            !TickOverruns(c, LadderModel.InsertSample(c, old(store.State()), sample, nowMs).0, tickMs, faults)
    ensures faults == NO_FAULTS && (old(store.State()).l3FoldedUntil.None? ==> old(store.State()).l3 == map[]) ==>
              Valid(c, store.State(), after)
  {
    hide Valid, CleanInsert, LadderModel.InsertSample, LadderModel.Maintain, TickOverruns, ClockKeys;
    InsertKeeps(c, store.State(), log, sample, nowMs);
    after := Log(Record(log.recorded, store.State(), sample), nowMs);
    ghost var start := store.State();
    var change := store.InsertSample(c, sample, nowMs);
    ghost var stored := store.State();
    TickKeeps(c, stored, after, tickMs, None, faults);
    var promotedL3, promotedL4 := store.Maintain(c, tickMs, None, faults);
    if faults == NO_FAULTS && (start.l3FoldedUntil.None? ==> start.l3 == map[]) {
      if start.l3FoldedUntil.None? {
        InsertLeavesL3(c, start, sample, nowMs);
      } else {
        InsertKeepsMark(c, start, sample, nowMs);
      }
      KnownGateHolds(c, stored, after, tickMs, faults);
    }
    after := after.(clock := tickMs);
  }

  lemma InsertKeepsMark(c: Config, l: Ladder, sample: RawSample, now: int)
    ensures LadderModel.InsertSample(c, l, sample, now).0.l3FoldedUntil == l.l3FoldedUntil
  {
    hide UpdateMinute, LadderModel.RefoldAncestors, RawToBucket;
    InsertIs(c, l, sample, now);
    RefoldsLeaveMinutes(c, WithMinute(l, sample), sample.capturedAtMs, now, RawToBucket(sample), sample.capturedAtMs !in l.raw);
  }
}

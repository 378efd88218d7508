/** Which rows a ladder has, how many samples each counts and when these were captured never depend on the measured
  * values: with every value set to zero, each operation does the same to keys, counts, times and watermarks. */
module LadderPlain {
  import opened Prelude
  import opened Summaries
  import opened TierFold
  import opened TimeGrid
  import opened LadderModel
  import opened LadderTables
  import opened LadderInvariant
  import opened LadderPromotion
  import opened LadderTick
  import opened LadderInsert

  const ZERO := Stat(0.0, 0.0, 0.0)

  function PlainSample(s: RawSample): RawSample { RawSample(s.capturedAtMs, 0.0, 0.0, 0.0, 0.0, None) }

  function PlainBucket(b: TierBucket): TierBucket {
    b.(cpu := ZERO, memory := ZERO, swap := ZERO, load := ZERO, rootUsed := None)
  }

  function PlainTable(table: Table): Table { map k | k in table :: PlainBucket(table[k]) }

  function PlainRaw(raw: map<int, RawSample>): map<int, RawSample> { map t | t in raw :: PlainSample(raw[t]) }

  /** The ladder with every value set to zero and every root value left out. */
  function Plain(l: Ladder): Ladder {
    l.(raw := PlainRaw(l.raw), l2 := PlainTable(l.l2), l3 := PlainTable(l.l3), l4 := PlainTable(l.l4))
  }

  // ---------- Reading a range ----------

  function PlainBuckets(buckets: seq<TierBucket>): seq<TierBucket> {
    if buckets == [] then []
    else PlainBuckets(buckets[..|buckets| - 1]) + [PlainBucket(buckets[|buckets| - 1])]
  }

  function PlainSamples(rows: seq<RawSample>): (r: seq<RawSample>)
    ensures |r| == |rows|
  {
    if rows == [] then [] else PlainSamples(rows[..|rows| - 1]) + [PlainSample(rows[|rows| - 1])]
  }

  lemma PlainAppend(buckets: seq<TierBucket>, b: TierBucket)
    ensures PlainBuckets(buckets + [b]) == PlainBuckets(buckets) + [PlainBucket(b)]
  {
    assert (buckets + [b])[..|buckets|] == buckets;
  }

  lemma {:induction false} PlainRowsIn(table: Table, lo: int, hi: int)
    ensures RowsIn(PlainTable(table), lo, hi) == PlainBuckets(RowsIn(table, lo, hi))
    decreases hi - lo
  {
    if lo < hi {
      PlainRowsIn(table, lo, hi - 1);
      var init := RowsIn(table, lo, hi - 1);
      if hi - 1 in table {
        PlainAppend(init, table[hi - 1]);
      } else {
        assert init + [] == init;
      }
    }
  }

  lemma {:induction false} PlainRawIn(raw: map<int, RawSample>, lo: int, hi: int)
    ensures RawIn(PlainRaw(raw), lo, hi) == PlainSamples(RawIn(raw, lo, hi))
    decreases hi - lo
  {
    if lo < hi {
      PlainRawIn(raw, lo, hi - 1);
      var init := RawIn(raw, lo, hi - 1);
      if hi - 1 in raw {
        assert (init + [raw[hi - 1]])[..|init|] == init;
      } else {
        assert init + [] == init;
      }
    }
  }

  // ---------- The fold and the rebuild ----------

  lemma {:induction false} PlainCounts(finer: seq<TierBucket>)
    ensures TotalCount(PlainBuckets(finer)) == TotalCount(finer)
    ensures RootCount(PlainBuckets(finer)) == 0
    ensures PlainBuckets(finer) == [] <==> finer == []
    ensures finer != [] ==>
      && FirstCaptured(PlainBuckets(finer)) == FirstCaptured(finer)
      && NewestCaptured(PlainBuckets(finer)) == NewestCaptured(finer)
  {
    if finer != [] {
      var init, last := finer[..|finer| - 1], PlainBucket(finer[|finer| - 1]);
      PlainCounts(init);
      var plain := PlainBuckets(finer);
      assert plain[..|plain| - 1] == PlainBuckets(init) && plain[|plain| - 1] == last;
    }
  }

  lemma {:induction false} PlainStats(finer: seq<TierBucket>, metric: Metric)
    ensures PlainBuckets(finer) == [] <==> finer == []
    ensures WeightedSum(PlainBuckets(finer), metric) == 0.0
    ensures finer != [] ==> LeastStat(PlainBuckets(finer), metric) == 0.0 && GreatestStat(PlainBuckets(finer), metric) == 0.0
  {
    if finer != [] {
      var init, last := finer[..|finer| - 1], PlainBucket(finer[|finer| - 1]);
      PlainStats(init, metric);
      var plain := PlainBuckets(finer);
      assert plain[..|plain| - 1] == PlainBuckets(init) && plain[|plain| - 1] == last;
      assert last.Get(metric) == ZERO;
    }
  }

  function PlainOption(b: Option<TierBucket>): Option<TierBucket> {
    if b.Some? then Some(PlainBucket(b.value)) else None
  }

  lemma PlainFold(start: int, finer: seq<TierBucket>)
    ensures Fold(start, PlainBuckets(finer)) == PlainOption(Fold(start, finer))
  {
    PlainCounts(finer);
    PlainStats(finer, Cpu);
    PlainStats(finer, Memory);
    PlainStats(finer, Swap);
    PlainStats(finer, Load);
    hide PlainBuckets, TotalCount, RootCount, RootRange, RootSum, WeightedSum, LeastStat, GreatestStat, FirstCaptured,
         NewestCaptured;
  }

  lemma {:induction false} PlainColumn(rows: seq<RawSample>, metric: Metric)
    ensures ColumnSum(Column(PlainSamples(rows), metric)) == 0.0
    ensures rows != [] ==> ColumnMin(Column(PlainSamples(rows), metric)) == 0.0
                           && ColumnMax(Column(PlainSamples(rows), metric)) == 0.0
  {
    if rows != [] {
      var init, last := rows[..|rows| - 1], PlainSample(rows[|rows| - 1]);
      PlainColumn(init, metric);
      var plain := PlainSamples(rows);
      assert plain[..|plain| - 1] == PlainSamples(init) && plain[|plain| - 1] == last;
      var values := Column(plain, metric);
      assert values[..|values| - 1] == Column(PlainSamples(init), metric) && values[|values| - 1] == 0.0;
    }
  }

  lemma {:induction false} PlainTimes(rows: seq<RawSample>)
    ensures RootColumn(PlainSamples(rows)) == []
    ensures rows != [] ==> EarliestRow(PlainSamples(rows)) == EarliestRow(rows)
                           && LatestRow(PlainSamples(rows)) == LatestRow(rows)
  {
    if rows != [] {
      var init, last := rows[..|rows| - 1], PlainSample(rows[|rows| - 1]);
      PlainTimes(init);
      var plain := PlainSamples(rows);
      assert plain[..|plain| - 1] == PlainSamples(init) && plain[|plain| - 1] == last;
    }
  }

  lemma PlainStat(rows: seq<RawSample>, metric: Metric)
    requires rows != []
    ensures ColumnStat(Column(PlainSamples(rows), metric)) == ZERO
  {
    PlainColumn(rows, metric);
    hide ColumnSum, ColumnMin, ColumnMax, Column;
  }

  lemma PlainRebuild(minute: int, rows: seq<RawSample>)
    requires rows != []
    ensures Rebuild(minute, PlainSamples(rows)) == PlainBucket(Rebuild(minute, rows))
  {
    PlainTimes(rows);
    PlainStat(rows, Cpu);
    PlainStat(rows, Memory);
    PlainStat(rows, Swap);
    PlainStat(rows, Load);
    hide PlainSamples, Column, RootColumn, ColumnStat, EarliestRow, LatestRow;
  }

  // ---------- An insert ----------

  lemma PlainTables(l: Ladder, tier: Tier, table: Table)
    ensures Plain(l).Rows(tier) == PlainTable(l.Rows(tier))
    ensures Plain(l.WithRows(tier, table)) == Plain(l).WithRows(tier, PlainTable(table))
    ensures Plain(l).FoldedUntil(tier) == l.FoldedUntil(tier)
  {
    assert PlainTable(map[]) == map[];
  }

  lemma PlainUpsert(table: Table, k: int, b: TierBucket)
    ensures PlainTable(table[k := b]) == PlainTable(table)[k := PlainBucket(b)]
  {
  }

  lemma PlainRefoldOne(l: Ladder, source: Tier, target: Tier, start: int, now: int, keepDays: int, b: TierBucket, newRow: bool)
    requires Promotes(source, target)
    ensures RefoldOne(Plain(l), source, target, start, now, keepDays, PlainBucket(b), newRow) ==
            Plain(RefoldOne(l, source, target, start, now, keepDays, b, newRow))
  {
    hide Fold, RowsIn, TotalCount, KeepMs, Plain, PlainTable, PlainBucket;
    var end := SatAdd(start, target.ResolutionMs());
    PlainTables(l, source, map[]);
    PlainTables(l, target, map[]);
    PlainRowsIn(l.Rows(source), start, end);
    PlainRowsIn(l.Rows(target), start, end);
    var finer := RowsIn(l.Rows(source), start, end);
    PlainCounts(finer);
    PlainFold(start, finer);
    var merged := RowsIn(l.Rows(target), start, end);
    PlainAppend(merged, b);
    PlainFold(start, merged + [b]);
    PlainWrite(l, target, start, Fold(start, finer));
    PlainWrite(l, target, start, Fold(start, merged + [b]));
  }

  lemma PlainWrite(l: Ladder, target: Tier, start: int, bucket: Option<TierBucket>)
    ensures bucket.Some? ==>
      Plain(l.WithRows(target, l.Rows(target)[start := bucket.value])) ==
      Plain(l).WithRows(target, Plain(l).Rows(target)[start := PlainBucket(bucket.value)])
  {
    if bucket.Some? {
      hide Plain, PlainTable, PlainBucket;
      PlainTables(l, target, l.Rows(target)[start := bucket.value]);
      PlainUpsert(l.Rows(target), start, bucket.value);
    }
  }

  lemma PlainFlags(l: Ladder)
    ensures var p := Plain(l);
            && p.l3Enabled == l.l3Enabled && p.l4Enabled == l.l4Enabled
            && p.l3FoldedUntil == l.l3FoldedUntil && p.l4FoldedUntil == l.l4FoldedUntil
  {
  }

  lemma PlainRefoldL3(c: Config, l: Ladder, t: int, now: int, b: TierBucket, newRow: bool)
    ensures RefoldL3(c, Plain(l), t, now, PlainBucket(b), newRow) == Plain(RefoldL3(c, l, t, now, b, newRow))
  {
    hide RefoldOne, Plain, PlainBucket, BucketStartFor;
    PlainFlags(l);
    PlainRefoldOne(l, L2, L3, BucketStartFor(300_000, t), now, c.l2KeepDays, b, newRow);
  }

  lemma PlainRefoldL4(c: Config, l: Ladder, t: int, now: int, b: TierBucket, newRow: bool)
    ensures RefoldL4(c, Plain(l), t, now, PlainBucket(b), newRow) == Plain(RefoldL4(c, l, t, now, b, newRow))
  {
    hide RefoldOne, Plain, PlainBucket, BucketStartFor;
    PlainFlags(l);
    PlainRefoldOne(l, L3, L4, BucketStartFor(3_600_000, t), now, c.l3.keepDays, b, newRow);
    PlainRefoldOne(l, L2, L4, BucketStartFor(3_600_000, t), now, c.l2KeepDays, b, newRow);
  }

  lemma PlainAncestors(c: Config, l: Ladder, t: int, now: int, b: TierBucket, newRow: bool)
    ensures RefoldAncestors(c, Plain(l), t, now, PlainBucket(b), newRow) == Plain(RefoldAncestors(c, l, t, now, b, newRow))
  {
    hide RefoldL3, RefoldL4, Plain, PlainBucket;
    PlainRefoldL3(c, l, t, now, b, newRow);
    PlainRefoldL4(c, RefoldL3(c, l, t, now, b, newRow), t, now, b, newRow);
  }

  /** `UpdateMinute` by what it reads. */
  function MinuteFrom(l2: Table, minute: int, existing: seq<TierBucket>, rows: seq<RawSample>, b: TierBucket, existed: bool):
    (Table, MinuteChange)
  {
    if existing != [] && RawIsPartial(existing[0].sampleCount, |rows|) then
      if existed then (l2, Kept)
      else
        var bucket := Fold(minute, [existing[0], b]);
        if bucket.None? then (l2, Refused) else (l2[minute := bucket.value], Merged)
    else if rows == [] then (map k | k in l2 && k != minute :: l2[k], Rebuilt)
    else (l2[minute := Rebuild(minute, rows)], Rebuilt)
  }

  lemma MinuteByReads(l2: Table, raw: map<int, RawSample>, t: int, b: TierBucket, existed: bool)
    ensures var minute := BucketStartFor(60_000, t);
            var end := SatAdd(minute, 60_000);
            UpdateMinute(l2, raw, t, b, existed) ==
              MinuteFrom(l2, minute, RowsIn(l2, minute, end), RawIn(raw, minute, end), b, existed)
  {
    hide Fold, RowsIn, RawIn, Rebuild, BucketStartFor, SatAdd;
  }

  lemma PlainMinuteFrom(l2: Table, minute: int, existing: seq<TierBucket>, rows: seq<RawSample>, b: TierBucket, existed: bool)
    ensures MinuteFrom(PlainTable(l2), minute, PlainBuckets(existing), PlainSamples(rows), PlainBucket(b), existed) ==
            (PlainTable(MinuteFrom(l2, minute, existing, rows, b, existed).0),
             MinuteFrom(l2, minute, existing, rows, b, existed).1)
  {
    hide Fold, Rebuild, PlainTable, PlainBucket, PlainBuckets, PlainSamples;
    FirstPlain(existing, b);
    PlainRemoved(l2, minute);
    if existing != [] {
      SameCount(existing[0]);
      PlainFold(minute, [existing[0], b]);
      var bucket := Fold(minute, [existing[0], b]);
      if bucket.Some? {
        PlainUpsert(l2, minute, bucket.value);
      }
    }
    if rows != [] {
      PlainRebuild(minute, rows);
      PlainUpsert(l2, minute, Rebuild(minute, rows));
    }
  }

  lemma SameCount(b: TierBucket)
    ensures PlainBucket(b).sampleCount == b.sampleCount
  {
  }

  lemma PlainRemoved(table: Table, minute: int)
    ensures (map k | k in PlainTable(table) && k != minute :: PlainTable(table)[k]) ==
            PlainTable(map k | k in table && k != minute :: table[k])
  {
  }

  lemma PlainMinute(l2: Table, raw: map<int, RawSample>, t: int, b: TierBucket, existed: bool)
    ensures UpdateMinute(PlainTable(l2), PlainRaw(raw), t, PlainBucket(b), existed) ==
            (PlainTable(UpdateMinute(l2, raw, t, b, existed).0), UpdateMinute(l2, raw, t, b, existed).1)
  {
    hide UpdateMinute, MinuteFrom, PlainTable, PlainRaw, PlainBucket, RowsIn, RawIn;
    var minute := BucketStartFor(60_000, t);
    var end := SatAdd(minute, 60_000);
    MinuteByReads(l2, raw, t, b, existed);
    MinuteByReads(PlainTable(l2), PlainRaw(raw), t, PlainBucket(b), existed);
    PlainRowsIn(l2, minute, end);
    PlainRawIn(raw, minute, end);
    PlainMinuteFrom(l2, minute, RowsIn(l2, minute, end), RawIn(raw, minute, end), b, existed);
  }

  lemma {:induction false} FirstPlain(buckets: seq<TierBucket>, b: TierBucket)
    ensures |PlainBuckets(buckets)| == |buckets|
    ensures buckets != [] ==> PlainBuckets(buckets)[0] == PlainBucket(buckets[0])
    ensures buckets != [] ==> PlainBuckets([buckets[0], b]) == [PlainBucket(buckets[0]), PlainBucket(b)]
  {
    if buckets != [] {
      FirstPlain(buckets[..|buckets| - 1], b);
      assert [buckets[0], b] == [] + [buckets[0]] + [b];
      PlainAppend([], buckets[0]);
      PlainAppend([] + [buckets[0]], b);
    }
  }

  /** Storing a sample with its values left out does to keys, counts, times and marks what storing the sample does. */
  lemma PlainInsert(c: Config, l: Ladder, sample: RawSample, now: int)
    ensures InsertSample(c, Plain(l), PlainSample(sample), now) ==
            (Plain(InsertSample(c, l, sample, now).0), InsertSample(c, l, sample, now).1)
  {
    var t := sample.capturedAtMs;
    var raw := l.raw[t := sample];
    hide UpdateMinute, RefoldAncestors;
    assert PlainRaw(raw) == PlainRaw(l.raw)[t := PlainSample(sample)];
    assert RawToBucket(PlainSample(sample)) == PlainBucket(RawToBucket(sample));
    PlainMinute(l.l2, raw, t, RawToBucket(sample), t in l.raw);
    var (l2, change) := UpdateMinute(l.l2, raw, t, RawToBucket(sample), t in l.raw);
    PlainAncestors(c, l.(raw := raw, l2 := l2), t, now, RawToBucket(sample), t !in l.raw);
  }

  // ---------- A tick ----------

  lemma PlainOldest(table: Table, since: int)
    ensures OldestAtOrAfter(PlainTable(table), since) == OldestAtOrAfter(table, since)
    ensures KeysFrom(PlainTable(table), since) == KeysFrom(table, since)
    ensures ClockKeys(PlainTable(table)) <==> ClockKeys(table)
  {
    assert KeysFrom(PlainTable(table), since) == KeysFrom(table, since);
    assert ClockKeys(PlainTable(table)) ==> ClockKeys(table) by {
      assert forall k :: k in table ==> k in PlainTable(table);
    }
  }

  function PlainTurn(turn: Turn): Turn {
    match turn
    case Stop(left) => Stop(Plain(left))
    case Skip(until) => Skip(until)
    case Wrote(left, until) => Wrote(Plain(left), until)
  }

  lemma PlainNextTurn(l: Ladder, p: Pass, from: int, promoted: nat)
    requires Promotes(p.source, p.target)
    ensures NextTurn(Plain(l), p, from, promoted) == PlainTurn(NextTurn(l, p, from, promoted))
  {
    hide Fold, RowsIn, Held, BucketStartFor, Plain, PlainTable, PlainBucket, OldestAtOrAfter, SatAdd;
    PlainTables(l, p.source, map[]);
    PlainTables(l, p.target, map[]);
    PlainOldest(l.Rows(p.source), from);
    var oldest := OldestAtOrAfter(l.Rows(p.source), from);
    if oldest.Some? {
      var start := BucketStartFor(p.target.ResolutionMs(), oldest.value);
      var end := SatAdd(start, p.target.ResolutionMs());
      var finer := RowsIn(l.Rows(p.source), start, end);
      PlainRowsIn(l.Rows(p.source), start, end);
      PlainFold(start, finer);
      PlainWrite(l, p.target, start, Fold(start, finer));
      if Fold(start, finer).Some? {
        PlainMark(l.WithRows(p.target, l.Rows(p.target)[start := Fold(start, finer).value]), p.target, Some(end));
      }
    }
  }

  lemma PlainMark(l: Ladder, tier: Tier, mark: Option<int>)
    ensures Plain(l.WithFoldedUntil(tier, mark)) == Plain(l).WithFoldedUntil(tier, mark)
  {
  }

  lemma {:induction false} PlainPromoteFrom(l: Ladder, p: Pass, from: int, promoted: nat)
    requires Promotes(p.source, p.target) && ClockKeys(l.Rows(p.source))
    ensures ClockKeys(Plain(l).Rows(p.source))
    ensures PromoteFrom(Plain(l), p, from, promoted) ==
            (Plain(PromoteFrom(l, p, from, promoted).0), PromoteFrom(l, p, from, promoted).1)
    decreases |KeysFrom(l.Rows(p.source), from)|
  {
    hide NextTurn, KeysFrom, ClockKeys, Plain, OldestAtOrAfter, PlainTable;
    PlainTables(l, p.source, map[]);
    PlainOldest(l.Rows(p.source), from);
    if promoted < MAX_PROMOTIONS_PER_TICK {
      TurnAdvances(l, p, from, promoted);
      TurnAdvances(Plain(l), p, from, promoted);
      PlainNextTurn(l, p, from, promoted);
      match NextTurn(l, p, from, promoted)
      case Stop(left) =>
      case Skip(until) => PlainPromoteFrom(l, p, until, promoted);
      case Wrote(left, until) => PlainPromoteFrom(left, p, until, promoted + 1);
    }
  }

  lemma PlainKeys(l: Ladder)
    ensures ClockKeys(Plain(l).l2) <==> ClockKeys(l.l2)
    ensures ClockKeys(Plain(l).l3) <==> ClockKeys(l.l3)
  {
    PlainOldest(l.l2, 0);
    PlainOldest(l.l3, 0);
  }

  lemma PlainPromoteL3(c: Config, l: Ladder, now: int, faults: TickFaults)
    requires ClockKeys(l.l2)
    ensures ClockKeys(Plain(l).l2)
    ensures PromoteL3(c, Plain(l), now, faults) == (Plain(PromoteL3(c, l, now, faults).0), PromoteL3(c, l, now, faults).1)
  {
    PlainKeys(l);
    hide PromoteFrom, ClockKeys, PlainTable, PlainRaw;
    if c.l3.enabled {
      PlainPromoteFrom(l, L3Pass(c, now, faults), l.FoldedUntil(L3).UnwrapOr(I64_MIN), 0);
    }
  }

  lemma PlainPromoteL4(c: Config, l: Ladder, now: int, faults: TickFaults)
    requires ClockKeys(l.l2) && ClockKeys(l.l3)
    ensures ClockKeys(Plain(l).l2) && ClockKeys(Plain(l).l3)
    ensures PromoteL4(c, Plain(l), now, faults) == (Plain(PromoteL4(c, l, now, faults).0), PromoteL4(c, l, now, faults).1)
  {
    PlainKeys(l);
    hide PromoteFrom, ClockKeys, PlainTable, PlainRaw;
    if c.l4.enabled {
      PlainPromoteFrom(l, L4Pass(c, l, now, faults), l.FoldedUntil(L4).UnwrapOr(I64_MIN), 0);
    }
  }

  lemma PlainPrune(c: Config, l: Ladder, now: int, l3Mark: Option<int>, l4Mark: Option<int>, archived: Option<set<int>>,
                   fails: set<Tier>)
    ensures PruneTiers(c, Plain(l), now, l3Mark, l4Mark, archived, fails) ==
            Plain(PruneTiers(c, l, now, l3Mark, l4Mark, archived, fails))
  {
    hide L2Cutoff, L3Cutoff, L4Cutoff, PlainTable, PlainRaw, KeepMs, Prune, Drop, PruneRaw, SatSub;
    PlainPruned(l.l2, 60_000, L2Cutoff(c, now, l3Mark, l4Mark), {});
    PlainPruned(l.l3, 300_000, L3Cutoff(c, now, l4Mark), {});
    PlainPruned(l.l4, 3_600_000, L4Cutoff(c, now), archived.UnwrapOr({}));
    PlainRawPruned(l.raw, SatSub(now, KeepMs(c.l1KeepDays)));
  }

  lemma PlainPruned(table: Table, w: int, cutoff: int, keys: set<int>)
    ensures Prune(PlainTable(table), w, cutoff) == PlainTable(Prune(table, w, cutoff))
    ensures Drop(PlainTable(table), keys, w, cutoff) == PlainTable(Drop(table, keys, w, cutoff))
  {
  }

  lemma PlainRawPruned(raw: map<int, RawSample>, cutoff: int)
    ensures PruneRaw(PlainRaw(raw), cutoff) == PlainRaw(PruneRaw(raw, cutoff))
  {
  }

  /** The same for a whole tick, whatever fails in it. */
  lemma PlainMaintain(c: Config, l: Ladder, now: int, archived: Option<set<int>>, faults: TickFaults)
    requires ClockKeys(l.l2) && ClockKeys(l.l3)
    ensures ClockKeys(Plain(l).l2) && ClockKeys(Plain(l).l3)
    ensures Maintain(c, Plain(l), now, archived, faults).0 == Plain(Maintain(c, l, now, archived, faults).0)
  {
    PlainKeys(l);
    hide PromoteL3, PromoteL4, PruneTiers, ClockKeys, PlainTable, PlainRaw;
    var flagged := WithFlags(c, l, faults);
    PlainPromoteL3(c, flagged, now, faults);
    PromoteL3KeepsClock(c, flagged, now, faults);
    PromoteL3KeepsClock(c, Plain(flagged), now, faults);
    var folded3 := PromoteL3(c, flagged, now, faults).0;
    PlainPromoteL4(c, folded3, now, faults);
    PlainPrune(c, PromoteL4(c, folded3, now, faults).0, now, if faults.l3MarkLost then None else l.l3FoldedUntil,
               if faults.l4MarkLost then None else l.l4FoldedUntil, archived, faults.pruneFails);
  }

  lemma PlainOverruns(c: Config, l: Ladder, now: int, faults: TickFaults)
    requires ClockKeys(l.l2)
    ensures ClockKeys(Plain(l).l2)
    ensures TickOverruns(c, Plain(l), now, faults) <==> TickOverruns(c, l, now, faults)
  {
    PlainKeys(l);
    var flagged := WithFlags(c, l, faults);
    PlainPromoteL3(c, flagged, now, faults);
    hide PromoteL3, ClockKeys, PlainTable, PlainRaw, RunsPast;
    var folded3 := PromoteL3(c, flagged, now, faults).0;
    PlainRunsPast(folded3.l3, GatedL4Pass(c, folded3, now, faults), Mark(folded3, L4));
  }

  lemma PlainRunsPast(source: Table, p: Pass, from: int)
    ensures RunsPast(PlainTable(source), p, from, 0) <==> RunsPast(source, p, from, 0)
  {
    assert forall k :: k in PlainTable(source) <==> k in source;
    assert HoursBy(PlainTable(source), from, Limit(p)) == HoursBy(source, from, Limit(p));
    hide HourOf, HourIsOver, PlainTable, PlainBucket;
  }

  /** What an insert checks of its minute does not depend on values either. */
  lemma PlainChecks(c: Config, l: Ladder, now: int, t: int)
    ensures Partial(Plain(l), t) <==> Partial(l, t)
    ensures HidesPrunedRow(Plain(l), t) <==> HidesPrunedRow(l, t)
    ensures MinuteExpired(c, Plain(l), now, t) <==> MinuteExpired(c, l, now, t)
  {
    PlainRawIn(l.raw, MinuteOf(t), MinuteOf(t) + 60_000);
    hide RawIn, BucketStartFor, L2Cutoff;
  }
}

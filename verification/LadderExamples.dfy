/** Runs from the empty store in which samples are lost or counted twice: one for each condition of a clean step, and one
  * for a time that is added again. */
module LadderExamples {
  import opened Prelude
  import opened Summaries
  import opened TierFold
  import opened TimeGrid
  import opened LadderModel
  import opened LadderTables
  import opened LadderInvariant
  import opened LadderTick
  import opened LadderInsert
  import opened LadderRuns
  import opened LadderConservation
  import opened LadderLimits
  import opened LadderCounts

  /** Raw rows for three days, minutes for seven, five minutes for thirty, hours for ever; a poll every two seconds. */
  const SETTINGS := Config(3, 7, ToggledKeep(true, 30), ToggledKeep(true, 0), 2_000)

  const DAY := 86_400_000

  // ---------- Tables of few rows ----------

  lemma OnlyRow(table: Table, k: int, b: TierBucket)
    requires table == map[k := b] && k >= 0
    ensures forall since :: since <= k ==> OldestAtOrAfter(table, since) == Some(k)
    ensures forall since :: since > k ==> OldestAtOrAfter(table, since) == None
    ensures forall lo, hi :: lo <= k < hi ==> RowsIn(table, lo, hi) == [b]
    ensures forall lo, hi :: hi <= k || k < lo ==> RowsIn(table, lo, hi) == []
  {
    forall since | since <= k
      ensures OldestAtOrAfter(table, since) == Some(k)
    {
      assert KeysFrom(table, since) == {k};
    }
    forall since | since > k
      ensures OldestAtOrAfter(table, since) == None
    {
      assert KeysFrom(table, since) == {};
    }
    forall lo, hi | lo <= k < hi
      ensures RowsIn(table, lo, hi) == [b]
    {
      RowsSingle(table, lo, hi, k);
    }
    forall lo, hi | hi <= k || k < lo
      ensures RowsIn(table, lo, hi) == []
    {
      RowsNone(table, lo, hi);
    }
  }

  lemma {:induction false} OnlyRawRow(raw: map<int, RawSample>, t: int, lo: int, hi: int)
    requires lo <= t < hi && t in raw && forall v :: lo <= v < hi && v in raw ==> v == t
    ensures RawIn(raw, lo, hi) == [raw[t]]
    decreases hi - lo
  {
    if t < hi - 1 {
      OnlyRawRow(raw, t, lo, hi - 1);
    } else {
      NoRawRow(raw, lo, hi - 1);
    }
  }

  lemma {:induction false} NoRawRow(raw: map<int, RawSample>, lo: int, hi: int)
    requires forall v :: lo <= v < hi ==> v !in raw
    ensures RawIn(raw, lo, hi) == []
    decreases hi - lo
  {
    if lo < hi {
      NoRawRow(raw, lo, hi - 1);
    }
  }

  /** A bucket folded from one bucket. */
  function Alone(start: int, b: TierBucket): TierBucket
    requires b.sampleCount > 0
  {
    FoldsAlone(start, b);
    Fold(start, [b]).value
  }

  lemma FoldsAlone(start: int, b: TierBucket)
    requires b.sampleCount > 0
    ensures Fold(start, [b]).Some? && Fold(start, [b]).value.sampleCount == b.sampleCount
    ensures Fold(start, [b]).value.cpu.avg == b.cpu.avg
  {
    assert [b][..0] == [];
    assert TotalCount([b]) == b.sampleCount;
    assert WeightedSum([b], Cpu) == b.cpu.avg * (b.sampleCount as real);
  }

  /** The bucket of a minute with one raw row. */
  function Minute(start: int, sample: RawSample): TierBucket { Rebuild(start, [sample]) }

  lemma MinuteOfOne(start: int, sample: RawSample)
    ensures Minute(start, sample).sampleCount == 1 && Minute(start, sample).cpu.avg == sample.cpu
  {
    assert [sample][..0] == [];
    var values := Column([sample], Cpu);
    assert values == [sample.cpu] && values[..0] == [];
    assert ColumnSum(values) == sample.cpu;
  }

  // ---------- The steps ----------

  /** One minute at the start of the clock, nothing folded. */
  function OneMinute(raw: map<int, RawSample>, b: TierBucket): Ladder { EMPTY_LADDER.(raw := raw, l2 := map[0 := b]) }

  /** A minute that gets its first row. */
  lemma NewMinute(l2: Table, raw: map<int, RawSample>, start: int, sample: RawSample)
    requires sample.capturedAtMs == start && (start == 0 || start == 300_000)
    requires forall k :: start <= k < start + 60_000 ==> k !in l2
    requires forall t :: start <= t < start + 60_000 && t in raw ==> t == start
    ensures UpdateMinute(l2, raw[start := sample], start, RawToBucket(sample), false) ==
            (l2[start := Minute(start, sample)], Rebuilt)
  {
    hide RowsIn, RawIn, Rebuild, Fold, RawToBucket;
    RowsNone(l2, start, start + 60_000);
    OnlyRawRow(raw[start := sample], start, start, start + 60_000);
  }

  /** No watermark reaches the sample, so no ancestor is touched. */
  lemma NothingBehind(c: Config, l: Ladder, t: int, now: int, b: TierBucket, newRow: bool)
    requires !Behind(BucketStartFor(300_000, t), l.l3FoldedUntil) && l.l4FoldedUntil.None?
    ensures RefoldAncestors(c, l, t, now, b, newRow) == l
  {
    hide RefoldOne, BucketStartFor;
  }

  lemma FirstStore(c: Config, first: RawSample, now: int)
    requires first.capturedAtMs == 0
    ensures InsertSample(c, EMPTY_LADDER, first, now).0 == OneMinute(map[0 := first], Minute(0, first))
  {
    hide UpdateMinute, RefoldAncestors, RawToBucket, Rebuild;
    var u := OneMinute(map[0 := first], Minute(0, first));
    NewMinute(map[], map[], 0, first);
    NothingBehind(c, u, 0, now, RawToBucket(first), true);
    assert EMPTY_LADDER.raw[0 := first] == map[0 := first];
    assert EMPTY_LADDER.l2[0 := Minute(0, first)] == map[0 := Minute(0, first)];
  }

  /** The first minute folded into its five minutes, which is as far as the watermark goes. */
  function Folded(raw: map<int, RawSample>, b: TierBucket): Ladder
    requires b.sampleCount > 0
  {
    Ladder(raw, map[0 := b], map[0 := Alone(0, b)], map[], Some(300_000), None, Some(true), Some(true))
  }

  lemma FirstTurn(raw: map<int, RawSample>, b: TierBucket, now: int)
    requires b.sampleCount > 0 && now >= 304_000
    ensures var l := WithFlags(SETTINGS, OneMinute(raw, b), NO_FAULTS);
            NextTurn(l, L3Pass(SETTINGS, now, NO_FAULTS), I64_MIN, 0) == Wrote(Folded(raw, b), 300_000)
  {
    var l := WithFlags(SETTINGS, OneMinute(raw, b), NO_FAULTS);
    hide RowsIn, Fold, OldestAtOrAfter, KeysFrom, Alone;
    OnlyRow(l.l2, 0, b);
    AloneFold(b);
    assert l.l3[0 := Alone(0, b)] == Folded(raw, b).l3;
  }

  lemma FirstPass(raw: map<int, RawSample>, b: TierBucket, now: int)
    requires b.sampleCount > 0 && now >= 304_000
    ensures var l := WithFlags(SETTINGS, OneMinute(raw, b), NO_FAULTS);
            ClockKeys(l.l2) && PromoteL3(SETTINGS, l, now, NO_FAULTS).0 == Folded(raw, b)
  {
    assert InClock(0);
    OnlyRow(map[0 := b], 0, b);
    FirstTurn(raw, b, now);
    hide RowsIn, Fold, OldestAtOrAfter, KeysFrom, IsComplete, Alone;
    var r := Folded(raw, b);
    assert PromoteFrom(r, L3Pass(SETTINGS, now, NO_FAULTS), 300_000, 1) == (r, 1);
  }

  /** With the watermark known, the hour waits for the rest of its five minutes. */
  lemma HourWaits(raw: map<int, RawSample>, b: TierBucket, now: int)
    requires b.sampleCount > 0
    ensures var l := Folded(raw, b);
            ClockKeys(l.l2) && ClockKeys(l.l3) && PromoteL4(SETTINGS, l, now, NO_FAULTS).0 == l
  {
    var l := Folded(raw, b);
    assert InClock(0);
    OnlyRow(l.l3, 0, Alone(0, b));
    hide RowsIn, Fold, OldestAtOrAfter, KeysFrom;
    assert NextTurn(l, L4Pass(SETTINGS, l, now, NO_FAULTS), I64_MIN, 0) == Stop(l);
  }

  lemma FoldedPruned(raw: map<int, RawSample>, b: TierBucket, now: int)
    requires b.sampleCount > 0 && 0 <= now <= 30 * DAY
    ensures PruneTiers(SETTINGS, Folded(raw, b), now, None, None, None, {}) == Folded(PruneRaw(raw, now - 3 * DAY), b)
  {
    hide PruneRaw, Alone;
    var l := Folded(raw, b);
    assert SatSub(now, KeepMs(3)) == now - 3 * DAY;
    assert Prune(l.l2, 60_000, L2Cutoff(SETTINGS, now, None, None)) == l.l2;
    assert Prune(l.l3, 300_000, L3Cutoff(SETTINGS, now, None)) == l.l3;
  }

  lemma FirstTick(raw: map<int, RawSample>, b: TierBucket, now: int)
    requires b.sampleCount > 0 && 304_000 <= now <= 30 * DAY
    ensures var l := OneMinute(raw, b);
            && ClockKeys(l.l2) && ClockKeys(l.l3)
            && Maintain(SETTINGS, l, now, None, NO_FAULTS).0 == Folded(PruneRaw(raw, now - 3 * DAY), b)
  {
    FirstPass(raw, b, now);
    HourWaits(raw, b, now);
    FoldedPruned(raw, b, now);
    hide PromoteL3, PromoteL4, PruneTiers, ClockKeys, PruneRaw, Alone;
  }

  /** The five minutes around the first minute, folded again from that minute. */
  lemma RefoldsFromMinute(l: Ladder, b: TierBucket, t: int, now: int, nb: TierBucket, newRow: bool)
    requires b.sampleCount > 0 && 0 <= t < 300_000 && 0 <= now <= 7 * DAY
    requires l.l2 == map[0 := b] && l.l3FoldedUntil == Some(300_000) && l.l4FoldedUntil == None && l.l3Enabled == Some(true)
    ensures RefoldAncestors(SETTINGS, l, t, now, nb, newRow) == l.(l3 := l.l3[0 := Alone(0, b)])
  {
    hide Fold, RowsIn, TotalCount, Alone, BucketStartFor, SatAdd, SatSub, OldestAtOrAfter;
    OnlyRow(l.l2, 0, b);
    BucketAroundZero(t);
    AloneFold(b);
    StillKept(now);
  }

  lemma StillKept(now: int)
    requires 0 <= now <= 7 * DAY
    ensures 0 >= SatSub(now, KeepMs(7)) && SatAdd(0, 300_000) == 300_000
  {
  }

  lemma BucketAroundZero(t: int)
    requires 0 <= t < 300_000
    ensures BucketStartFor(300_000, t) == 0
  {
  }

  lemma AloneFold(b: TierBucket)
    requires b.sampleCount > 0
    ensures TotalCount([b]) > 0 && Fold(0, [b]) == Some(Alone(0, b))
  {
    assert [b][..0] == [];
    FoldsAlone(0, b);
  }

  // ---------- A late sample of a minute that lost its only row ----------

  /** A minute of one sample whose raw row a tick has pruned: the late sample of the same minute replaces it instead of
    * joining it, in the minute and in the five minutes. */
  lemma LateSampleReplacesTheOnlyOne(first: RawSample, late: RawSample) returns (states: seq<State>, steps: seq<Step>)
    requires first.capturedAtMs == 0 && late.capturedAtMs == 30_000
    ensures steps == [Store(first, 0), Tick(4 * DAY, None, NO_FAULTS), Store(late, 4 * DAY)]
    ensures History(SETTINGS, states, steps) && states[3].log.recorded.Keys == {0, 30_000}
    ensures var l := states[3].ladder;
            && 0 in l.l2 && l.l2[0].sampleCount == 1
            && 0 in l.l3 && l.l3[0].sampleCount == 1
  {
    hide InsertSample, Maintain, Rebuild, Fold, RawToBucket, SampleSummary, Alone;
    var b := Minute(0, first);
    MinuteOfOne(0, first);
    MinuteOfOne(0, late);
    FirstStore(SETTINGS, first, 0);
    FirstTick(map[0 := first], b, 4 * DAY);
    assert PruneRaw(map[0 := first], DAY) == map[];
    LateStore(b, late, 4 * DAY);
    AloneCounts(Minute(0, late));
    var s0 := State(EMPTY_LADDER, Log(map[], 0));
    var s1 := State(OneMinute(map[0 := first], b), Log(Record(map[], EMPTY_LADDER, first), 0));
    var s2 := State(Folded(map[], b), Log(s1.log.recorded, 4 * DAY));
    var s3 := State(InsertSample(SETTINGS, s2.ladder, late, 4 * DAY).0,
                    Log(Record(s1.log.recorded, s2.ladder, late), 4 * DAY));
    states := [s0, s1, s2, s3];
    steps := [Store(first, 0), Tick(4 * DAY, None, NO_FAULTS), Store(late, 4 * DAY)];
  }

  lemma AloneCounts(b: TierBucket)
    requires b.sampleCount > 0
    ensures Alone(0, b).sampleCount == b.sampleCount && Alone(0, b).cpu.avg == b.cpu.avg
  {
    FoldsAlone(0, b);
  }

  /** A minute of one sample and one raw row is rebuilt from that row. */
  lemma MinuteAgain(b: TierBucket, t: int, sample: RawSample, nb: TierBucket, existed: bool)
    requires b.sampleCount == 1 && 0 <= t < 60_000
    ensures UpdateMinute(map[0 := b], map[t := sample], t, nb, existed) == (map[0 := Minute(0, sample)], Rebuilt)
  {
    OnlyRow(map[0 := b], 0, b);
    OnlyRawRow(map[t := sample], t, 0, 60_000);
    hide RowsIn, RawIn, Rebuild, Fold, OldestAtOrAfter, KeysFrom;
    assert BucketStartFor(60_000, t) == 0;
    assert map[0 := b][0 := Minute(0, sample)] == map[0 := Minute(0, sample)];
  }

  lemma LateStore(b: TierBucket, late: RawSample, now: int)
    requires b.sampleCount == 1 && late.capturedAtMs == 30_000 && 0 <= now <= 7 * DAY
    ensures Minute(0, late).sampleCount == 1
    ensures var r := InsertSample(SETTINGS, Folded(map[], b), late, now).0;
            r.l2 == map[0 := Minute(0, late)] && r.l3 == map[0 := Alone(0, Minute(0, late))]
  {
    hide Rebuild, RawToBucket, RefoldAncestors, Alone, Minute, UpdateMinute;
    MinuteOfOne(0, late);
    var l := Folded(map[], b);
    assert l.raw[30_000 := late] == map[30_000 := late];
    MinuteAgain(b, 30_000, late, RawToBucket(late), false);
    var u := l.(raw := map[30_000 := late], l2 := map[0 := Minute(0, late)]);
    RefoldsFromMinute(u, Minute(0, late), 30_000, now, RawToBucket(late), true);
    assert l.l3[0 := Alone(0, Minute(0, late))] == map[0 := Alone(0, Minute(0, late))];
  }

  // ---------- A changed value that its ancestors do not see ----------

  /** A value replayed after eight days without a tick: the minute has the new value, the five minutes keep the old one. */
  lemma ChangedValueStaysOld(first: RawSample, changed: RawSample) returns (states: seq<State>, steps: seq<Step>)
    requires first.capturedAtMs == 0 && changed.capturedAtMs == 0
    ensures steps == [Store(first, 0), Tick(304_000, None, NO_FAULTS), Store(changed, 8 * DAY)]
    ensures History(SETTINGS, states, steps)
    ensures var l := states[3].ladder;
            && 0 in l.l2 && l.l2[0].cpu.avg == changed.cpu
            && 0 in l.l3 && l.l3[0].cpu.avg == first.cpu
  {
    hide InsertSample, Maintain, Rebuild, Fold, RawToBucket, SampleSummary, Alone;
    var b := Minute(0, first);
    MinuteOfOne(0, first);
    MinuteOfOne(0, changed);
    FirstStore(SETTINGS, first, 0);
    FirstTick(map[0 := first], b, 304_000);
    assert PruneRaw(map[0 := first], 304_000 - 3 * DAY) == map[0 := first];
    ChangedStore(first, changed);
    AloneCounts(b);
    var s0 := State(EMPTY_LADDER, Log(map[], 0));
    var s1 := State(OneMinute(map[0 := first], b), Log(Record(map[], EMPTY_LADDER, first), 0));
    var s2 := State(Folded(map[0 := first], b), Log(s1.log.recorded, 304_000));
    var s3 := State(InsertSample(SETTINGS, s2.ladder, changed, 8 * DAY).0,
                    Log(Record(s1.log.recorded, s2.ladder, changed), 8 * DAY));
    states := [s0, s1, s2, s3];
    steps := [Store(first, 0), Tick(304_000, None, NO_FAULTS), Store(changed, 8 * DAY)];
  }

  lemma ChangedStore(first: RawSample, changed: RawSample)
    requires first.capturedAtMs == 0 && changed.capturedAtMs == 0
    ensures Minute(0, first).sampleCount == 1
    ensures var l := Folded(map[0 := first], Minute(0, first));
            var r := InsertSample(SETTINGS, l, changed, 8 * DAY).0;
            r.l2 == map[0 := Minute(0, changed)] && r.l3 == l.l3
  {
    hide Rebuild, RawToBucket, RefoldAncestors, Alone, Minute, UpdateMinute;
    MinuteOfOne(0, first);
    var l := Folded(map[0 := first], Minute(0, first));
    assert l.raw[0 := changed] == map[0 := changed];
    MinuteAgain(Minute(0, first), 0, changed, RawToBucket(changed), true);
    UnsourcedReplay(l.(raw := map[0 := changed], l2 := map[0 := Minute(0, changed)]), RawToBucket(changed));
  }

  lemma UnsourcedReplay(l: Ladder, nb: TierBucket)
    requires l.l4FoldedUntil == None
    ensures RefoldAncestors(SETTINGS, l, 0, 8 * DAY, nb, false) == l
  {
    hide Fold, RowsIn, TotalCount;
  }

  // ---------- A changed value in a minute that lost a row ----------

  lemma {:induction false} TwoRawRows(raw: map<int, RawSample>, a: int, b: int, lo: int, hi: int)
    requires lo <= a < b < hi && a in raw && b in raw && forall v :: lo <= v < hi && v in raw ==> v == a || v == b
    ensures RawIn(raw, lo, hi) == [raw[a], raw[b]]
    decreases hi - lo
  {
    if b < hi - 1 {
      TwoRawRows(raw, a, b, lo, hi - 1);
    } else {
      OnlyRawRow(raw, a, lo, hi - 1);
    }
  }

  /** The minute of two rows reports their mean. */
  lemma BothMean(first: RawSample, second: RawSample)
    requires first.capturedAtMs == 0 && second.capturedAtMs == 1_000
    ensures Both(first, second).sampleCount == 2 && Both(first, second).cpu.avg == (first.cpu + second.cpu) / 2.0
  {
    hide RawIn;
    TwoRawRows(map[0 := first, 1_000 := second], 0, 1_000, 0, 60_000);
    BothRows(first, second);
    var rows := [first, second];
    assert rows[..1] == [first] && [first][..0] == [];
    var values := Column(rows, Cpu);
    assert Column([first], Cpu) == [first.cpu] && values == [first.cpu, second.cpu];
    assert values[..1] == [first.cpu] && [first.cpu][..0] == [];
    assert ColumnSum([first.cpu]) == first.cpu;
    assert ColumnSum(values) == first.cpu + second.cpu;
  }

  /** A replay into a minute that counts two samples and has one row left changes the row and nothing else. */
  lemma KeptStore(b: TierBucket, second: RawSample, changed: RawSample, now: int)
    requires b.sampleCount == 2 && second.capturedAtMs == 1_000 && changed.capturedAtMs == 1_000
    ensures InsertSample(SETTINGS, Folded(map[1_000 := second], b), changed, now).0 == Folded(map[1_000 := changed], b)
  {
    hide Rebuild, RawToBucket, RefoldAncestors, Alone, UpdateMinute;
    var l := Folded(map[1_000 := second], b);
    assert l.raw[1_000 := changed] == map[1_000 := changed];
    MinuteKept(b, changed);
  }

  lemma MinuteKept(b: TierBucket, changed: RawSample)
    requires b.sampleCount == 2
    ensures UpdateMinute(map[0 := b], map[1_000 := changed], 1_000, RawToBucket(changed), true) == (map[0 := b], Kept)
  {
    hide RowsIn, RawIn, Rebuild, Fold, OldestAtOrAfter, KeysFrom, RawToBucket;
    OnlyRow(map[0 := b], 0, b);
    OnlyRawRow(map[1_000 := changed], 1_000, 0, 60_000);
    assert BucketStartFor(60_000, 1_000) == 0;
  }

  /** Two samples of one minute, a tick that prunes the row of the first, and a new value for the second: the raw row has the
    * new value; the minute and the five minutes keep the mean of the old ones. */
  lemma PartialMinuteKeepsOldValue(first: RawSample, second: RawSample, changed: RawSample)
    returns (states: seq<State>, steps: seq<Step>)
    requires first.capturedAtMs == 0 && second.capturedAtMs == 1_000 && changed.capturedAtMs == 1_000
    ensures steps == [Store(first, 0), Store(second, 1_000), Tick(3 * DAY + 500, None, NO_FAULTS),
                      Store(changed, 3 * DAY + 500)]
    ensures History(SETTINGS, states, steps)
    ensures var l := states[4].ladder;
            && l.raw == map[1_000 := changed]
            && 0 in l.l2 && l.l2[0].cpu.avg == (first.cpu + second.cpu) / 2.0
            && 0 in l.l3 && l.l3[0].cpu.avg == (first.cpu + second.cpu) / 2.0
  {
    hide InsertSample, Maintain, Rebuild, Fold, RawToBucket, SampleSummary, Alone, Minute, Both, RawIn, Record;
    var b, now := Both(first, second), 3 * DAY + 500;
    BothMean(first, second);
    FirstStore(SETTINGS, first, 0);
    SecondOfMinute(first, second, 1_000);
    FirstTick(map[0 := first, 1_000 := second], b, now);
    assert PruneRaw(map[0 := first, 1_000 := second], 500) == map[1_000 := second];
    KeptStore(b, second, changed, now);
    AloneCounts(b);
    var s0 := State(EMPTY_LADDER, Log(map[], 0));
    var s1 := State(OneMinute(map[0 := first], Minute(0, first)), Log(Record(map[], EMPTY_LADDER, first), 0));
    var s2 := State(OneMinute(map[0 := first, 1_000 := second], b), Log(Record(s1.log.recorded, s1.ladder, second), 1_000));
    var s3 := State(Folded(map[1_000 := second], b), Log(s2.log.recorded, now));
    var s4 := State(Folded(map[1_000 := changed], b), Log(Record(s3.log.recorded, s3.ladder, changed), now));
    states := [s0, s1, s2, s3, s4];
    steps := [Store(first, 0), Store(second, 1_000), Tick(now, None, NO_FAULTS), Store(changed, now)];
  }

  // ---------- A changed value while the store does not know that L3 is off ----------

  /** Hours are folded straight from minutes. */
  const HOURS_ONLY := SETTINGS.(l3 := ToggledKeep(false, 30))

  const FLAG_LOST := NO_FAULTS.(l3FlagLost := true)

  /** The hour after such a tick; whether L3 is on is not stored. */
  function HourFolded(raw: map<int, RawSample>, b: TierBucket, hour: TierBucket): Ladder {
    Ladder(raw, map[0 := b], map[], map[0 := hour], None, Some(3_600_000), None, Some(true))
  }

  lemma MinutesTurn(l: Ladder, b: TierBucket, p: Pass)
    requires b.sampleCount > 0 && l.l2 == map[0 := b] && l.l4 == map[]
    requires p == Pass(L2, L4, p.nowMs, 4_000, None, NoFault) && p.nowMs >= 3_604_000
    ensures NextTurn(l, p, I64_MIN, 0) ==
            Wrote(l.(l4 := map[0 := Alone(0, b)], l4FoldedUntil := Some(3_600_000)), 3_600_000)
  {
    hide RowsIn, Fold, OldestAtOrAfter, KeysFrom, Alone, BucketStartFor, IsComplete, SatAdd, TotalCount;
    OnlyRow(l.l2, 0, b);
    AloneFold(b);
    FirstHour();
    assert l.l4[0 := Alone(0, b)] == map[0 := Alone(0, b)];
  }

  lemma MinutesFold(raw: map<int, RawSample>, b: TierBucket, now: int)
    requires b.sampleCount > 0 && now >= 3_604_000
    ensures var l := WithFlags(HOURS_ONLY, OneMinute(raw, b), FLAG_LOST);
            && ClockKeys(l.l2) && ClockKeys(l.l3)
            && PromoteL3(HOURS_ONLY, l, now, FLAG_LOST).0 == l
            && PromoteL4(HOURS_ONLY, l, now, FLAG_LOST).0 == HourFolded(raw, b, Alone(0, b))
  {
    var l := WithFlags(HOURS_ONLY, OneMinute(raw, b), FLAG_LOST);
    var p := L4Pass(HOURS_ONLY, l, now, FLAG_LOST);
    assert InClock(0);
    OnlyRow(l.l2, 0, b);
    MinutesTurn(l, b, p);
    hide RowsIn, Fold, OldestAtOrAfter, KeysFrom, IsComplete, Alone;
    var r := HourFolded(raw, b, Alone(0, b));
    assert PromoteFrom(r, p, 3_600_000, 1) == (r, 1);
  }

  lemma FlagLostTick(raw: map<int, RawSample>, b: TierBucket, now: int)
    requires b.sampleCount > 0 && 3_604_000 <= now <= DAY && raw.Keys <= {0}
    ensures var l := OneMinute(raw, b);
            && ClockKeys(l.l2) && ClockKeys(l.l3)
            && Maintain(HOURS_ONLY, l, now, None, FLAG_LOST).0 == HourFolded(raw, b, Alone(0, b))
  {
    MinutesFold(raw, b, now);
    hide PromoteL3, PromoteL4, ClockKeys, Alone;
    var l := HourFolded(raw, b, Alone(0, b));
    assert PruneRaw(l.raw, SatSub(now, KeepMs(3))) == l.raw;
    assert Prune(l.l2, 60_000, L2Cutoff(HOURS_ONLY, now, None, None)) == l.l2;
  }

  lemma UnknownFlagStore(first: RawSample, changed: RawSample, hour: TierBucket, now: int)
    requires first.capturedAtMs == 0 && changed.capturedAtMs == 0
    ensures InsertSample(HOURS_ONLY, HourFolded(map[0 := first], Minute(0, first), hour), changed, now).0 ==
            HourFolded(map[0 := changed], Minute(0, changed), hour)
  {
    hide Rebuild, RawToBucket, RefoldAncestors, Minute, UpdateMinute;
    MinuteOfOne(0, first);
    var l := HourFolded(map[0 := first], Minute(0, first), hour);
    assert l.raw[0 := changed] == map[0 := changed];
    MinuteAgain(Minute(0, first), 0, changed, RawToBucket(changed), true);
    NothingToRead(HourFolded(map[0 := changed], Minute(0, changed), hour), now, RawToBucket(changed));
  }

  lemma NothingToRead(l: Ladder, now: int, nb: TierBucket)
    requires l.l3 == map[] && l.l3Enabled.None? && l.l3FoldedUntil.None?
    ensures RefoldAncestors(HOURS_ONLY, l, 0, now, nb, false) == l
  {
    hide BucketStartFor, Fold, RowsIn, KeepMs;
    RowsNone(map[], BucketStartFor(3_600_000, 0), SatAdd(BucketStartFor(3_600_000, 0), 3_600_000));
    assert TotalCount([]) == 0;
  }

  /** With L3 off and the flag of that not written, a replayed value never reaches the hour: the re-fold looks for it in L3. */
  lemma UnknownFlagKeepsOldValue(first: RawSample, changed: RawSample) returns (states: seq<State>, steps: seq<Step>)
    requires first.capturedAtMs == 0 && changed.capturedAtMs == 0
    ensures steps == [Store(first, 0), Tick(3_604_000, None, FLAG_LOST), Store(changed, 3_604_000)]
    ensures History(HOURS_ONLY, states, steps)
    ensures var l := states[3].ladder;
            && 0 in l.l2 && l.l2[0].cpu.avg == changed.cpu
            && 0 in l.l4 && l.l4[0].cpu.avg == first.cpu
  {
    hide InsertSample, Maintain, Rebuild, Fold, RawToBucket, SampleSummary, Alone, Record;
    var b := Minute(0, first);
    MinuteOfOne(0, first);
    MinuteOfOne(0, changed);
    FirstStore(HOURS_ONLY, first, 0);
    FlagLostTick(map[0 := first], b, 3_604_000);
    UnknownFlagStore(first, changed, Alone(0, b), 3_604_000);
    AloneCounts(b);
    var s0 := State(EMPTY_LADDER, Log(map[], 0));
    var s1 := State(OneMinute(map[0 := first], b), Log(Record(map[], EMPTY_LADDER, first), 0));
    var s2 := State(HourFolded(map[0 := first], b, Alone(0, b)), Log(s1.log.recorded, 3_604_000));
    var s3 := State(HourFolded(map[0 := changed], Minute(0, changed), Alone(0, b)),
                    Log(Record(s1.log.recorded, s2.ladder, changed), 3_604_000));
    states := [s0, s1, s2, s3];
    steps := [Store(first, 0), Tick(3_604_000, None, FLAG_LOST), Store(changed, 3_604_000)];
  }

  // ---------- An hour folded before its five minutes ----------

  lemma TwoRows(b: TierBucket, d: TierBucket)
    ensures var table := map[0 := b, 300_000 := d];
            && (forall since :: since <= 0 ==> OldestAtOrAfter(table, since) == Some(0))
            && OldestAtOrAfter(table, 300_000) == Some(300_000)
            && RowsIn(table, 0, 300_000) == [b] && RowsIn(table, 300_000, 600_000) == [d]
  {
    var table := map[0 := b, 300_000 := d];
    forall since | since <= 0
      ensures OldestAtOrAfter(table, since) == Some(0)
    {
      assert KeysFrom(table, since) == {0, 300_000};
    }
    assert KeysFrom(table, 300_000) == {300_000};
    RowsSingle(table, 0, 300_000, 0);
    RowsSingle(table, 300_000, 600_000, 300_000);
  }

  /** A second sample, five minutes after the first. */
  function WithSecond(l: Ladder, first: RawSample, second: RawSample): Ladder {
    l.(raw := map[0 := first, 300_000 := second],
       l2 := map[0 := Minute(0, first), 300_000 := Minute(300_000, second)])
  }

  lemma SecondStore(l: Ladder, first: RawSample, second: RawSample, now: int)
    requires second.capturedAtMs == 300_000
    requires l.raw == map[0 := first] && l.l2 == map[0 := Minute(0, first)]
    requires l.l4FoldedUntil.None? && (l.l3FoldedUntil.Some? ==> l.l3FoldedUntil.value == 300_000)
    ensures InsertSample(SETTINGS, l, second, now).0 == WithSecond(l, first, second)
  {
    hide UpdateMinute, RefoldAncestors, RawToBucket, Rebuild;
    NewMinute(l.l2, l.raw, 300_000, second);
    assert l.raw[300_000 := second] == map[0 := first, 300_000 := second];
    assert l.l2[300_000 := Minute(300_000, second)] == map[0 := Minute(0, first), 300_000 := Minute(300_000, second)];
    NothingBehind(SETTINGS, WithSecond(l, first, second), 300_000, now, RawToBucket(second), true);
  }

  /** An L4 pass without a gate folds the hour from the one five-minute row there is. */
  lemma HourFolds(l: Ladder, b: TierBucket, now: int, faults: TickFaults)
    requires b.sampleCount > 0 && l.l3 == map[0 := b] && l.l4 == map[] && l.l4FoldedUntil.None? && ClockKeys(l.l2)
    requires now >= 3_604_000 && faults.promoteL4 == NoFault && L4Gate(SETTINGS, l, faults).None?
    ensures ClockKeys(l.l3)
    ensures PromoteL4(SETTINGS, l, now, faults).0 == l.(l4 := map[0 := Alone(0, b)], l4FoldedUntil := Some(3_600_000))
  {
    assert InClock(0);
    OnlyRow(l.l3, 0, b);
    HourTurn(l, b, L4Pass(SETTINGS, l, now, faults));
    hide RowsIn, Fold, OldestAtOrAfter, KeysFrom, IsComplete, Alone;
    var r := l.(l4 := map[0 := Alone(0, b)], l4FoldedUntil := Some(3_600_000));
    assert PromoteFrom(r, L4Pass(SETTINGS, l, now, faults), 3_600_000, 1) == (r, 1);
  }

  lemma FirstHour()
    ensures BucketStartFor(3_600_000, 0) == 0 && SatAdd(0, 3_600_000) == 3_600_000
    ensures forall now :: now >= 3_604_000 ==> IsComplete(0, 3_600_000, 4_000, now)
  {
  }

  lemma HourTurn(l: Ladder, b: TierBucket, p: Pass)
    requires b.sampleCount > 0 && l.l3 == map[0 := b] && l.l4 == map[]
    requires p == Pass(L3, L4, p.nowMs, 4_000, None, NoFault) && p.nowMs >= 3_604_000
    ensures NextTurn(l, p, I64_MIN, 0) ==
            Wrote(l.(l4 := map[0 := Alone(0, b)], l4FoldedUntil := Some(3_600_000)), 3_600_000)
  {
    hide RowsIn, Fold, OldestAtOrAfter, KeysFrom, Alone, BucketStartFor, IsComplete, SatAdd, TotalCount;
    OnlyRow(l.l3, 0, b);
    AloneFold(b);
    FirstHour();
    assert l.l4[0 := Alone(0, b)] == map[0 := Alone(0, b)];
  }

  lemma RawStays(first: RawSample, now: int)
    requires 0 <= now <= 3 * DAY
    ensures PruneRaw(map[0 := first], now - 3 * DAY) == map[0 := first]
  {
  }

  lemma NewRecord(m: map<int, Summary>, l: Ladder, sample: RawSample)
    requires sample.capturedAtMs !in l.raw
    ensures Record(m, l, sample).Keys == m.Keys + {sample.capturedAtMs}
  {
  }

  lemma NothingExpired(l: Ladder, now: int, l3Mark: Option<int>)
    requires 0 <= now <= DAY && l.l3.Keys <= {0} && l.l4.Keys <= {0} && l.raw.Keys <= {0, 300_000} && l.l2.Keys <= {0, 300_000}
    ensures PruneTiers(SETTINGS, l, now, l3Mark, None, None, {}) == l
  {
    assert PruneRaw(l.raw, SatSub(now, KeepMs(3))) == l.raw;
    assert Prune(l.l2, 60_000, L2Cutoff(SETTINGS, now, l3Mark, None)) == l.l2;
    assert Prune(l.l3, 300_000, L3Cutoff(SETTINGS, now, None)) == l.l3 by { L3Stays(l.l3, now); }
  }

  lemma L3Stays(table: Table, now: int)
    requires forall k :: k in table ==> k >= 0
    ensures Prune(table, 300_000, L3Cutoff(SETTINGS, now, None)) == table
  {
  }

  const HALF_WRITTEN := NO_FAULTS.(promoteL3 := WatermarkFails(0))

  const GATE_LOST := NO_FAULTS.(promoteL3 := UpsertFails(0), gateLost := true)

  /** The L3 pass writes its first row and fails to store the watermark for it. */
  lemma HalfWrittenPass(first: RawSample, second: RawSample, now: int)
    requires now >= 304_000
    ensures Minute(0, first).sampleCount == 1
    ensures var l := WithFlags(SETTINGS, WithSecond(EMPTY_LADDER, first, second), HALF_WRITTEN);
            && ClockKeys(l.l2)
            && PromoteL3(SETTINGS, l, now, HALF_WRITTEN).0 == l.(l3 := map[0 := Alone(0, Minute(0, first))])
  {
    hide RowsIn, Fold, OldestAtOrAfter, KeysFrom, Alone, Minute;
    MinuteOfOne(0, first);
    assert InClock(0) && InClock(300_000);
    TwoRows(Minute(0, first), Minute(300_000, second));
    AloneFold(Minute(0, first));
    var l := WithFlags(SETTINGS, WithSecond(EMPTY_LADDER, first, second), HALF_WRITTEN);
    assert l.l3[0 := Alone(0, Minute(0, first))] == map[0 := Alone(0, Minute(0, first))];
    HalfWrittenTurn(l, Minute(0, first), now);
  }

  lemma HalfWrittenTurn(l: Ladder, b: TierBucket, now: int)
    requires now >= 304_000 && b.sampleCount > 0 && l.l3FoldedUntil.None? && l.l3 == map[]
    requires OldestAtOrAfter(l.l2, I64_MIN) == Some(0) && RowsIn(l.l2, 0, 300_000) == [b]
    ensures NextTurn(l, L3Pass(SETTINGS, now, HALF_WRITTEN), I64_MIN, 0) == Stop(l.(l3 := map[0 := Alone(0, b)]))
  {
    hide RowsIn, Fold, OldestAtOrAfter, KeysFrom, Alone;
    AloneFold(b);
    assert l.l3[0 := Alone(0, b)] == map[0 := Alone(0, b)];
  }

  /** The L3 pass fails before its next row. */
  lemma FailedPass(first: RawSample, second: RawSample, now: int)
    requires now >= 604_000
    ensures Minute(0, first).sampleCount == 1
    ensures var l := WithSecond(Folded(map[], Minute(0, first)), first, second);
            ClockKeys(l.l2) && PromoteL3(SETTINGS, l, now, GATE_LOST).0 == l
  {
    hide RowsIn, Fold, OldestAtOrAfter, KeysFrom, Alone, Minute;
    MinuteOfOne(0, first);
    assert InClock(0) && InClock(300_000);
    TwoRows(Minute(0, first), Minute(300_000, second));
    MinuteOfOne(300_000, second);
    assert [Minute(300_000, second)][..0] == [];
    FailedTurn(WithSecond(Folded(map[], Minute(0, first)), first, second), L3Pass(SETTINGS, now, GATE_LOST));
  }

  lemma FailedTurn(l: Ladder, p: Pass)
    requires p.source == L2 && p.target == L3 && p.fault == UpsertFails(0)
    requires OldestAtOrAfter(l.l2, 300_000) == Some(300_000) && RowsIn(l.l2, 300_000, 600_000) != []
    requires TotalCount(RowsIn(l.l2, 300_000, 600_000)) > 0
    ensures NextTurn(l, p, 300_000, 0) == Stop(l)
  {
    hide RowsIn, OldestAtOrAfter, TotalCount;
  }

  /** What a tick at the end of the first hour does when its L4 pass has no gate. */
  lemma HourTick(l: Ladder, l3: Table, b: TierBucket, now: int, faults: TickFaults)
    requires b.sampleCount > 0 && l3 == map[0 := b]
    requires l.l4 == map[] && l.l4FoldedUntil.None? && l.raw.Keys <= {0, 300_000} && l.l2.Keys <= {0, 300_000}
    requires ClockKeys(l.l2) && ClockKeys(l.l3) && 3_604_000 <= now <= DAY
    requires faults.promoteL4 == NoFault && faults.pruneFails == {} && !faults.l3MarkLost && !faults.l4MarkLost
    requires PromoteL3(SETTINGS, WithFlags(SETTINGS, l, faults), now, faults).0 == WithFlags(SETTINGS, l, faults).(l3 := l3)
    requires faults.gateLost || l.l3FoldedUntil.None?
    ensures Maintain(SETTINGS, l, now, None, faults).0 ==
            WithFlags(SETTINGS, l, faults).(l3 := l3, l4 := map[0 := Alone(0, b)], l4FoldedUntil := Some(3_600_000))
  {
    hide PromoteL3, PromoteL4, PruneTiers, Alone, ClockKeys;
    var folded := WithFlags(SETTINGS, l, faults).(l3 := l3);
    HourFolds(folded, b, now, faults);
    NothingExpired(folded.(l4 := map[0 := Alone(0, b)], l4FoldedUntil := Some(3_600_000)), now, l.l3FoldedUntil);
  }

  lemma TwoKeysInClock(b: TierBucket, d: TierBucket)
    ensures ClockKeys(map[0 := b, 300_000 := d]) && ClockKeys(map[0 := b]) && ClockKeys(map[])
  {
    assert InClock(0) && InClock(300_000);
  }

  /** The ladders on the way to the first hour. */
  function One(first: RawSample): Ladder { OneMinute(map[0 := first], Minute(0, first)) }

  function OneFolded(first: RawSample): Ladder {
    MinuteOfOne(0, first);
    Folded(map[0 := first], Minute(0, first))
  }

  lemma OneFoldedTick(first: RawSample)
    ensures ClockKeys(One(first).l2) && ClockKeys(One(first).l3)
    ensures Maintain(SETTINGS, One(first), 304_000, None, NO_FAULTS).0 == OneFolded(first)
  {
    hide Maintain, Alone, Minute, ClockKeys, PruneRaw;
    MinuteOfOne(0, first);
    FirstTick(map[0 := first], Minute(0, first), 304_000);
    RawStays(first, 304_000);
  }

  lemma SecondIntoFolded(first: RawSample, second: RawSample)
    requires second.capturedAtMs == 300_000
    ensures InsertSample(SETTINGS, OneFolded(first), second, 304_000).0 == WithSecond(OneFolded(first), first, second)
    ensures 300_000 !in OneFolded(first).raw
  {
    hide InsertSample, Minute, Alone;
    SecondStore(OneFolded(first), first, second, 304_000);
  }

  lemma SecondIntoOne(first: RawSample, second: RawSample)
    requires second.capturedAtMs == 300_000
    ensures InsertSample(SETTINGS, One(first), second, 300_000).0 == WithSecond(One(first), first, second)
    ensures 300_000 !in One(first).raw
  {
    hide InsertSample, Minute;
    SecondStore(One(first), first, second, 300_000);
  }

  /** The hour counts one sample, and the watermarks are out of order. */
  predicate Undercounted(l: Ladder, l3Mark: Option<int>) {
    && 0 in l.l4 && l.l4[0].sampleCount == 1
    && l.l4FoldedUntil == Some(3_600_000) && l.l3FoldedUntil == l3Mark
  }

  lemma GateLostTick(first: RawSample, second: RawSample)
    ensures var l := WithSecond(OneFolded(first), first, second);
            && ClockKeys(l.l2) && ClockKeys(l.l3)
            && Undercounted(Maintain(SETTINGS, l, 3_604_000, None, GATE_LOST).0, Some(300_000))
  {
    hide PromoteL3, Maintain, Alone, Minute, ClockKeys;
    var b := Minute(0, first);
    var l := WithSecond(OneFolded(first), first, second);
    MinuteOfOne(0, first);
    AloneCounts(b);
    AloneCounts(Alone(0, b));
    TwoKeysInClock(b, Minute(300_000, second));
    TwoKeysInClock(Alone(0, b), b);
    FailedPass(first, second, 3_604_000);
    HourTick(l, l.l3, Alone(0, b), 3_604_000, GATE_LOST);
  }

  lemma HalfWrittenTick(first: RawSample, second: RawSample)
    ensures var l := WithSecond(One(first), first, second);
            && ClockKeys(l.l2) && ClockKeys(l.l3)
            && Undercounted(Maintain(SETTINGS, l, 3_604_000, None, HALF_WRITTEN).0, None)
  {
    hide PromoteL3, Maintain, Alone, Minute, ClockKeys;
    var b := Minute(0, first);
    var l := WithSecond(One(first), first, second);
    MinuteOfOne(0, first);
    AloneCounts(b);
    AloneCounts(Alone(0, b));
    TwoKeysInClock(b, Minute(300_000, second));
    HalfWrittenPass(first, second, 3_604_000);
    HourTick(l, map[0 := Alone(0, b)], Alone(0, b), 3_604_000, HALF_WRITTEN);
  }

  /** The L3 watermark stands at five minutes, the L3 pass fails, and the read of its watermark for the L4 pass fails: the
    * hour is folded from the one five-minute row there is, and counts one of its two samples. */
  lemma UngatedHourUndercounts(first: RawSample, second: RawSample) returns (states: seq<State>, steps: seq<Step>)
    requires first.capturedAtMs == 0 && second.capturedAtMs == 300_000
    ensures steps == [Store(first, 0), Tick(304_000, None, NO_FAULTS), Store(second, 304_000),
                      Tick(3_604_000, None, GATE_LOST)]
    ensures History(SETTINGS, states, steps) && states[4].log.recorded.Keys == {0, 300_000}
    ensures Undercounted(states[4].ladder, Some(300_000))
  {
    hide InsertSample, Maintain, Record, Alone, Minute, ClockKeys, One, OneFolded, WithSecond, Undercounted;
    FirstStore(SETTINGS, first, 0);
    OneIs(first);
    OneFoldedTick(first);
    SecondIntoFolded(first, second);
    GateLostTick(first, second);
    NewRecord(map[], EMPTY_LADDER, first);
    var m := Record(map[], EMPTY_LADDER, first);
    NewRecord(m, OneFolded(first), second);
    var n := Record(m, OneFolded(first), second);
    var l := WithSecond(OneFolded(first), first, second);
    states := [State(EMPTY_LADDER, Log(map[], 0)), State(One(first), Log(m, 0)), State(OneFolded(first), Log(m, 304_000)),
               State(l, Log(n, 304_000)),
               State(Maintain(SETTINGS, l, 3_604_000, None, GATE_LOST).0, Log(n, 3_604_000))];
    steps := [Store(first, 0), Tick(304_000, None, NO_FAULTS), Store(second, 304_000), Tick(3_604_000, None, GATE_LOST)];
  }

  lemma OneIs(first: RawSample)
    ensures One(first) == OneMinute(map[0 := first], Minute(0, first))
  {
  }

  /** The very first five-minute row is written but its watermark is not: the same tick folds the hour from that row. */
  lemma HalfWrittenHourUndercounts(first: RawSample, second: RawSample) returns (states: seq<State>, steps: seq<Step>)
    requires first.capturedAtMs == 0 && second.capturedAtMs == 300_000
    ensures steps == [Store(first, 0), Store(second, 300_000), Tick(3_604_000, None, HALF_WRITTEN)]
    ensures History(SETTINGS, states, steps) && states[3].log.recorded.Keys == {0, 300_000}
    ensures Undercounted(states[3].ladder, None)
  {
    hide InsertSample, Maintain, Record, Alone, Minute, ClockKeys, One, WithSecond, Undercounted;
    FirstStore(SETTINGS, first, 0);
    OneIs(first);
    SecondIntoOne(first, second);
    HalfWrittenTick(first, second);
    NewRecord(map[], EMPTY_LADDER, first);
    var m := Record(map[], EMPTY_LADDER, first);
    NewRecord(m, One(first), second);
    var n := Record(m, One(first), second);
    var l := WithSecond(One(first), first, second);
    states := [State(EMPTY_LADDER, Log(map[], 0)), State(One(first), Log(m, 0)), State(l, Log(n, 300_000)),
               State(Maintain(SETTINGS, l, 3_604_000, None, HALF_WRITTEN).0, Log(n, 3_604_000))];
    steps := [Store(first, 0), Store(second, 300_000), Tick(3_604_000, None, HALF_WRITTEN)];
  }

  // ---------- A time that is added again ----------

  /** The minute of two rows. */
  function Both(first: RawSample, second: RawSample): TierBucket
    requires first.capturedAtMs == 0 && second.capturedAtMs == 1_000
  {
    BothRows(first, second);
    Rebuild(0, RawIn(map[0 := first, 1_000 := second], 0, 60_000))
  }

  lemma BothRows(first: RawSample, second: RawSample)
    requires first.capturedAtMs == 0 && second.capturedAtMs == 1_000
    ensures |RawIn(map[0 := first, 1_000 := second], 0, 60_000)| == 2
  {
    hide RawIn;
    OnlyRawRow(map[0 := first], 0, 0, 60_000);
    RowsAfterInsert(map[0 := first], 1_000, second, 0, 60_000);
    assert map[0 := first][1_000 := second] == map[0 := first, 1_000 := second];
  }

  lemma SecondOfMinute(first: RawSample, second: RawSample, now: int)
    requires first.capturedAtMs == 0 && second.capturedAtMs == 1_000
    ensures InsertSample(SETTINGS, OneMinute(map[0 := first], Minute(0, first)), second, now).0 ==
            OneMinute(map[0 := first, 1_000 := second], Both(first, second))
  {
    hide UpdateMinute, RefoldAncestors, RawToBucket, Rebuild, Both;
    var raw := map[0 := first, 1_000 := second];
    assert map[0 := first][1_000 := second] == raw;
    TwoRowMinute(first, second);
    NothingBehind(SETTINGS, OneMinute(raw, Both(first, second)), 1_000, now, RawToBucket(second), true);
  }

  lemma TwoRowMinute(first: RawSample, second: RawSample)
    requires first.capturedAtMs == 0 && second.capturedAtMs == 1_000
    ensures UpdateMinute(map[0 := Minute(0, first)], map[0 := first, 1_000 := second], 1_000, RawToBucket(second), false) ==
            (map[0 := Both(first, second)], Rebuilt)
  {
    hide RowsIn, RawIn, Rebuild, Fold, OldestAtOrAfter, KeysFrom, RawToBucket, Minute;
    MinuteOfOne(0, first);
    OnlyRow(map[0 := Minute(0, first)], 0, Minute(0, first));
    BothRows(first, second);
    assert BucketStartFor(60_000, 1_000) == 0;
    assert map[0 := Minute(0, first)][0 := Both(first, second)] == map[0 := Both(first, second)];
  }

  /** A minute that counts two samples and has lost both rows gets a third one, at a time it has had already. */
  lemma AgainStore(b: TierBucket, again: RawSample, now: int)
    requires b.sampleCount == 2 && again.capturedAtMs == 0 && 0 <= now <= 7 * DAY
    ensures var r := InsertSample(SETTINGS, Folded(map[], b), again, now).0;
            0 in r.l3 && r.l3[0].sampleCount == 3
  {
    FoldPair(0, b, again);
    hide Rebuild, RawToBucket, RefoldAncestors, Alone, UpdateMinute, Fold;
    var merged := Fold(0, [b, RawToBucket(again)]).value;
    MergedCounts(b, again);
    var l := Folded(map[], b);
    assert l.raw[0 := again] == map[0 := again];
    MinuteMerges(b, again);
    var u := l.(raw := map[0 := again], l2 := map[0 := merged]);
    RefoldsFromMinute(u, merged, 0, now, RawToBucket(again), true);
    AloneCounts(merged);
  }

  lemma MergedCounts(b: TierBucket, again: RawSample)
    requires b.sampleCount == 2
    ensures var merged := Fold(0, [b, RawToBucket(again)]); merged.Some? && merged.value.sampleCount == 3
  {
    FoldPair(0, b, again);
    assert [b, RawToBucket(again)][..1] == [b] && [b][..0] == [];
  }

  lemma MinuteMerges(b: TierBucket, again: RawSample)
    requires b.sampleCount == 2
    ensures var merged := Fold(0, [b, RawToBucket(again)]);
            merged.Some? &&
            UpdateMinute(map[0 := b], map[0 := again], 0, RawToBucket(again), false) == (map[0 := merged.value], Merged)
  {
    hide RowsIn, RawIn, Rebuild, Fold, OldestAtOrAfter, KeysFrom, RawToBucket;
    MergedCounts(b, again);
    OnlyRow(map[0 := b], 0, b);
    OnlyRawRow(map[0 := again], 0, 0, 60_000);
    assert BucketStartFor(60_000, 0) == 0;
    var merged := Fold(0, [b, RawToBucket(again)]).value;
    assert map[0 := b][0 := merged] == map[0 := merged];
  }

  /** Two samples of one minute, a tick that prunes their rows, and the first sample once more: nothing tells that it had
    * been stored, and three samples are counted where two distinct ones exist. */
  lemma AddedAgainCountsTwice(first: RawSample, second: RawSample, again: RawSample)
    returns (states: seq<State>, steps: seq<Step>)
    requires first.capturedAtMs == 0 && second.capturedAtMs == 1_000 && again.capturedAtMs == 0
    ensures steps == [Store(first, 0), Store(second, 1_000), Tick(4 * DAY, None, NO_FAULTS), Store(again, 4 * DAY)]
    ensures History(SETTINGS, states, steps) && StoredTimes(steps, 0, 300_000) == {0, 1_000}
    ensures 0 in states[4].ladder.l3 && states[4].ladder.l3[0].sampleCount == 3
  {
    hide InsertSample, Maintain, Rebuild, Fold, RawToBucket, SampleSummary, Alone, Minute, Both, RawIn, Record;
    var b := Both(first, second);
    BothCounts(first, second);
    FirstStore(SETTINGS, first, 0);
    SecondOfMinute(first, second, 1_000);
    FirstTick(map[0 := first, 1_000 := second], b, 4 * DAY);
    assert PruneRaw(map[0 := first, 1_000 := second], DAY) == map[];
    AgainStore(b, again, 4 * DAY);
    var s0 := State(EMPTY_LADDER, Log(map[], 0));
    var s1 := State(OneMinute(map[0 := first], Minute(0, first)), Log(Record(map[], EMPTY_LADDER, first), 0));
    var s2 := State(OneMinute(map[0 := first, 1_000 := second], b), Log(Record(s1.log.recorded, s1.ladder, second), 1_000));
    var s3 := State(Folded(map[], b), Log(s2.log.recorded, 4 * DAY));
    var s4 := State(InsertSample(SETTINGS, s3.ladder, again, 4 * DAY).0,
                    Log(Record(s3.log.recorded, s3.ladder, again), 4 * DAY));
    states := [s0, s1, s2, s3, s4];
    steps := [Store(first, 0), Store(second, 1_000), Tick(4 * DAY, None, NO_FAULTS), Store(again, 4 * DAY)];
    StoredOfFour(first, second, again);
  }

  lemma BothCounts(first: RawSample, second: RawSample)
    requires first.capturedAtMs == 0 && second.capturedAtMs == 1_000
    ensures Both(first, second).sampleCount == 2
  {
    hide RawIn;
    BothRows(first, second);
  }

  lemma StoredOfFour(first: RawSample, second: RawSample, again: RawSample)
    requires first.capturedAtMs == 0 && second.capturedAtMs == 1_000 && again.capturedAtMs == 0
    ensures StoredTimes([Store(first, 0), Store(second, 1_000), Tick(4 * DAY, None, NO_FAULTS), Store(again, 4 * DAY)],
                        0, 300_000) == {0, 1_000}
  {
    var a, b, c, d := Store(first, 0), Store(second, 1_000), Tick(4 * DAY, None, NO_FAULTS), Store(again, 4 * DAY);
    assert [a][..0] == [] && [a, b][..1] == [a] && [a, b, c][..2] == [a, b] && [a, b, c, d][..3] == [a, b, c];
    assert StoredTimes([a], 0, 300_000) == {0};
    assert StoredTimes([a, b], 0, 300_000) == {0, 1_000};
    assert StoredTimes([a, b, c], 0, 300_000) == {0, 1_000};
  }
}

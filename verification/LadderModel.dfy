/** The retention ladder as values: what each store operation does to the tables and watermarks
  * (`maintenance.rs`, and the sample insert of the store's `lib.rs`). */
module LadderModel {
  import opened Prelude
  import opened Summaries
  import opened TierFold
  import opened TimeGrid

  const MAX_PROMOTIONS_PER_TICK: nat := 50

  type Table = map<int, TierBucket>

  datatype ToggledKeep = ToggledKeep(enabled: bool, keepDays: int)

  /** The part of the saved settings the ladder reads; fixed throughout a run. */
  datatype Config = Config(l1KeepDays: int, l2KeepDays: int, l3: ToggledKeep, l4: ToggledKeep, pollIntervalMs: int)

  function KeepMs(days: int): int { SatMul(days, DAY_MS) }

  /** The stored state: raw rows by capture time, buckets by start, and the persisted ladder keys. */
  datatype Ladder = Ladder(
    raw: map<int, RawSample>,
    l2: Table,
    l3: Table,
    l4: Table,
    l3FoldedUntil: Option<int>,
    l4FoldedUntil: Option<int>,
    l3Enabled: Option<bool>,
    l4Enabled: Option<bool>)
  {
    function Rows(tier: Tier): Table {
      match tier
      case L1 => map[]
      case L2 => l2
      case L3 => l3
      case L4 => l4
    }

    function WithRows(tier: Tier, table: Table): Ladder {
      match tier
      case L1 => this
      case L2 => this.(l2 := table)
      case L3 => this.(l3 := table)
      case L4 => this.(l4 := table)
    }

    function FoldedUntil(tier: Tier): Option<int> {
      if tier == L4 then l4FoldedUntil else l3FoldedUntil
    }

    function WithFoldedUntil(tier: Tier, mark: Option<int>): Ladder {
      if tier == L4 then this.(l4FoldedUntil := mark) else this.(l3FoldedUntil := mark)
    }
  }

  const EMPTY_LADDER := Ladder(map[], map[], map[], map[], None, None, None, None)

  // ---------- Queries ----------

  /** `SELECT ... WHERE start >= lo AND start < hi ORDER BY start`. */
  function RowsIn(table: Table, lo: int, hi: int): seq<TierBucket>
    decreases hi - lo
  {
    if lo >= hi then []
    else RowsIn(table, lo, hi - 1) + (if hi - 1 in table then [table[hi - 1]] else [])
  }

  function RawIn(raw: map<int, RawSample>, lo: int, hi: int): seq<RawSample>
    decreases hi - lo
  {
    if lo >= hi then []
    else RawIn(raw, lo, hi - 1) + (if hi - 1 in raw then [raw[hi - 1]] else [])
  }

  function KeysFrom(table: Table, since: int): set<int> {
    set k | k in table && k >= since
  }

  /** `SELECT MIN(start) ... WHERE start >= since`. */
  function OldestAtOrAfter(table: Table, since: int): Option<int> {
    var keys := KeysFrom(table, since);
    if keys == {} then None else Some(Least(keys))
  }

  // ---------- SQL aggregates of the minute rebuild ----------

  function Column(rows: seq<RawSample>, metric: Metric): (r: seq<real>)
    ensures |r| == |rows|
  {
    if rows == [] then [] else Column(rows[..|rows| - 1], metric) + [rows[|rows| - 1].Get(metric)]
  }

  /** The root column with its NULLs dropped, as SQL aggregates see it. */
  function RootColumn(rows: seq<RawSample>): seq<real> {
    if rows == [] then []
    else
      var last := rows[|rows| - 1].rootUsed;
      RootColumn(rows[..|rows| - 1]) + (if last.Some? then [last.value] else [])
  }

  function ColumnSum(values: seq<real>): real {
    if values == [] then 0.0 else ColumnSum(values[..|values| - 1]) + values[|values| - 1]
  }

  function ColumnMin(values: seq<real>): real
    requires values != []
  {
    var last := values[|values| - 1];
    if |values| == 1 then last else RealMin(ColumnMin(values[..|values| - 1]), last)
  }

  function ColumnMax(values: seq<real>): real
    requires values != []
  {
    var last := values[|values| - 1];
    if |values| == 1 then last else RealMax(ColumnMax(values[..|values| - 1]), last)
  }

  /** `AVG`, `MIN` and `MAX` of one column. */
  function ColumnStat(values: seq<real>): Stat
    requires values != []
  {
    Stat(ColumnSum(values) / (|values| as real), ColumnMin(values), ColumnMax(values))
  }

  function EarliestRow(rows: seq<RawSample>): int
    requires rows != []
  {
    var last := rows[|rows| - 1].capturedAtMs;
    if |rows| == 1 then last else Min(EarliestRow(rows[..|rows| - 1]), last)
  }

  function LatestRow(rows: seq<RawSample>): int
    requires rows != []
  {
    var last := rows[|rows| - 1].capturedAtMs;
    if |rows| == 1 then last else Max(LatestRow(rows[..|rows| - 1]), last)
  }

  /** The one-minute bucket computed from raw rows by one aggregate query. */
  function Rebuild(minuteStartMs: int, rows: seq<RawSample>): TierBucket
    requires rows != []
  {
    var roots := RootColumn(rows);
    TierBucket(minuteStartMs, EarliestRow(rows), LatestRow(rows), |rows|,
               ColumnStat(Column(rows, Cpu)), ColumnStat(Column(rows, Memory)),
               ColumnStat(Column(rows, Swap)), ColumnStat(Column(rows, Load)),
               if roots == [] then None else Some(ColumnStat(roots)))
  }

  // ---------- Promotion ----------

  /** Where a promotion pass loses its connection: it stops before the upsert, or between
    * the upsert and the watermark write, of its `at`-th promotion. */
  datatype PromoteFault = NoFault | UpsertFails(at: nat) | WatermarkFails(at: nat)

  ghost predicate ClockKeys(table: Table) {
    forall k :: k in table ==> InClock(k)
  }

  lemma KeysShrink(table: Table, since: int, oldest: int, later: int)
    requires oldest in KeysFrom(table, since) && since <= oldest < later
    ensures |KeysFrom(table, later)| < |KeysFrom(table, since)|
  {
    SmallerSet(KeysFrom(table, later), KeysFrom(table, since), oldest);
  }

  lemma SmallerSet(a: set<int>, b: set<int>, extra: int)
    requires a <= b && extra in b && extra !in a
    ensures |a| < |b|
  {
    assert a <= b - {extra};
    SubsetSize(a, b - {extra});
  }

  lemma {:induction false} SubsetSize(a: set<int>, b: set<int>)
    requires a <= b
    ensures |a| <= |b|
  {
    if a != {} {
      var x := Pick(a);
      SubsetSize(a - {x}, b - {x});
    }
  }

  predicate Promotes(source: Tier, target: Tier) {
    || (source == L2 && target == L3)
    || (source == L2 && target == L4)
    || (source == L3 && target == L4)
  }

  /** The fixed arguments of one promotion pass. */
  datatype Pass = Pass(source: Tier, target: Tier, nowMs: int, graceMs: int, gate: Option<int>, fault: PromoteFault)

  /** What stops a pass at the oldest source bucket `start`: an unfinished target, or the source's own watermark. */
  predicate Held(p: Pass, start: int)
    requires Promotes(p.source, p.target)
  {
    var targetStart := BucketStartFor(p.target.ResolutionMs(), start);
    || !IsComplete(targetStart, p.target.ResolutionMs(), p.graceMs, p.nowMs)
    || (p.gate.Some? && SatAdd(targetStart, p.target.ResolutionMs()) > p.gate.value)
  }

  /** One turn of the promotion loop. */
  datatype Turn = Stop(left: Ladder) | Skip(until: int) | Wrote(left: Ladder, until: int)

  function NextTurn(l: Ladder, p: Pass, searchFrom: int, promoted: nat): Turn
    requires Promotes(p.source, p.target)
  {
    var oldest := OldestAtOrAfter(l.Rows(p.source), searchFrom);
    if oldest.None? || Held(p, oldest.value) then Stop(l)
    else
      var targetStart := BucketStartFor(p.target.ResolutionMs(), oldest.value);
      var targetEnd := SatAdd(targetStart, p.target.ResolutionMs());
      var bucket := Fold(targetStart, RowsIn(l.Rows(p.source), targetStart, targetEnd));
      if bucket.None? then Skip(targetEnd)
      else if p.fault == UpsertFails(promoted) then Stop(l)
      else
        var upserted := l.WithRows(p.target, l.Rows(p.target)[targetStart := bucket.value]);
        if p.fault == WatermarkFails(promoted) then Stop(upserted)
        else Wrote(upserted.WithFoldedUntil(p.target, Some(targetEnd)), targetEnd)
  }

  /** A turn that goes on leaves the source alone and leaves fewer source buckets to look at. */
  lemma TurnAdvances(l: Ladder, p: Pass, searchFrom: int, promoted: nat)
    requires Promotes(p.source, p.target)
    requires ClockKeys(l.Rows(p.source))
    ensures var turn := NextTurn(l, p, searchFrom, promoted);
            && (turn.Skip? ==> |KeysFrom(l.Rows(p.source), turn.until)| < |KeysFrom(l.Rows(p.source), searchFrom)|)
            && (turn.Wrote? ==>
                  && turn.left.Rows(p.source) == l.Rows(p.source)
                  && |KeysFrom(l.Rows(p.source), turn.until)| < |KeysFrom(l.Rows(p.source), searchFrom)|)
  {
    var oldest := OldestAtOrAfter(l.Rows(p.source), searchFrom);
    if oldest.Some? {
      BucketAround(p.target.ResolutionMs(), oldest.value);
      var targetEnd := SatAdd(BucketStartFor(p.target.ResolutionMs(), oldest.value), p.target.ResolutionMs());
      KeysShrink(l.Rows(p.source), searchFrom, oldest.value, targetEnd);
    }
  }

  /** The promotion loop from `searchFrom` on, with `promoted` targets already written. */
  function PromoteFrom(l: Ladder, p: Pass, searchFrom: int, promoted: nat): (Ladder, nat)
    requires Promotes(p.source, p.target)
    requires ClockKeys(l.Rows(p.source))
    decreases |KeysFrom(l.Rows(p.source), searchFrom)|
  {
    if promoted >= MAX_PROMOTIONS_PER_TICK then (l, promoted)
    else
      TurnAdvances(l, p, searchFrom, promoted);
      match NextTurn(l, p, searchFrom, promoted)
      case Stop(left) => (left, promoted)
      case Skip(until) => PromoteFrom(l, p, until, promoted)
      case Wrote(left, until) => PromoteFrom(left, p, until, promoted + 1)
  }

  function Promote(l: Ladder, p: Pass): (Ladder, nat)
    requires Promotes(p.source, p.target)
    requires ClockKeys(l.Rows(p.source))
  {
    PromoteFrom(l, p, l.FoldedUntil(p.target).UnwrapOr(I64_MIN), 0)
  }

  // ---------- Pruning ----------

  function RequiredWatermark(mark: Option<int>): int { mark.UnwrapOr(I64_MIN) }

  /** A minute goes once it is past its keep days and folded into the next enabled coarser tier. */
  function L2Cutoff(c: Config, nowMs: int, l3Mark: Option<int>, l4Mark: Option<int>): int {
    Min(SatSub(nowMs, KeepMs(c.l2KeepDays)),
        if c.l3.enabled then RequiredWatermark(l3Mark)
        else if c.l4.enabled then RequiredWatermark(l4Mark)
        else I64_MAX)
  }

  function L3Cutoff(c: Config, nowMs: int, l4Mark: Option<int>): int {
    Min(SatSub(nowMs, KeepMs(c.l3.keepDays)), if c.l4.enabled then RequiredWatermark(l4Mark) else I64_MAX)
  }

  function L4Cutoff(c: Config, nowMs: int): int { SatSub(nowMs, KeepMs(c.l4.keepDays)) }

  function L4Expires(c: Config): bool { c.l4.enabled && KeepMs(c.l4.keepDays) > 0 }

  /** `DELETE ... WHERE start + resolution <= cutoff`. */
  function Prune(table: Table, resolutionMs: int, cutoff: int): Table {
    map k | k in table && !(k + resolutionMs <= cutoff) :: table[k]
  }

  /** Expired hours the archive mover has taken; it may stop after any of them. */
  function Drop(table: Table, keys: set<int>, resolutionMs: int, cutoff: int): Table {
    map k | k in table && !(k in keys && k + resolutionMs <= cutoff) :: table[k]
  }

  function PruneRaw(raw: map<int, RawSample>, cutoff: int): map<int, RawSample> {
    map t | t in raw && t >= cutoff :: raw[t]
  }

  // ---------- A maintenance tick ----------

  /** Steps of a tick that fail; each failure is reported and the tick goes on. */
  datatype TickFaults = TickFaults(
    l3FlagLost: bool,
    l4FlagLost: bool,
    l3MarkLost: bool,
    l4MarkLost: bool,
    gateLost: bool,
    promoteL3: PromoteFault,
    promoteL4: PromoteFault,
    pruneFails: set<Tier>)

  const NO_FAULTS := TickFaults(false, false, false, false, false, NoFault, NoFault, {})

  /** The flags of the enabled tiers as a tick leaves them; one it cannot read or write stays as it was. */
  function WithFlags(c: Config, l: Ladder, faults: TickFaults): Ladder {
    l.(l3Enabled := if faults.l3FlagLost then l.l3Enabled else Some(c.l3.enabled),
       l4Enabled := if faults.l4FlagLost then l.l4Enabled else Some(c.l4.enabled))
  }

  /** The L3 pass waits for no other tier. */
  function L3Pass(c: Config, nowMs: int, faults: TickFaults): Pass {
    Pass(L2, L3, nowMs, GraceMs(c.pollIntervalMs), None, faults.promoteL3)
  }

  function PromoteL3(c: Config, l: Ladder, nowMs: int, faults: TickFaults): (Ladder, nat)
    requires ClockKeys(l.l2)
  {
    if c.l3.enabled then Promote(l, L3Pass(c, nowMs, faults)) else (l, 0)
  }

  /** The L3 watermark an L4 promotion waits for; `None` waits for nothing. */
  function L4Gate(c: Config, l: Ladder, faults: TickFaults): Option<int> {
    if c.l3.enabled && !faults.gateLost then l.l3FoldedUntil else None
  }

  function L4Pass(c: Config, l: Ladder, nowMs: int, faults: TickFaults): Pass {
    Pass(if c.l3.enabled then L3 else L2, L4, nowMs, GraceMs(c.pollIntervalMs), L4Gate(c, l, faults), faults.promoteL4)
  }

  function PromoteL4(c: Config, l: Ladder, nowMs: int, faults: TickFaults): (Ladder, nat)
    requires ClockKeys(l.l2) && ClockKeys(l.l3)
  {
    if c.l4.enabled then Promote(l, L4Pass(c, l, nowMs, faults)) else (l, 0)
  }

  /** The deletions of a tick, under the watermarks that were visible when it began. */
  function PruneTiers(c: Config, l: Ladder, nowMs: int, l3Mark: Option<int>, l4Mark: Option<int>,
                      archived: Option<set<int>>, fails: set<Tier>): Ladder {
    var raw := if L1 in fails then l.raw else PruneRaw(l.raw, SatSub(nowMs, KeepMs(c.l1KeepDays)));
    var l2 := if L2 in fails then l.l2 else Prune(l.l2, L2.ResolutionMs(), L2Cutoff(c, nowMs, l3Mark, l4Mark));
    var l3 := if L3 in fails || !c.l3.enabled then l.l3
              else Prune(l.l3, L3.ResolutionMs(), L3Cutoff(c, nowMs, l4Mark));
    var l4 := if L4 in fails || !L4Expires(c) then l.l4
              else if archived.Some? then Drop(l.l4, archived.value, L4.ResolutionMs(), L4Cutoff(c, nowMs))
              else Prune(l.l4, L4.ResolutionMs(), L4Cutoff(c, nowMs));
    l.(raw := raw, l2 := l2, l3 := l3, l4 := l4)
  }

  lemma TurnKeepsClock(l: Ladder, p: Pass, searchFrom: int, promoted: nat)
    requires Promotes(p.source, p.target)
    requires ClockKeys(l.l2) && ClockKeys(l.l3)
    ensures var turn := NextTurn(l, p, searchFrom, promoted);
            !turn.Skip? ==> ClockKeys(turn.left.l2) && ClockKeys(turn.left.l3)
  {
    var oldest := OldestAtOrAfter(l.Rows(p.source), searchFrom);
    if oldest.Some? {
      BucketAround(p.target.ResolutionMs(), oldest.value);
    }
  }

  lemma {:induction false} PromoteFromKeepsClock(l: Ladder, p: Pass, searchFrom: int, promoted: nat)
    requires Promotes(p.source, p.target)
    requires ClockKeys(l.l2) && ClockKeys(l.l3)
    ensures var r := PromoteFrom(l, p, searchFrom, promoted).0; ClockKeys(r.l2) && ClockKeys(r.l3)
    decreases |KeysFrom(l.Rows(p.source), searchFrom)|
  {
    if promoted < MAX_PROMOTIONS_PER_TICK {
      TurnAdvances(l, p, searchFrom, promoted);
      TurnKeepsClock(l, p, searchFrom, promoted);
      match NextTurn(l, p, searchFrom, promoted)
      case Stop(left) =>
      case Skip(until) => PromoteFromKeepsClock(l, p, until, promoted);
      case Wrote(left, until) => PromoteFromKeepsClock(left, p, until, promoted + 1);
    }
  }

  lemma PromoteL3KeepsClock(c: Config, l: Ladder, nowMs: int, faults: TickFaults)
    requires ClockKeys(l.l2) && ClockKeys(l.l3)
    ensures ClockKeys(PromoteL3(c, l, nowMs, faults).0.l2) && ClockKeys(PromoteL3(c, l, nowMs, faults).0.l3)
  {
    if c.l3.enabled {
      PromoteFromKeepsClock(l, L3Pass(c, nowMs, faults), l.FoldedUntil(L3).UnwrapOr(I64_MIN), 0);
    }
  }

  /** One tick: promote L3, promote L4, then prune under the watermarks read before either. */
  function Maintain(c: Config, l: Ladder, nowMs: int, archived: Option<set<int>>, faults: TickFaults): (Ladder, nat, nat)
    requires ClockKeys(l.l2) && ClockKeys(l.l3)
  {
    var l3Mark := if faults.l3MarkLost then None else l.l3FoldedUntil;
    var l4Mark := if faults.l4MarkLost then None else l.l4FoldedUntil;
    PromoteL3KeepsClock(c, WithFlags(c, l, faults), nowMs, faults);
    var (folded3, promoted3) := PromoteL3(c, WithFlags(c, l, faults), nowMs, faults);
    var (folded4, promoted4) := PromoteL4(c, folded3, nowMs, faults);
    (PruneTiers(c, folded4, nowMs, l3Mark, l4Mark, archived, faults.pruneFails), promoted3, promoted4)
  }

  // ---------- A sample insert ----------

  /** Re-fold one ancestor of a late sample: from its source while that still holds the whole range,
    * else by merging the new sample into what the target has. */
  function RefoldOne(l: Ladder, source: Tier, target: Tier, targetStart: int, nowMs: int, sourceKeepDays: int,
                     newSample: TierBucket, newRawRow: bool): Ladder
    requires Promotes(source, target)
  {
    var targetEnd := SatAdd(targetStart, target.ResolutionMs());
    var finer := RowsIn(l.Rows(source), targetStart, targetEnd);
    var holdsWhole := TotalCount(finer) > 0 && targetStart >= SatSub(nowMs, KeepMs(sourceKeepDays));
    if !holdsWhole && !newRawRow then l
    else
      var bucket :=
        if holdsWhole then Fold(targetStart, finer)
        else Fold(targetStart, RowsIn(l.Rows(target), targetStart, targetEnd) + [newSample]);
      if bucket.Some? then l.WithRows(target, l.Rows(target)[targetStart := bucket.value]) else l
  }

  predicate Behind(start: int, mark: Option<int>) {
    mark.Some? && start < mark.value
  }

  function RefoldL3(c: Config, l: Ladder, t: int, nowMs: int, newSample: TierBucket, newRawRow: bool): Ladder {
    var start := BucketStartFor(L3.ResolutionMs(), t);
    if l.l3Enabled.UnwrapOr(true) && Behind(start, l.l3FoldedUntil)
    then RefoldOne(l, L2, L3, start, nowMs, c.l2KeepDays, newSample, newRawRow)
    else l
  }

  function RefoldL4(c: Config, l: Ladder, t: int, nowMs: int, newSample: TierBucket, newRawRow: bool): Ladder {
    var start := BucketStartFor(L4.ResolutionMs(), t);
    if l.l4Enabled.UnwrapOr(true) && Behind(start, l.l4FoldedUntil) then
      if l.l3Enabled.UnwrapOr(true)
      then RefoldOne(l, L3, L4, start, nowMs, c.l3.keepDays, newSample, newRawRow)
      else RefoldOne(l, L2, L4, start, nowMs, c.l2KeepDays, newSample, newRawRow)
    else l
  }

  /** Both watermarks are read before either re-fold; a re-fold moves neither. */
  function RefoldAncestors(c: Config, l: Ladder, t: int, nowMs: int, newSample: TierBucket, newRawRow: bool): Ladder {
    RefoldL4(c, RefoldL3(c, l, t, nowMs, newSample, newRawRow), t, nowMs, newSample, newRawRow)
  }

  /** How an insert treats the minute of its sample. */
  datatype MinuteChange = Kept | Merged | Rebuilt | Refused

  /** The minute table after the raw row is in place, and what was done to the minute. */
  function UpdateMinute(l2: Table, raw: map<int, RawSample>, t: int, newSample: TierBucket, existed: bool):
    (Table, MinuteChange)
  {
    var minute := BucketStartFor(L2.ResolutionMs(), t);
    var minuteEnd := SatAdd(minute, L2.ResolutionMs());
    var existing := RowsIn(l2, minute, minuteEnd);
    var rows := RawIn(raw, minute, minuteEnd);
    if existing != [] && RawIsPartial(existing[0].sampleCount, |rows|) then
      if existed then (l2, Kept)
      else
        var bucket := Fold(minute, [existing[0], newSample]);
        if bucket.None? then (l2, Refused) else (l2[minute := bucket.value], Merged)
    else if rows == [] then (map k | k in l2 && k != minute :: l2[k], Rebuilt)
    else (l2[minute := Rebuild(minute, rows)], Rebuilt)
  }

  /** Store one sample and bring its minute and its already folded ancestors up to date. */
  function InsertSample(c: Config, l: Ladder, sample: RawSample, nowMs: int): (Ladder, MinuteChange) {
    var t := sample.capturedAtMs;
    var existed := t in l.raw;
    var newSample := RawToBucket(sample);
    var stored := l.(raw := l.raw[t := sample]);
    var (l2, change) := UpdateMinute(stored.l2, stored.raw, t, newSample, existed);
    var updated := stored.(l2 := l2);
    if change == Merged || change == Rebuilt
    then (RefoldAncestors(c, updated, t, nowMs, newSample, !existed), change)
    else (updated, change)
  }
}

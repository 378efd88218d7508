/** A maintenance tick keeps the invariant, whatever fails in it, exactly when its L4 pass does not fold past the L3
  * watermark. */
module LadderTick {
  import opened Prelude
  import opened Summaries
  import opened TierFold
  import opened TimeGrid
  import opened LadderModel
  import opened LadderTables
  import opened LadderInvariant
  import opened LadderPromotion

  lemma HorizonsFollowMarks(c: Config, l: Ladder, r: Ladder, clock: int)
    requires Mark(l, L3) <= Mark(r, L3) && Mark(l, L4) <= Mark(r, L4)
    ensures L2Horizon(c, l, clock) <= L2Horizon(c, r, clock)
    ensures L3Horizon(c, l, clock) <= L3Horizon(c, r, clock)
  {
  }

  lemma RawStaysFit(raw: map<int, RawSample>, m: map<int, Summary>, horizon: int, later: int)
    requires horizon <= later && RawFits(raw, m, horizon)
    ensures RawFits(raw, m, later)
  {
  }

  // ---------- Promotions ----------

  lemma L3PassReady(c: Config, l: Ladder, log: Log, now: int, faults: TickFaults)
    requires Valid(c, l, log) && c.l3.enabled
    ensures PassReady(l, L3Pass(c, now, faults), log.recorded, L3Horizon(c, l, log.clock))
  {
    SourceStaysExact(l.l2, log.recorded, 60_000, L2Horizon(c, l, log.clock), Mark(l, L3), I64_MAX);
  }

  lemma PromoteL3Keeps(c: Config, l: Ladder, log: Log, now: int, faults: TickFaults)
    requires Valid(c, l, log)
    ensures ClockKeys(l.l2)
    ensures var r := PromoteL3(c, l, now, faults).0;
            && Valid(c, r, log) && Mark(l, L3) <= Mark(r, L3)
            && r == l.(l3 := r.l3, l3FoldedUntil := r.l3FoldedUntil)
  {
    if c.l3.enabled {
      var p := L3Pass(c, now, faults);
      L3PassReady(c, l, log, now, faults);
      PromoteFromKeeps(l, p, log.recorded, L3Horizon(c, l, log.clock), 0);
      L3PassKept(c, l, log, p, PromoteL3(c, l, now, faults).0);
    }
  }

  lemma L3PassKept(c: Config, l: Ladder, log: Log, p: Pass, r: Ladder)
    requires Valid(c, l, log) && c.l3.enabled
    requires p.source == L2 && p.target == L3
    requires PassSafe(l, p, log.recorded, L3Horizon(c, l, log.clock), 0, r)
    ensures Valid(c, r, log) && Mark(l, L3) <= Mark(r, L3)
    ensures r == l.(l3 := r.l3, l3FoldedUntil := r.l3FoldedUntil)
  {
    HorizonsFollowMarks(c, l, r, log.clock);
    RawStaysFit(l.raw, log.recorded, L2Horizon(c, l, log.clock), L2Horizon(c, r, log.clock));
    SourceStaysExact(l.l2, log.recorded, 60_000, L2Horizon(c, l, log.clock), L2Horizon(c, r, log.clock), I64_MAX);
    hide Exact, RawFits, Shaped, Backed;
  }

  // ---------- The L4 pass and the L3 watermark ----------

  /** The L3 watermark as the source of an L4 pass: with none stored, no five minutes are finished. */
  function KnownGate(c: Config, l: Ladder): Option<int> { if c.l3.enabled then Some(Mark(l, L3)) else None }

  function GatedL4Pass(c: Config, l: Ladder, now: int, faults: TickFaults): Pass {
    L4Pass(c, l, now, faults).(gate := KnownGate(c, l))
  }

  function HourOf(k: int): int { BucketStartFor(3_600_000, k) }

  predicate HourIsOver(k: int, p: Pass) { IsComplete(HourOf(k), 3_600_000, p.graceMs, p.nowMs) }

  /** The hours from `from` on that have five-minute rows and end by `until`. */
  function HoursBy(source: Table, from: int, until: int): set<int> {
    set k | k in source && k >= from && HourOf(k) + 3_600_000 <= until :: HourOf(k)
  }

  /** A pass fails at one of its promotions `from` to `last`. */
  predicate FailsWithin(fault: PromoteFault, from: nat, last: nat) {
    match fault
    case NoFault => false
    case UpsertFails(at) => from <= at <= last
    case WatermarkFails(at) => from <= at <= last
  }

  /** A pass that does not know its gate folds an hour that ends after it: some five-minute row has such an hour, that
    * hour is over, and the hours before it leave the pass budget and connection for it. */
  predicate RunsPast(source: Table, p: Pass, from: int, promoted: nat) {
    var before := |HoursBy(source, from, Limit(p))|;
    && (exists k :: k in source && k >= from && HourOf(k) + 3_600_000 > Limit(p) && HourIsOver(k, p))
    && promoted + before < MAX_PROMOTIONS_PER_TICK
    && !FailsWithin(p.fault, promoted, promoted + before)
  }

  /** With both tiers on and the L3 watermark unknown to it, the L4 pass folds an hour that ends after that watermark. */
  predicate L4Overruns(c: Config, l: Ladder, now: int, faults: TickFaults) {
    && c.l3.enabled && c.l4.enabled && L4Gate(c, l, faults).None?
    && RunsPast(l.l3, GatedL4Pass(c, l, now, faults), Mark(l, L4), 0)
  }

  /** The same for the L4 pass of a whole tick, which comes after the tick's L3 pass. */
  predicate TickOverruns(c: Config, l: Ladder, now: int, faults: TickFaults)
    requires ClockKeys(l.l2)
  {
    L4Overruns(c, PromoteL3(c, WithFlags(c, l, faults), now, faults).0, now, faults)
  }

  lemma L4PassReady(c: Config, l: Ladder, log: Log, now: int, faults: TickFaults)
    requires Valid(c, l, log) && c.l4.enabled
    ensures PassReady(l, GatedL4Pass(c, l, now, faults), log.recorded, L4Horizon(c, log.clock))
  {
    if c.l3.enabled {
      SourceStaysExact(l.l3, log.recorded, 300_000, L3Horizon(c, l, log.clock), Mark(l, L4), Mark(l, L3));
    } else {
      SourceStaysExact(l.l2, log.recorded, 60_000, L2Horizon(c, l, log.clock), Mark(l, L4), I64_MAX);
    }
  }

  /** Hours follow the order of the rows in them. */
  lemma HoursRise(a: int, b: int)
    requires InClock(a) && InClock(b) && a <= b
    ensures HourOf(a) <= HourOf(b)
  {
    BucketAround(3_600_000, a);
    BucketAround(3_600_000, b);
    hide BucketStartFor, Aligned, InClock;
    AlignedBefore(3_600_000, HourOf(a), HourOf(b), b);
  }

  lemma OldestRow(source: Table, from: int, oldest: int)
    requires OldestAtOrAfter(source, from) == Some(oldest)
    ensures oldest in source && oldest >= from
    ensures forall k :: k in source && k >= from ==> oldest <= k
  {
    assert forall k :: k in source && k >= from ==> k in KeysFrom(source, from);
  }

  /** Nothing runs past the gate when the oldest row's hour is not over, or there is no row. */
  lemma NothingDue(source: Table, p: Pass, from: int, promoted: nat)
    requires ClockKeys(source)
    requires var oldest := OldestAtOrAfter(source, from); oldest.Some? ==> !HourIsOver(oldest.value, p)
    ensures !RunsPast(source, p, from, promoted)
  {
    var oldest := OldestAtOrAfter(source, from);
    forall k | k in source && k >= from
      ensures !HourIsOver(k, p)
    {
      assert k in KeysFrom(source, from);
      OldestRow(source, from, oldest.value);
      HoursRise(oldest.value, k);
    }
  }

  /** Folding the oldest row's hour takes exactly that hour off the hours to come. */
  lemma OneHourFewer(source: Table, p: Pass, from: int, promoted: nat, oldest: int)
    requires ClockKeys(source) && Boundary(3_600_000, from)
    requires OldestAtOrAfter(source, from) == Some(oldest)
    requires HourOf(oldest) + 3_600_000 <= Limit(p) && !FailsWithin(p.fault, promoted, promoted)
    ensures RunsPast(source, p, HourOf(oldest) + 3_600_000, promoted + 1) <==> RunsPast(source, p, from, promoted)
  {
    TileOfOldest(source, 3_600_000, from, oldest);
    OldestRow(source, from, oldest);
    hide BucketStartFor, OldestAtOrAfter, ClockKeys, HourIsOver;
    var next := HourOf(oldest) + 3_600_000;
    HoursSplit(source, from, Limit(p), oldest);
    assert forall k :: k in source && k >= from && HourOf(k) + 3_600_000 > Limit(p) ==> k >= next;
  }

  lemma HoursSplit(source: Table, from: int, until: int, oldest: int)
    requires oldest in source && oldest >= from && from <= HourOf(oldest) && HourOf(oldest) + 3_600_000 <= until
    requires ClockKeys(source)
    requires forall k :: k in source && from <= k < HourOf(oldest) + 3_600_000 ==> HourOf(k) == HourOf(oldest)
    ensures |HoursBy(source, from, until)| == |HoursBy(source, HourOf(oldest) + 3_600_000, until)| + 1
  {
    hide HourOf, ClockKeys;
    var start := HourOf(oldest);
    LaterHours(source, start);
    assert HoursBy(source, from, until) == HoursBy(source, start + 3_600_000, until) + {start};
  }

  lemma LaterHours(source: Table, start: int)
    requires ClockKeys(source)
    ensures forall k :: k in source && k >= start + 3_600_000 ==> HourOf(k) != start
  {
    forall k | k in source && k >= start + 3_600_000
      ensures HourOf(k) != start
    {
      BucketAround(3_600_000, k);
    }
  }

  lemma NoHoursBefore(source: Table, p: Pass, from: int, oldest: int)
    requires ClockKeys(source) && OldestAtOrAfter(source, from) == Some(oldest)
    requires HourOf(oldest) + 3_600_000 > Limit(p)
    ensures HoursBy(source, from, Limit(p)) == {}
  {
    OldestRow(source, from, oldest);
    forall k | k in source && k >= from
      ensures HourOf(k) + 3_600_000 > Limit(p)
    {
      HoursRise(oldest, k);
    }
  }

  /** A pass only moves its own watermark, and only forward. */
  lemma {:induction false} MarkOnlyRises(l: Ladder, p: Pass, from: int, promoted: nat)
    requires p.source == L3 && p.target == L4 && ClockKeys(l.l3) && Boundary(3_600_000, from)
    requires l.l4FoldedUntil.Some? && l.l4FoldedUntil.value <= from
    ensures var r := PromoteFrom(l, p, from, promoted).0;
            && r == l.(l4 := r.l4, l4FoldedUntil := r.l4FoldedUntil)
            && r.l4FoldedUntil.Some? && r.l4FoldedUntil.value >= l.l4FoldedUntil.value
    decreases |KeysFrom(l.l3, from)|
  {
    if promoted < MAX_PROMOTIONS_PER_TICK {
      TurnAdvances(l, p, from, promoted);
      hide NextTurn, KeysFrom, ClockKeys, Boundary, FoldTile, BucketStartFor, OldestAtOrAfter;
      match NextTurn(l, p, from, promoted)
      case Stop(left) => StopLeaves(l, p, from, promoted);
      case Skip(until) =>
        SkippedTurn(l, p, from, promoted);
        MarkOnlyRises(l, p, until, promoted);
      case Wrote(left, until) =>
        WrittenTurn(l, p, from, promoted);
        MarkOnlyRises(left, p, until, promoted + 1);
    }
  }

  lemma StopLeaves(l: Ladder, p: Pass, from: int, promoted: nat)
    requires p.source == L3 && p.target == L4 && NextTurn(l, p, from, promoted).Stop?
    ensures var r := NextTurn(l, p, from, promoted).left; r == l.(l4 := r.l4)
  {
    hide Fold, RowsIn, Held, BucketStartFor, OldestAtOrAfter;
  }

  // ---------- A pass that does not know its gate ----------

  ghost predicate Unguarded(l: Ladder, p: Pass, m: map<int, Summary>, horizon: int) {
    p.source == L3 && p.target == L4 && p.gate.Some? && PassReady(l, p, m, horizon)
  }

  /** The hour of the oldest row, and that samples are recorded and stored in it. */
  lemma UngatedHour(l: Ladder, p: Pass, m: map<int, Summary>, horizon: int, oldest: int)
    requires Unguarded(l, p, m, horizon)
    requires OldestAtOrAfter(l.l3, Mark(l, L4)) == Some(oldest)
    ensures var start := HourOf(oldest);
            var bucket := FoldTile(l.l3, 3_600_000, start);
            && Mark(l, L4) <= start && Aligned(3_600_000, start) && InClock(start)
            && SatAdd(start, 3_600_000) == start + 3_600_000
            && bucket.Some? && bucket.value.sampleCount > 0 && Sum(m, start, start + 3_600_000) != Empty
  {
    hide PassReady, Unguarded, ClockKeys, OldestAtOrAfter, InClock, Boundary, Fold, RowsIn, Aligned, Sum, BucketStartFor,
         Limit, Tile, SatAdd;
    var start := HourOf(oldest);
    UnguardedKeys(l, p, m, horizon);
    MarkIsBoundary(l, p, m, horizon);
    OldestRow(l.l3, Mark(l, L4), oldest);
    RowShaped(l, p, m, horizon, oldest);
    BucketAround(3_600_000, oldest);
    TileOfOldest(l.l3, 3_600_000, Mark(l, L4), oldest);
    FoldRange(l.l3, start, start, start + 3_600_000);
    SourceHasTotal(l.l3, start, start + 3_600_000, oldest);
    NextBoundary(3_600_000, start);
    AlignedRefines(300_000, 3_600_000, start + 3_600_000);
    AlignedInside(300_000, oldest, start + 3_600_000);
    SumWidens(m, start, oldest, oldest + 300_000, start + 3_600_000);
  }

  lemma RowShaped(l: Ladder, p: Pass, m: map<int, Summary>, horizon: int, k: int)
    requires Unguarded(l, p, m, horizon) && k in l.l3
    ensures InClock(k) && Aligned(300_000, k) && PositiveTable(l.l3) && Sum(m, k, k + 300_000) != Empty
  {
    hide InClock, Aligned, Sum, Exact;
  }

  /** What the turn of a pass without a gate does with the oldest row's hour once that is over. */
  lemma UngatedTurn(l: Ladder, p: Pass, m: map<int, Summary>, horizon: int, promoted: nat, oldest: int)
    requires Unguarded(l, p, m, horizon)
    requires OldestAtOrAfter(l.l3, Mark(l, L4)) == Some(oldest) && HourIsOver(oldest, p)
    ensures var start := HourOf(oldest);
            var bucket := FoldTile(l.l3, 3_600_000, start);
            && Mark(l, L4) <= start && Aligned(3_600_000, start) && InClock(start)
            && bucket.Some? && bucket.value.sampleCount > 0 && Sum(m, start, start + 3_600_000) != Empty
            && var written := l.(l4 := l.l4[start := bucket.value]);
               NextTurn(l, p.(gate := None), Mark(l, L4), promoted) ==
                 if p.fault == UpsertFails(promoted) then Stop(l)
                 else if p.fault == WatermarkFails(promoted) then Stop(written)
                 else Wrote(written.(l4FoldedUntil := Some(start + 3_600_000)), start + 3_600_000)
  {
    UngatedHour(l, p, m, horizon, oldest);
    hide PassReady, InClock, Aligned, Sum, OldestAtOrAfter, BucketStartFor, Fold, RowsIn, IsComplete, SatAdd;
  }

  lemma UnguardedKeys(l: Ladder, p: Pass, m: map<int, Summary>, horizon: int)
    requires Unguarded(l, p, m, horizon)
    ensures ClockKeys(l.l3)
  {
    SourceKeysInClock(l, p);
  }

  lemma MarkIsBoundary(l: Ladder, p: Pass, m: map<int, Summary>, horizon: int)
    requires Unguarded(l, p, m, horizon)
    ensures Boundary(3_600_000, Mark(l, L4))
  {
    if l.l4FoldedUntil.Some? {
      AlignedRefines(3_600_000, 3_600_000, Mark(l, L4));
    }
  }

  lemma SumWidens(m: map<int, Summary>, lo: int, from: int, to: int, hi: int)
    requires lo <= from <= to <= hi && Sum(m, from, to) != Empty
    ensures Sum(m, lo, hi) != Empty
  {
    SumSplit(m, lo, from, hi);
    SumSplit(m, from, to, hi);
  }

  /** A row written past the gate without its watermark does no harm. */
  lemma StrayIsSafe(l: Ladder, p: Pass, m: map<int, Summary>, horizon: int, promoted: nat, start: int, b: TierBucket)
    requires Unguarded(l, p, m, horizon) && p.fault == WatermarkFails(promoted)
    requires Mark(l, L4) <= start && Aligned(3_600_000, start) && InClock(start)
    requires b.sampleCount > 0 && Sum(m, start, start + 3_600_000) != Empty
    ensures PassSafe(l, p, m, horizon, promoted, l.(l4 := l.l4[start := b]))
  {
    var table := l.l4[start := b];
    hide InClock, Sum;
    WriteAbove(l.l4, m, 3_600_000, horizon, Mark(l, L4), start, b);
    ReadyAgain(l, p, m, horizon, table, l.l4FoldedUntil);
    assert l.WithRows(L4, table).WithFoldedUntil(L4, l.l4FoldedUntil) == l.(l4 := table);
  }

  lemma UnchangedIsSafe(l: Ladder, p: Pass, m: map<int, Summary>, horizon: int, promoted: nat)
    requires PassReady(l, p, m, horizon)
    ensures PassSafe(l, p, m, horizon, promoted, l)
  {
  }

  /** Either such a pass does only what it would do knowing its gate, or it moves its watermark past the gate. */
  ghost predicate GateOutcome(l: Ladder, p: Pass, m: map<int, Summary>, horizon: int, promoted: nat, r: Ladder) {
    && r == l.(l4 := r.l4, l4FoldedUntil := r.l4FoldedUntil)
    && if RunsPast(l.l3, p, Mark(l, L4), promoted) then r.l4FoldedUntil.Some? && Mark(r, L4) > Limit(p)
       else PassSafe(l, p, m, horizon, promoted, r)
  }

  lemma {:induction false} UngatedPass(l: Ladder, p: Pass, m: map<int, Summary>, horizon: int, promoted: nat)
    requires Unguarded(l, p, m, horizon)
    ensures ClockKeys(l.l3)
    ensures GateOutcome(l, p, m, horizon, promoted, PromoteFrom(l, p.(gate := None), Mark(l, L4), promoted).0)
    decreases |KeysFrom(l.l3, Mark(l, L4))|
  {
    hide NextTurn, ClockKeys, KeysFrom, PassReady, PassSafe, RunsPast, HourIsOver, HourOf, GateOutcome, OldestAtOrAfter,
         FoldTile, Sum, InClock, Aligned, Limit;
    UnguardedKeys(l, p, m, horizon);
    var q := p.(gate := None);
    var oldest := OldestAtOrAfter(l.l3, Mark(l, L4));
    if promoted >= MAX_PROMOTIONS_PER_TICK {
      BudgetSpent(l, p, m, horizon, promoted);
    } else if oldest.None? || !HourIsOver(oldest.value, p) {
      NoTurn(l, p, m, horizon, promoted);
    } else {
      TurnAdvances(l, q, Mark(l, L4), promoted);
      UngatedTurn(l, p, m, horizon, promoted, oldest.value);
      if HourOf(oldest.value) + 3_600_000 > Limit(p) {
        PastTurn(l, p, m, horizon, promoted, oldest.value);
      } else {
        GatedTurn(l, p, m, horizon, promoted, oldest.value);
        var turn := NextTurn(l, q, Mark(l, L4), promoted);
        if turn.Wrote? {
          UngatedPass(turn.left, p, m, horizon, promoted + 1);
          AfterGatedTurn(l, p, m, horizon, promoted, oldest.value, PromoteFrom(turn.left, q, turn.until, promoted + 1).0);
        }
      }
    }
  }

  lemma BudgetSpent(l: Ladder, p: Pass, m: map<int, Summary>, horizon: int, promoted: nat)
    requires Unguarded(l, p, m, horizon) && promoted >= MAX_PROMOTIONS_PER_TICK
    ensures GateOutcome(l, p, m, horizon, promoted, l)
  {
    UnchangedIsSafe(l, p, m, horizon, promoted);
    hide PassReady, PassSafe;
  }

  lemma NoTurn(l: Ladder, p: Pass, m: map<int, Summary>, horizon: int, promoted: nat)
    requires Unguarded(l, p, m, horizon)
    requires var oldest := OldestAtOrAfter(l.l3, Mark(l, L4)); oldest.Some? ==> !HourIsOver(oldest.value, p)
    ensures NextTurn(l, p.(gate := None), Mark(l, L4), promoted) == Stop(l)
    ensures GateOutcome(l, p, m, horizon, promoted, l)
  {
    UnguardedKeys(l, p, m, horizon);
    NothingDue(l.l3, p, Mark(l, L4), promoted);
    UnchangedIsSafe(l, p, m, horizon, promoted);
    hide PassReady, PassSafe, RunsPast, ClockKeys, Fold, RowsIn, BucketStartFor, OldestAtOrAfter;
  }

  /** The turn that folds the first hour ending after the gate. */
  lemma PastTurn(l: Ladder, p: Pass, m: map<int, Summary>, horizon: int, promoted: nat, oldest: int)
    requires Unguarded(l, p, m, horizon) && promoted < MAX_PROMOTIONS_PER_TICK
    requires OldestAtOrAfter(l.l3, Mark(l, L4)) == Some(oldest) && HourIsOver(oldest, p)
    requires HourOf(oldest) + 3_600_000 > Limit(p)
    ensures ClockKeys(l.l3)
    ensures GateOutcome(l, p, m, horizon, promoted, PromoteFrom(l, p.(gate := None), Mark(l, L4), promoted).0)
  {
    hide PassReady, PassSafe, ClockKeys, OldestAtOrAfter, NextTurn, HourIsOver, HourOf, HoursBy, KeysFrom, InClock, FoldTile,
         Sum, RunsPast, Boundary, Aligned;
    UnguardedKeys(l, p, m, horizon);
    UngatedTurn(l, p, m, horizon, promoted, oldest);
    UnchangedIsSafe(l, p, m, horizon, promoted);
    PastIsDue(l.l3, p, Mark(l, L4), promoted, oldest);
    var start := HourOf(oldest);
    TurnAdvances(l, p.(gate := None), Mark(l, L4), promoted);
    if p.fault == WatermarkFails(promoted) {
      StrayIsSafe(l, p, m, horizon, promoted, start, FoldTile(l.l3, 3_600_000, start).value);
    } else if p.fault != UpsertFails(promoted) {
      EndIsBoundary(start);
      var turn := NextTurn(l, p.(gate := None), Mark(l, L4), promoted);
      MarkOnlyRises(turn.left, p.(gate := None), turn.until, promoted + 1);
    }
  }

  lemma EndIsBoundary(start: int)
    requires Aligned(3_600_000, start)
    ensures Boundary(3_600_000, start + 3_600_000)
  {
    NextBoundary(3_600_000, start);
  }

  /** With the oldest row's hour over and past the gate, only the budget or a failure keeps the pass from folding it. */
  lemma PastIsDue(source: Table, p: Pass, from: int, promoted: nat, oldest: int)
    requires ClockKeys(source) && OldestAtOrAfter(source, from) == Some(oldest) && HourIsOver(oldest, p)
    requires HourOf(oldest) + 3_600_000 > Limit(p) && promoted < MAX_PROMOTIONS_PER_TICK
    ensures RunsPast(source, p, from, promoted) <==> !FailsWithin(p.fault, promoted, promoted)
  {
    NoHoursBefore(source, p, from, oldest);
    OldestRow(source, from, oldest);
    hide OldestAtOrAfter, HourOf, HourIsOver, HoursBy, ClockKeys;
  }

  /** A turn on an hour that ends by the gate is the turn of the pass that knows it. */
  lemma GatedTurn(l: Ladder, p: Pass, m: map<int, Summary>, horizon: int, promoted: nat, oldest: int)
    requires Unguarded(l, p, m, horizon) && promoted < MAX_PROMOTIONS_PER_TICK
    requires OldestAtOrAfter(l.l3, Mark(l, L4)) == Some(oldest) && HourIsOver(oldest, p)
    requires HourOf(oldest) + 3_600_000 <= Limit(p)
    ensures var turn := NextTurn(l, p.(gate := None), Mark(l, L4), promoted);
            && TurnSafe(l, p, m, horizon, promoted, turn)
            && (turn.Wrote? ==> Unguarded(turn.left, p, m, horizon))
            && (turn.Stop? ==> GateOutcome(l, p, m, horizon, promoted, turn.left))
  {
    TurnKeeps(l, p, m, horizon, promoted);
    SameTurn(l, p, promoted, oldest);
    UngatedTurn(l, p, m, horizon, promoted, oldest);
    var turn := NextTurn(l, p.(gate := None), Mark(l, L4), promoted);
    hide PassReady, ClockKeys, OldestAtOrAfter, NextTurn, HourIsOver, HoursBy, FoldTile, HourOf, InClock, Sum;
    if turn.Stop? {
      assert FailsWithin(p.fault, promoted, promoted);
      assert !RunsPast(l.l3, p, Mark(l, L4), promoted);
    }
  }

  lemma SameTurn(l: Ladder, p: Pass, promoted: nat, oldest: int)
    requires p.source == L3 && p.target == L4 && ClockKeys(l.l3)
    requires OldestAtOrAfter(l.l3, Mark(l, L4)) == Some(oldest)
    requires HourOf(oldest) + 3_600_000 <= Limit(p)
    ensures NextTurn(l, p, Mark(l, L4), promoted) == NextTurn(l, p.(gate := None), Mark(l, L4), promoted)
  {
    OldestRow(l.l3, Mark(l, L4), oldest);
    BucketAround(3_600_000, oldest);
    hide Fold, RowsIn, OldestAtOrAfter, BucketStartFor, IsComplete;
  }

  lemma AfterGatedTurn(l: Ladder, p: Pass, m: map<int, Summary>, horizon: int, promoted: nat, oldest: int, r: Ladder)
    requires Unguarded(l, p, m, horizon) && promoted < MAX_PROMOTIONS_PER_TICK
    requires OldestAtOrAfter(l.l3, Mark(l, L4)) == Some(oldest) && HourIsOver(oldest, p)
    requires HourOf(oldest) + 3_600_000 <= Limit(p)
    requires var turn := NextTurn(l, p.(gate := None), Mark(l, L4), promoted);
             && turn.Wrote? && TurnSafe(l, p, m, horizon, promoted, turn)
             && GateOutcome(turn.left, p, m, horizon, promoted + 1, r)
    ensures GateOutcome(l, p, m, horizon, promoted, r)
  {
    var turn := NextTurn(l, p.(gate := None), Mark(l, L4), promoted);
    UnguardedKeys(l, p, m, horizon);
    MarkIsBoundary(l, p, m, horizon);
    UngatedTurn(l, p, m, horizon, promoted, oldest);
    hide PassReady, ClockKeys, OldestAtOrAfter, NextTurn, HourIsOver, FoldTile, HourOf, InClock, Sum, RunsPast, Boundary,
         PassSafe, TurnSafe;
    OneHourFewer(l.l3, p, Mark(l, L4), promoted, oldest);
    if !RunsPast(l.l3, p, Mark(l, L4), promoted) {
      SafeAfterWrite(l, p, m, horizon, promoted, turn, r);
    }
  }

  /** The L4 part of a tick keeps the invariant if and only if it does not fold past the L3 watermark. When it does, the
    * L4 watermark ends up past L3's. */
  lemma PromoteL4Keeps(c: Config, l: Ladder, log: Log, now: int, faults: TickFaults)
    requires Valid(c, l, log)
    ensures ClockKeys(l.l2) && ClockKeys(l.l3)
    ensures var r := PromoteL4(c, l, now, faults).0;
            && (Valid(c, r, log) <==> !L4Overruns(c, l, now, faults))
            && (MarksNest(c, r) <==> !L4Overruns(c, l, now, faults))
            && (Valid(c, r, log) ==> Mark(l, L4) <= Mark(r, L4))
            && r == l.(l4 := r.l4, l4FoldedUntil := r.l4FoldedUntil)
  {
    if c.l4.enabled {
      var p, m, horizon := GatedL4Pass(c, l, now, faults), log.recorded, L4Horizon(c, log.clock);
      var r := PromoteL4(c, l, now, faults).0;
      L4PassReady(c, l, log, now, faults);
      if L4Pass(c, l, now, faults) == p {
        PromoteFromKeeps(l, p, m, horizon, 0);
        L4PassKept(c, l, log, p, r);
      } else {
        UngatedPass(l, p, m, horizon, 0);
        if !L4Overruns(c, l, now, faults) {
          L4PassKept(c, l, log, p, r);
        }
      }
    }
  }

  lemma L4PassKept(c: Config, l: Ladder, log: Log, p: Pass, r: Ladder)
    requires Valid(c, l, log) && c.l4.enabled
    requires p.target == L4 && p.source == if c.l3.enabled then L3 else L2
    requires c.l3.enabled ==> Limit(p) == Mark(l, L3)
    requires PassSafe(l, p, log.recorded, L4Horizon(c, log.clock), 0, r)
    ensures Valid(c, r, log) && Mark(l, L4) <= Mark(r, L4)
    ensures r == l.(l4 := r.l4, l4FoldedUntil := r.l4FoldedUntil)
  {
    HorizonsFollowMarks(c, l, r, log.clock);
    RawStaysFit(l.raw, log.recorded, L2Horizon(c, l, log.clock), L2Horizon(c, r, log.clock));
    SourceStaysExact(l.l2, log.recorded, 60_000, L2Horizon(c, l, log.clock), L2Horizon(c, r, log.clock), I64_MAX);
    SourceStaysExact(l.l3, log.recorded, 300_000, L3Horizon(c, l, log.clock), L3Horizon(c, r, log.clock), Mark(l, L3));
    hide Exact, RawFits, Shaped, Backed;
  }

  // ---------- Pruning ----------

  lemma PruneKeepsExact(table: Table, m: map<int, Summary>, w: int, cutoff: int, horizon: int, until: int)
    requires w > 0 && cutoff <= horizon
    requires Exact(table, m, w, horizon, until)
    ensures Exact(Prune(table, w, cutoff), m, w, horizon, until)
  {
  }

  lemma DropKeepsExact(table: Table, keys: set<int>, m: map<int, Summary>, w: int, cutoff: int, horizon: int, until: int)
    requires w > 0 && cutoff <= horizon
    requires Exact(table, m, w, horizon, until)
    ensures Exact(Drop(table, keys, w, cutoff), m, w, horizon, until)
  {
  }

  /** Deleting raw rows either leaves a minute alone or leaves it with provably fewer rows than samples. */
  lemma PruneRawFits(raw: map<int, RawSample>, m: map<int, Summary>, cutoff: int, horizon: int)
    requires RawFits(raw, m, horizon)
    ensures RawFits(PruneRaw(raw, cutoff), m, horizon)
  {
    forall minute | Aligned(60_000, minute) && InClock(minute) && horizon < minute + 60_000
      ensures MinuteFits(PruneRaw(raw, cutoff), m, minute)
    {
      FewerRows(raw, PruneRaw(raw, cutoff), minute, minute + 60_000);
      if AgreeOn(RawAbstract(raw), m, minute, minute + 60_000) {
        SumAgrees(RawAbstract(raw), m, minute, minute + 60_000);
      }
    }
  }

  /** Fewer rows in a range, unless nothing in the range changed. */
  lemma {:induction false} FewerRows(raw: map<int, RawSample>, kept: map<int, RawSample>, lo: int, hi: int)
    requires forall t :: t in kept ==> t in raw && kept[t] == raw[t]
    ensures Sum(RawAbstract(kept), lo, hi).Count() <= Sum(RawAbstract(raw), lo, hi).Count()
    ensures || Sum(RawAbstract(kept), lo, hi).Count() < Sum(RawAbstract(raw), lo, hi).Count()
            || AgreeOn(RawAbstract(kept), RawAbstract(raw), lo, hi)
    decreases hi - lo
  {
    if lo < hi {
      FewerRows(raw, kept, lo, hi - 1);
    }
  }

  lemma PruneTiersKeeps(c: Config, l: Ladder, log: Log, l3Mark: Option<int>, l4Mark: Option<int>,
                        archived: Option<set<int>>, fails: set<Tier>)
    requires Valid(c, l, log)
    requires RequiredWatermark(l3Mark) <= Mark(l, L3) && RequiredWatermark(l4Mark) <= Mark(l, L4)
    ensures Valid(c, PruneTiers(c, l, log.clock, l3Mark, l4Mark, archived, fails), log)
  {
    PrunedShape(c, l, log.clock, l3Mark, l4Mark, archived, fails);
    PrunedBacked(c, l, log.recorded, log.clock, l3Mark, l4Mark, archived, fails);
    PrunedRaw(c, l, log, l3Mark, l4Mark, archived, fails);
    PrunedExact(c, l, log, l3Mark, l4Mark, archived, fails);
    PrunedSameMarks(c, l, log.clock, l3Mark, l4Mark, archived, fails);
    hide Exact, RawFits, RawShaped, TiersBacked, WellFormed, PruneTiers, L2Horizon, L3Horizon, L4Horizon;
  }

  lemma PrunedSameMarks(c: Config, l: Ladder, now: int, l3Mark: Option<int>, l4Mark: Option<int>,
                        archived: Option<set<int>>, fails: set<Tier>)
    ensures var r := PruneTiers(c, l, now, l3Mark, l4Mark, archived, fails);
            && L2Horizon(c, r, now) == L2Horizon(c, l, now) && L3Horizon(c, r, now) == L3Horizon(c, l, now)
            && r.l3FoldedUntil == l.l3FoldedUntil && r.l4FoldedUntil == l.l4FoldedUntil
  {
    hide L2Cutoff, L3Cutoff, L4Cutoff, Prune, Drop;
  }

  lemma PrunedRaw(c: Config, l: Ladder, log: Log, l3Mark: Option<int>, l4Mark: Option<int>,
                  archived: Option<set<int>>, fails: set<Tier>)
    requires Valid(c, l, log)
    ensures var r := PruneTiers(c, l, log.clock, l3Mark, l4Mark, archived, fails);
            RawShaped(r.raw, log.recorded) && RawFits(r.raw, log.recorded, L2Horizon(c, l, log.clock))
  {
    PruneRawFits(l.raw, log.recorded, SatSub(log.clock, KeepMs(c.l1KeepDays)), L2Horizon(c, l, log.clock));
    hide RawFits, L2Cutoff, L3Cutoff, L4Cutoff, Prune, Drop, Exact, WellFormed, TiersBacked;
  }

  lemma PrunedExact(c: Config, l: Ladder, log: Log, l3Mark: Option<int>, l4Mark: Option<int>,
                    archived: Option<set<int>>, fails: set<Tier>)
    requires TiersExact(c, l, log)
    requires RequiredWatermark(l3Mark) <= Mark(l, L3) && RequiredWatermark(l4Mark) <= Mark(l, L4)
    ensures var r := PruneTiers(c, l, log.clock, l3Mark, l4Mark, archived, fails);
            && Exact(r.l2, log.recorded, 60_000, L2Horizon(c, l, log.clock), I64_MAX)
            && Exact(r.l3, log.recorded, 300_000, L3Horizon(c, l, log.clock), RequiredWatermark(l.l3FoldedUntil))
            && Exact(r.l4, log.recorded, 3_600_000, L4Horizon(c, log.clock), RequiredWatermark(l.l4FoldedUntil))
  {
    var m, now := log.recorded, log.clock;
    PruneKeepsExact(l.l2, m, 60_000, L2Cutoff(c, now, l3Mark, l4Mark), L2Horizon(c, l, now), I64_MAX);
    PruneKeepsExact(l.l3, m, 300_000, L3Cutoff(c, now, l4Mark), L3Horizon(c, l, now), Mark(l, L3));
    if L4Expires(c) {
      PruneKeepsExact(l.l4, m, 3_600_000, L4Cutoff(c, now), L4Horizon(c, now), Mark(l, L4));
      DropKeepsExact(l.l4, archived.UnwrapOr({}), m, 3_600_000, L4Cutoff(c, now), L4Horizon(c, now), Mark(l, L4));
    }
    hide Exact, L2Cutoff, L3Cutoff, L4Cutoff, Prune, Drop;
  }

  lemma PrunedBacked(c: Config, l: Ladder, m: map<int, Summary>, now: int, l3Mark: Option<int>, l4Mark: Option<int>,
                     archived: Option<set<int>>, fails: set<Tier>)
    requires TiersBacked(l, m)
    ensures TiersBacked(PruneTiers(c, l, now, l3Mark, l4Mark, archived, fails), m)
  {
    hide L2Cutoff, L3Cutoff, L4Cutoff;
  }

  lemma PrunedShape(c: Config, l: Ladder, now: int, l3Mark: Option<int>, l4Mark: Option<int>,
                    archived: Option<set<int>>, fails: set<Tier>)
    requires WellFormed(c, l)
    ensures WellFormed(c, PruneTiers(c, l, now, l3Mark, l4Mark, archived, fails))
  {
    hide L2Cutoff, L3Cutoff, L4Cutoff;
  }

  // ---------- The whole tick ----------

  /** A tick keeps the invariant at its own clock reading, whichever of its steps fail, if and only if its L4 pass does
    * not fold past the L3 watermark. */
  lemma TickKeeps(c: Config, l: Ladder, log: Log, now: int, archived: Option<set<int>>, faults: TickFaults)
    requires Valid(c, l, log) && log.clock <= now
    ensures ClockKeys(l.l2) && ClockKeys(l.l3)
    ensures Valid(c, Maintain(c, l, now, archived, faults).0, log.(clock := now)) <==> !TickOverruns(c, l, now, faults)
  {
    hide Valid, PruneTiers, PromoteL3, PromoteL4, ClockKeys, L4Overruns, WithFlags, MarksNest;
    var later := log.(clock := now);
    TimePasses(c, l, log, now);
    FlagsKeep(c, l, later, faults);
    var flagged := WithFlags(c, l, faults);
    PromoteL3Keeps(c, flagged, later, now, faults);
    var folded3 := PromoteL3(c, flagged, now, faults).0;
    PromoteL4Keeps(c, folded3, later, now, faults);
    var folded4 := PromoteL4(c, folded3, now, faults).0;
    MarkAtLeastMin(c, flagged, later);
    var l3Mark := if faults.l3MarkLost then None else l.l3FoldedUntil;
    var l4Mark := if faults.l4MarkLost then None else l.l4FoldedUntil;
    if L4Overruns(c, folded3, now, faults) {
      OverrunStays(c, folded4, later, l3Mark, l4Mark, archived, faults.pruneFails);
    } else {
      PruneTiersKeeps(c, folded4, later, l3Mark, l4Mark, archived, faults.pruneFails);
    }
  }

  lemma OverrunStays(c: Config, l: Ladder, log: Log, l3Mark: Option<int>, l4Mark: Option<int>,
                     archived: Option<set<int>>, fails: set<Tier>)
    requires !MarksNest(c, l)
    ensures !Valid(c, PruneTiers(c, l, log.clock, l3Mark, l4Mark, archived, fails), log)
  {
    PrunedSameMarks(c, l, log.clock, l3Mark, l4Mark, archived, fails);
    hide PruneTiers, TiersExact, TiersBacked, RawFits;
  }

  /** A tick that reads the L3 watermark, and has one to read unless no five minutes are stored or stored by this very
    * tick without it, does not fold past it. */
  lemma KnownGateHolds(c: Config, l: Ladder, log: Log, now: int, faults: TickFaults)
    requires Valid(c, l, log)
    requires !faults.gateLost
    requires l.l3FoldedUntil.None? ==> l.l3 == map[] && faults.promoteL3 != WatermarkFails(0)
    ensures ClockKeys(l.l2) && !TickOverruns(c, l, now, faults)
  {
    FlagsKeep(c, l, log, faults);
    var flagged := WithFlags(c, l, faults);
    if c.l3.enabled {
      L3PassReady(c, flagged, log, now, faults);
      PromoteFromKeeps(flagged, L3Pass(c, now, faults), log.recorded, L3Horizon(c, flagged, log.clock), 0);
      hide Valid, PassReady, OnlyTarget, PromoteFrom, HoursBy;
      assert PassSafe(flagged, L3Pass(c, now, faults), log.recorded, L3Horizon(c, flagged, log.clock), 0,
                      PromoteL3(c, flagged, now, faults).0);
    }
  }

  lemma FlagsKeep(c: Config, l: Ladder, log: Log, faults: TickFaults)
    requires Valid(c, l, log)
    ensures Valid(c, WithFlags(c, l, faults), log)
    ensures var r := WithFlags(c, l, faults);
            && r == l.(l3Enabled := r.l3Enabled, l4Enabled := r.l4Enabled)
            && (ClockKeys(l.l2) && ClockKeys(l.l3))
  {
    hide Exact, RawFits, Backed, L2Cutoff, L3Cutoff;
  }

  lemma MarkAtLeastMin(c: Config, l: Ladder, log: Log)
    requires Valid(c, l, log)
    ensures I64_MIN <= Mark(l, L3) && I64_MIN <= Mark(l, L4)
  {
  }

  // ---------- Nothing is pruned before it is folded ----------

  /** Whatever a tick deletes had been folded before the tick began, for every state and every failure in it: the
    * watermark the deletion rests on is one that was stored at the start. No watermark, no deletion. */
  lemma NothingPrunedUnfolded(c: Config, l: Ladder, now: int, archived: Option<set<int>>, faults: TickFaults, k: int)
    requires ClockKeys(l.l2) && ClockKeys(l.l3)
    ensures var r := Maintain(c, l, now, archived, faults).0;
            && (k in l.l2 && k !in r.l2 && c.l3.enabled ==>
                  l.l3FoldedUntil.Some? && k + 60_000 <= l.l3FoldedUntil.value)
            && (k in l.l2 && k !in r.l2 && !c.l3.enabled && c.l4.enabled ==>
                  l.l4FoldedUntil.Some? && k + 60_000 <= l.l4FoldedUntil.value)
            && (k in l.l3 && k !in r.l3 && c.l4.enabled ==>
                  l.l4FoldedUntil.Some? && k + 300_000 <= l.l4FoldedUntil.value)
  {
    hide PromoteL3, PromoteL4, ClockKeys, PruneTiers, WithFlags, InClock;
    var flagged := WithFlags(c, l, faults);
    FlagsLeaveRows(c, l, faults);
    PromoteL3KeepsClock(c, flagged, now, faults);
    var folded3 := PromoteL3(c, flagged, now, faults).0;
    L3PassKeepsRows(c, flagged, now, faults);
    L4PassKeepsRows(c, folded3, now, faults);
    var folded4 := PromoteL4(c, folded3, now, faults).0;
    if k in l.l2 || k in l.l3 {
      TableKeyBound(l, k);
      PruneRestsOnMarks(c, folded4, now, if faults.l3MarkLost then None else l.l3FoldedUntil,
                        if faults.l4MarkLost then None else l.l4FoldedUntil, archived, faults.pruneFails, k);
    }
  }

  /** The tile of `w` around `k` is not empty and stands for exactly the samples recorded in it. */
  ghost predicate StandsFor(table: Table, m: map<int, Summary>, w: int, k: int)
    requires w > 0
  {
    var start := BucketStartFor(w, k);
    Tile(table, start) == Sum(m, start, start + w) && Sum(m, start, start + w) != Empty
  }

  /** A row behind a watermark lies in a tile that is whole behind it. */
  lemma BehindIsExact(table: Table, m: map<int, Summary>, w: int, horizon: int, until: int, k: int, fine: int)
    requires Coarse(w) && Coarse(fine) && fine <= w && Aligned(fine, k) && InClock(k) && Aligned(w, until)
    requires k + fine <= until && Exact(table, m, w, horizon, until)
    requires Sum(m, k, k + fine) != Empty
    requires BucketStartFor(w, k) + w > horizon
    ensures StandsFor(table, m, w, k)
  {
    hide InClock, BucketStartFor, Sum, Aligned;
    BucketAround(w, k);
    var start := BucketStartFor(w, k);
    AlignedInside(w, start, until);
    NextBoundary(w, start);
    AlignedRefines(fine, w, start + w);
    AlignedInside(fine, k, start + w);
    SumWidens(m, start, k, k + fine, start + w);
  }

  /** When a tick deletes a row, the coarser bucket around it, unless expired itself, stands for all of its samples. */
  lemma DeletedIsStillCounted(c: Config, l: Ladder, log: Log, now: int, archived: Option<set<int>>, faults: TickFaults,
                              k: int)
    requires Valid(c, l, log) && log.clock <= now
    requires ClockKeys(l.l2) && ClockKeys(l.l3) && !TickOverruns(c, l, now, faults)
    ensures var r, m := Maintain(c, l, now, archived, faults).0, log.recorded;
            && (k in l.l2 && k !in r.l2 && c.l3.enabled && BucketStartFor(300_000, k) + 300_000 > L3Horizon(c, r, now) ==>
                  StandsFor(r.l3, m, 300_000, k))
            && ((k in l.l2 && k !in r.l2 && !c.l3.enabled) || (k in l.l3 && k !in r.l3) ==>
                  c.l4.enabled && HourOf(k) + 3_600_000 > L4Horizon(c, now) ==> StandsFor(r.l4, m, 3_600_000, k))
  {
    hide Maintain, BucketStartFor, InClock, TickOverruns, L3Horizon, L4Horizon, StandsFor, RawFits, RawShaped, Sum, Aligned;
    var r := Maintain(c, l, now, archived, faults).0;
    TickKeeps(c, l, log, now, archived, faults);
    NothingPrunedUnfolded(c, l, now, archived, faults, k);
    TickRaisesMarks(c, l, log, now, archived, faults);
    TickEnds(c, r, log.(clock := now));
    if k in l.l2 && k !in r.l2 {
      RowKnown(l.l2, log.recorded, 60_000, k);
      if c.l3.enabled && BucketStartFor(300_000, k) + 300_000 > L3Horizon(c, r, now) {
        BehindIsExact(r.l3, log.recorded, 300_000, L3Horizon(c, r, now), Mark(r, L3), k, 60_000);
      }
      if !c.l3.enabled && c.l4.enabled && HourOf(k) + 3_600_000 > L4Horizon(c, now) {
        BehindIsExact(r.l4, log.recorded, 3_600_000, L4Horizon(c, now), Mark(r, L4), k, 60_000);
      }
    }
    if k in l.l3 && k !in r.l3 && c.l4.enabled && HourOf(k) + 3_600_000 > L4Horizon(c, now) {
      RowKnown(l.l3, log.recorded, 300_000, k);
      BehindIsExact(r.l4, log.recorded, 3_600_000, L4Horizon(c, now), Mark(r, L4), k, 300_000);
    }
  }

  lemma RowKnown(table: Table, m: map<int, Summary>, w: int, k: int)
    requires w > 0 && Shaped(table, w) && Backed(table, m, w) && k in table
    ensures Aligned(w, k) && InClock(k) && Sum(m, k, k + w) != Empty
  {
  }

  /** What the invariant says of the coarser tiers. */
  lemma TickEnds(c: Config, r: Ladder, log: Log)
    requires Valid(c, r, log)
    ensures Exact(r.l3, log.recorded, 300_000, L3Horizon(c, r, log.clock), Mark(r, L3))
    ensures Exact(r.l4, log.recorded, 3_600_000, L4Horizon(c, log.clock), Mark(r, L4))
    ensures r.l3FoldedUntil.Some? ==> Aligned(300_000, Mark(r, L3))
    ensures r.l4FoldedUntil.Some? ==> Aligned(3_600_000, Mark(r, L4))
  {
    hide Exact, RawFits, Aligned;
  }

  lemma MarkFloor(c: Config, l: Ladder, log: Log)
    requires Valid(c, l, log)
    ensures l.l3FoldedUntil.Some? ==> l.l3FoldedUntil.value > I64_MIN
    ensures l.l4FoldedUntil.Some? ==> l.l4FoldedUntil.value > I64_MIN
  {
    hide RawFits, TiersExact, TiersBacked, Shaped;
  }

  lemma TickRaisesMarks(c: Config, l: Ladder, log: Log, now: int, archived: Option<set<int>>, faults: TickFaults)
    requires Valid(c, l, log) && log.clock <= now
    requires ClockKeys(l.l2) && ClockKeys(l.l3) && !TickOverruns(c, l, now, faults)
    ensures var r := Maintain(c, l, now, archived, faults).0;
            && (l.l3FoldedUntil.Some? ==> r.l3FoldedUntil.Some? && l.l3FoldedUntil.value <= r.l3FoldedUntil.value)
            && (l.l4FoldedUntil.Some? ==> r.l4FoldedUntil.Some? && l.l4FoldedUntil.value <= r.l4FoldedUntil.value)
  {
    var later := log.(clock := now);
    TimePasses(c, l, log, now);
    FlagsKeep(c, l, later, faults);
    var flagged := WithFlags(c, l, faults);
    PromoteL3Keeps(c, flagged, later, now, faults);
    var folded3 := PromoteL3(c, flagged, now, faults).0;
    PromoteL4Keeps(c, folded3, later, now, faults);
    MarkFloor(c, flagged, later);
    var folded4 := PromoteL4(c, folded3, now, faults).0;
    PrunedSameMarks(c, folded4, now, if faults.l3MarkLost then None else l.l3FoldedUntil,
                    if faults.l4MarkLost then None else l.l4FoldedUntil, archived, faults.pruneFails);
    hide Valid, PruneTiers, PromoteL3, PromoteL4, ClockKeys, L4Overruns, MarksNest;
  }

  lemma FlagsLeaveRows(c: Config, l: Ladder, faults: TickFaults)
    ensures WithFlags(c, l, faults).l2 == l.l2 && WithFlags(c, l, faults).l3 == l.l3
  {
  }

  lemma TableKeyBound(l: Ladder, k: int)
    requires ClockKeys(l.l2) && ClockKeys(l.l3)
    requires k in l.l2 || k in l.l3
    ensures I64_MIN <= k
  {
    FloorAround(HOUR_MS, k);
  }

  /** A deletion needs the watermark it was given to have passed the bucket. */
  lemma PruneRestsOnMarks(c: Config, l: Ladder, now: int, l3Mark: Option<int>, l4Mark: Option<int>,
                          archived: Option<set<int>>, fails: set<Tier>, k: int)
    requires I64_MIN <= k
    ensures var r := PruneTiers(c, l, now, l3Mark, l4Mark, archived, fails);
            && (k in l.l2 && k !in r.l2 && c.l3.enabled ==> l3Mark.Some? && k + 60_000 <= l3Mark.value)
            && (k in l.l2 && k !in r.l2 && !c.l3.enabled && c.l4.enabled ==>
                  l4Mark.Some? && k + 60_000 <= l4Mark.value)
            && (k in l.l3 && k !in r.l3 && c.l4.enabled ==> l4Mark.Some? && k + 300_000 <= l4Mark.value)
  {
  }

  lemma {:induction false} PassKeepsRows(l: Ladder, p: Pass, from: int, promoted: nat)
    requires Promotes(p.source, p.target) && ClockKeys(l.Rows(p.source))
    ensures var r := PromoteFrom(l, p, from, promoted).0;
            r.l2 == l.l2 && l.l3.Keys <= r.l3.Keys && (p.target == L4 ==> r.l3 == l.l3)
    decreases |KeysFrom(l.Rows(p.source), from)|
  {
    if promoted < MAX_PROMOTIONS_PER_TICK {
      TurnAdvances(l, p, from, promoted);
      TurnKeepsRows(l, p, from, promoted);
      hide NextTurn, KeysFrom, ClockKeys;
      match NextTurn(l, p, from, promoted)
      case Stop(left) =>
      case Skip(until) => PassKeepsRows(l, p, until, promoted);
      case Wrote(left, until) => PassKeepsRows(left, p, until, promoted + 1);
    }
  }

  lemma TurnKeepsRows(l: Ladder, p: Pass, from: int, promoted: nat)
    requires Promotes(p.source, p.target) && ClockKeys(l.Rows(p.source))
    ensures var turn := NextTurn(l, p, from, promoted);
            !turn.Skip? ==>
              && turn.left.l2 == l.l2 && l.l3.Keys <= turn.left.l3.Keys && (p.target == L4 ==> turn.left.l3 == l.l3)
              && ClockKeys(turn.left.Rows(p.source))
  {
    hide Fold, RowsIn, Held, BucketStartFor;
  }

  lemma L3PassKeepsRows(c: Config, l: Ladder, now: int, faults: TickFaults)
    requires ClockKeys(l.l2)
    ensures var r := PromoteL3(c, l, now, faults).0;
            r.l2 == l.l2 && l.l3.Keys <= r.l3.Keys
  {
    hide PromoteFrom, ClockKeys;
    if c.l3.enabled {
      PassKeepsRows(l, L3Pass(c, now, faults), l.FoldedUntil(L3).UnwrapOr(I64_MIN), 0);
    }
  }

  lemma L4PassKeepsRows(c: Config, l: Ladder, now: int, faults: TickFaults)
    requires ClockKeys(l.l2) && ClockKeys(l.l3)
    ensures var r := PromoteL4(c, l, now, faults).0; r.l2 == l.l2 && r.l3 == l.l3
  {
    hide PromoteFrom, ClockKeys;
    if c.l4.enabled {
      PassKeepsRows(l, L4Pass(c, l, now, faults), l.FoldedUntil(L4).UnwrapOr(I64_MIN), 0);
    }
  }
}

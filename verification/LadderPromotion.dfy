/** What a promotion pass does: bounded, exact, and safe for the invariant. */
module LadderPromotion {
  import opened Prelude
  import opened Summaries
  import opened TierFold
  import opened TimeGrid
  import opened LadderModel
  import opened LadderTables
  import opened LadderInvariant

  function Mark(l: Ladder, tier: Tier): int { RequiredWatermark(l.FoldedUntil(tier)) }

  /** The last time a pass may fold up to. */
  function Limit(p: Pass): int { p.gate.UnwrapOr(I64_MAX) }

  /** What a pass needs of the tables it works on. */
  ghost predicate PassReady(l: Ladder, p: Pass, m: map<int, Summary>, horizon: int) {
    && Promotes(p.source, p.target)
    && Shaped(l.Rows(p.source), p.source.ResolutionMs())
    && Shaped(l.Rows(p.target), p.target.ResolutionMs())
    && MarkShaped(l.FoldedUntil(p.target), p.target.ResolutionMs(), true)
    && Backed(l.Rows(p.source), m, p.source.ResolutionMs())
    && Backed(l.Rows(p.target), m, p.target.ResolutionMs())
    && Exact(l.Rows(p.source), m, p.source.ResolutionMs(), Mark(l, p.target), Limit(p))
    && Exact(l.Rows(p.target), m, p.target.ResolutionMs(), horizon, Mark(l, p.target))
  }

  /** The pass touches only the target table and its watermark, which never goes back. */
  ghost predicate OnlyTarget(l: Ladder, r: Ladder, p: Pass) {
    && r == l.WithRows(p.target, r.Rows(p.target)).WithFoldedUntil(p.target, r.FoldedUntil(p.target))
    && (l.FoldedUntil(p.target).Some? ==> r.FoldedUntil(p.target).Some?)
    && Mark(l, p.target) <= Mark(r, p.target)
    && (r.FoldedUntil(p.target) == l.FoldedUntil(p.target) || Mark(r, p.target) <= Limit(p))
  }

  lemma SourceKeysInClock(l: Ladder, p: Pass)
    requires Promotes(p.source, p.target)
    requires Shaped(l.Rows(p.source), p.source.ResolutionMs())
    ensures ClockKeys(l.Rows(p.source))
  {
  }

  /** What readiness says of the source, spelled out. */
  lemma SourceReady(l: Ladder, p: Pass, m: map<int, Summary>, horizon: int)
    requires PassReady(l, p, m, horizon)
    ensures Coarse(p.source.ResolutionMs()) && Coarse(p.target.ResolutionMs())
    ensures p.source.ResolutionMs() <= p.target.ResolutionMs()
    ensures Shaped(l.Rows(p.source), p.source.ResolutionMs()) && PositiveTable(l.Rows(p.source))
    ensures ClockKeys(l.Rows(p.source))
    ensures Exact(l.Rows(p.source), m, p.source.ResolutionMs(), Mark(l, p.target), Limit(p))
    ensures l.FoldedUntil(p.target).Some? ==> Aligned(p.target.ResolutionMs(), Mark(l, p.target))
    ensures l.FoldedUntil(p.target).None? ==> Mark(l, p.target) == I64_MIN
  {
    hide Exact, Aligned, InClock, Sum;
  }

  /** The target tile of the oldest source bucket ends by the limit of the pass. */
  lemma NotHeld(p: Pass, oldest: int)
    requires Promotes(p.source, p.target) && InClock(oldest) && !Held(p, oldest)
    ensures var w := p.target.ResolutionMs();
            BucketStartFor(w, oldest) + w <= Limit(p)
  {
    BucketAround(p.target.ResolutionMs(), oldest);
    hide BucketStartFor, InClock, IsComplete;
  }

  lemma OldestKey(source: Table, since: int, oldest: int)
    requires OldestAtOrAfter(source, since) == Some(oldest)
    ensures oldest in source && since <= oldest
    ensures ClockKeys(source) ==> InClock(oldest)
  {
    hide InClock;
  }

  /** The target tile of the oldest source bucket. */
  lemma OldestPlace(l: Ladder, p: Pass, m: map<int, Summary>, horizon: int, oldest: int)
    requires PassReady(l, p, m, horizon)
    requires OldestAtOrAfter(l.Rows(p.source), Mark(l, p.target)) == Some(oldest)
    requires !Held(p, oldest)
    ensures var w := p.target.ResolutionMs();
            var start := BucketStartFor(w, oldest);
            && Mark(l, p.target) <= start <= oldest < start + w
            && Aligned(w, start) && InClock(start) && SatAdd(start, w) == start + w <= Limit(p)
  {
    SourceReady(l, p, m, horizon);
    hide PassReady, Exact, Shaped, PositiveTable, ClockKeys, OldestAtOrAfter, InClock, Aligned, BucketStartFor, Sum, Held, SatAdd,
         Limit, Mark;
    var w := p.target.ResolutionMs();
    OldestKey(l.Rows(p.source), Mark(l, p.target), oldest);
    NotHeld(p, oldest);
    BucketAround(w, oldest);
    if l.FoldedUntil(p.target).Some? {
      AlignedBefore(w, Mark(l, p.target), BucketStartFor(w, oldest), oldest);
    }
  }

  /** The target tile of the oldest source bucket, and the bucket folded for it. */
  lemma OldestTile(l: Ladder, p: Pass, m: map<int, Summary>, horizon: int, oldest: int)
    requires PassReady(l, p, m, horizon)
    requires OldestAtOrAfter(l.Rows(p.source), Mark(l, p.target)) == Some(oldest)
    requires !Held(p, oldest)
    ensures var w := p.target.ResolutionMs();
            var start := BucketStartFor(w, oldest);
            && Mark(l, p.target) <= start <= oldest < start + w
            && Aligned(w, start) && InClock(start) && SatAdd(start, w) == start + w <= Limit(p)
            && var bucket := Fold(start, RowsIn(l.Rows(p.source), start, start + w));
               bucket.Some? && bucket.value.sampleCount > 0
               && SummaryOf(bucket.value) == Sum(m, start, start + w) != Empty
  {
    hide PassReady, Exact, Shaped, PositiveTable, ClockKeys, OldestAtOrAfter, InClock, Aligned, BucketStartFor, Sum, Fold, RowsIn,
         SummaryOf, Abstract, Held, SatAdd, Limit, Mark;
    SourceReady(l, p, m, horizon);
    OldestPlace(l, p, m, horizon, oldest);
    var w := p.target.ResolutionMs();
    var start, source := BucketStartFor(w, oldest), l.Rows(p.source);
    OldestKey(source, Mark(l, p.target), oldest);
    SourceCovers(source, m, p.source.ResolutionMs(), w, start, Mark(l, p.target), Limit(p));
    FoldRange(source, start, start, start + w);
    SourceHasTotal(source, start, start + w, oldest);
  }

  lemma SourceHasTotal(source: Table, lo: int, hi: int, k: int)
    requires PositiveTable(source)
    requires lo <= k < hi && k in source
    ensures Sum(Abstract(source), lo, hi) != Empty
  {
    if Sum(Abstract(source), lo, hi) == Empty {
      SumEmptyMeansNone(Abstract(source), lo, hi, k);
    }
  }

  /** Nothing was recorded in a target tile that the pass steps over. */
  lemma SteppedOverIsEmpty(l: Ladder, p: Pass, m: map<int, Summary>, horizon: int, oldest: int, tile: int)
    requires PassReady(l, p, m, horizon)
    requires OldestAtOrAfter(l.Rows(p.source), Mark(l, p.target)) == Some(oldest)
    requires !Held(p, oldest)
    requires Aligned(p.target.ResolutionMs(), tile) && InClock(tile)
    requires Mark(l, p.target) <= tile && tile + p.target.ResolutionMs() <= BucketStartFor(p.target.ResolutionMs(), oldest)
    ensures Sum(m, tile, tile + p.target.ResolutionMs()) == Empty
    ensures Tile(l.Rows(p.target), tile) == Empty
  {
    SourceReady(l, p, m, horizon);
    TargetBacked(l, p, m, horizon, tile);
    OldestTile(l, p, m, horizon, oldest);
    hide PassReady, Exact, Shaped, Backed, PositiveTable, ClockKeys, OldestAtOrAfter, KeysFrom, InClock, Aligned,
         BucketStartFor, Sum, Fold, RowsIn, SummaryOf, Abstract, Held, Tile;
    var w := p.target.ResolutionMs();
    var source := l.Rows(p.source);
    NoRowsBefore(source, Mark(l, p.target), oldest, tile, tile + w);
    SourceCovers(source, m, p.source.ResolutionMs(), w, tile, Mark(l, p.target), Limit(p));
  }

  /** No target row without recorded samples. */
  lemma TargetBacked(l: Ladder, p: Pass, m: map<int, Summary>, horizon: int, tile: int)
    requires PassReady(l, p, m, horizon)
    ensures Sum(m, tile, tile + p.target.ResolutionMs()) == Empty ==> Tile(l.Rows(p.target), tile) == Empty
  {
    hide Exact, Shaped, Sum;
  }

  lemma NoRowsBefore(source: Table, from: int, oldest: int, lo: int, hi: int)
    requires OldestAtOrAfter(source, from) == Some(oldest)
    requires from <= lo && hi <= oldest
    ensures Sum(Abstract(source), lo, hi) == Empty
  {
    assert forall t :: t in source && from <= t ==> t in KeysFrom(source, from);
    SumNone(Abstract(source), lo, hi);
  }

  /** The target after the write is exact up to the end of the tile written. */
  lemma WriteIsExact(l: Ladder, p: Pass, m: map<int, Summary>, horizon: int, oldest: int, table: Table)
    requires PassReady(l, p, m, horizon)
    requires OldestAtOrAfter(l.Rows(p.source), Mark(l, p.target)) == Some(oldest)
    requires !Held(p, oldest)
    requires var w := p.target.ResolutionMs();
             var start := BucketStartFor(w, oldest);
             var bucket := Fold(start, RowsIn(l.Rows(p.source), start, start + w));
             bucket.Some? && table == l.Rows(p.target)[start := bucket.value]
    ensures var w := p.target.ResolutionMs();
            Exact(table, m, w, horizon, BucketStartFor(w, oldest) + w)
  {
    hide PassReady, Fold, RowsIn, SummaryOf, BucketStartFor, OldestAtOrAfter, Held, Tile, Sum, Aligned, InClock, Mark, Limit;
    SourceReady(l, p, m, horizon);
    var w := p.target.ResolutionMs();
    forall k | Aligned(w, k) && InClock(k) && horizon < k + w <= BucketStartFor(w, oldest) + w
      ensures Tile(table, k) == Sum(m, k, k + w)
    {
      TileAfterWrite(l, p, m, horizon, oldest, table, k);
    }
  }

  lemma TileAfterWrite(l: Ladder, p: Pass, m: map<int, Summary>, horizon: int, oldest: int, table: Table, k: int)
    requires PassReady(l, p, m, horizon)
    requires OldestAtOrAfter(l.Rows(p.source), Mark(l, p.target)) == Some(oldest)
    requires !Held(p, oldest)
    requires var w := p.target.ResolutionMs();
             var start := BucketStartFor(w, oldest);
             var bucket := Fold(start, RowsIn(l.Rows(p.source), start, start + w));
             && bucket.Some? && table == l.Rows(p.target)[start := bucket.value]
             && Aligned(w, k) && InClock(k) && horizon < k + w <= start + w
    ensures Tile(table, k) == Sum(m, k, k + p.target.ResolutionMs())
  {
    TargetReady(l, p, m, horizon, k);
    SourceReady(l, p, m, horizon);
    hide PassReady, Exact, Shaped, ClockKeys, PositiveTable, Fold, RowsIn, SummaryOf, BucketStartFor, OldestAtOrAfter, Held, Sum,
         Aligned, InClock, Limit, Tile, SatAdd, RequiredWatermark;
    OldestTile(l, p, m, horizon, oldest);
    var w := p.target.ResolutionMs();
    var start := BucketStartFor(w, oldest);
    WrittenTile(l.Rows(p.target), start, Fold(start, RowsIn(l.Rows(p.source), start, start + w)).value, k);
    if k != start && k + w > Mark(l, p.target) {
      if l.FoldedUntil(p.target).Some? {
        FromBoundary(w, k, Mark(l, p.target));
      } else {
        ClockBounds(w, k);
      }
      AlignedInside(w, k, start);
      SteppedOverIsEmpty(l, p, m, horizon, oldest, k);
    }
  }

  lemma WrittenTile(table: Table, start: int, b: TierBucket, k: int)
    ensures Tile(table[start := b], k) == if k == start then SummaryOf(b) else Tile(table, k)
  {
    hide SummaryOf;
  }

  /** What readiness says of a target tile behind the watermark. */
  lemma TargetReady(l: Ladder, p: Pass, m: map<int, Summary>, horizon: int, k: int)
    requires PassReady(l, p, m, horizon)
    ensures var w := p.target.ResolutionMs();
            Aligned(w, k) && InClock(k) && horizon < k + w <= Mark(l, p.target) ==>
              Tile(l.Rows(p.target), k) == Sum(m, k, k + w)
  {
    hide Shaped, Backed, Aligned, InClock, Sum, Tile;
  }

  /** Exactness below the old watermark survives a write at or above it. */
  lemma WriteAbove(table: Table, m: map<int, Summary>, w: int, horizon: int, mark: int, start: int, bucket: TierBucket)
    requires w > 0 && mark <= start
    requires Exact(table, m, w, horizon, mark)
    ensures Exact(table[start := bucket], m, w, horizon, mark)
  {
  }

  /** The tables are ready for the pass again once the target row and its watermark are in place. */
  lemma ReadyAgain(l: Ladder, p: Pass, m: map<int, Summary>, horizon: int, table: Table, mark: Option<int>)
    requires PassReady(l, p, m, horizon)
    requires Shaped(table, p.target.ResolutionMs())
    requires Backed(table, m, p.target.ResolutionMs())
    requires MarkShaped(mark, p.target.ResolutionMs(), true)
    requires Mark(l, p.target) <= RequiredWatermark(mark)
    requires Exact(table, m, p.target.ResolutionMs(), horizon, RequiredWatermark(mark))
    ensures PassReady(l.WithRows(p.target, table).WithFoldedUntil(p.target, mark), p, m, horizon)
  {
    SourceStaysExact(l.Rows(p.source), m, p.source.ResolutionMs(), Mark(l, p.target), RequiredWatermark(mark), Limit(p));
    hide Shaped, Backed, Exact;
    var r := l.WithRows(p.target, table).WithFoldedUntil(p.target, mark);
    assert r.Rows(p.source) == l.Rows(p.source) && r.Rows(p.target) == table && r.FoldedUntil(p.target) == mark;
  }

  lemma WriteIsShaped(l: Ladder, p: Pass, m: map<int, Summary>, horizon: int, oldest: int)
    requires PassReady(l, p, m, horizon)
    requires OldestAtOrAfter(l.Rows(p.source), Mark(l, p.target)) == Some(oldest)
    requires !Held(p, oldest)
    ensures var w := p.target.ResolutionMs();
            var start := BucketStartFor(w, oldest);
            var bucket := Fold(start, RowsIn(l.Rows(p.source), start, start + w));
            bucket.Some? &&
            var table := l.Rows(p.target)[start := bucket.value];
            && Shaped(table, w) && Backed(table, m, w)
            && MarkShaped(Some(start + w), w, true)
            && Exact(table, m, w, horizon, start + w)
            && Exact(table, m, w, horizon, Mark(l, p.target))
            && Mark(l, p.target) <= start + w <= Limit(p)
  {
    OldestTile(l, p, m, horizon, oldest);
    var w := p.target.ResolutionMs();
    var start := BucketStartFor(w, oldest);
    var bucket := Fold(start, RowsIn(l.Rows(p.source), start, start + w)).value;
    var table := l.Rows(p.target)[start := bucket];
    WriteIsExact(l, p, m, horizon, oldest, table);
    WriteAbove(l.Rows(p.target), m, w, horizon, Mark(l, p.target), start, bucket);
    NextBoundary(w, start);
  }

  /** A turn that finds a ready source bucket, spelled out. */
  lemma TurnWrites(l: Ladder, p: Pass, m: map<int, Summary>, horizon: int, promoted: nat, oldest: int)
    requires PassReady(l, p, m, horizon)
    requires OldestAtOrAfter(l.Rows(p.source), Mark(l, p.target)) == Some(oldest)
    requires !Held(p, oldest)
    ensures var w := p.target.ResolutionMs();
            var start := BucketStartFor(w, oldest);
            var bucket := Fold(start, RowsIn(l.Rows(p.source), start, start + w));
            bucket.Some? &&
            var written := l.WithRows(p.target, l.Rows(p.target)[start := bucket.value]);
            NextTurn(l, p, Mark(l, p.target), promoted) ==
              if p.fault == UpsertFails(promoted) then Stop(l)
              else if p.fault == WatermarkFails(promoted) then Stop(written)
              else Wrote(written.WithFoldedUntil(p.target, Some(start + w)), start + w)
  {
    OldestTile(l, p, m, horizon, oldest);
  }

  /** What one turn keeps. */
  ghost predicate TurnSafe(l: Ladder, p: Pass, m: map<int, Summary>, horizon: int, promoted: nat, turn: Turn) {
    && !turn.Skip?
    && PassReady(turn.left, p, m, horizon)
    && OnlyTarget(l, turn.left, p)
    && (turn.Wrote? ==> turn.until == Mark(turn.left, p.target) && turn.left.FoldedUntil(p.target).Some?)
    && (turn.Stop? ==> turn.left.FoldedUntil(p.target) == l.FoldedUntil(p.target))
    && (turn.Stop? && p.fault != WatermarkFails(promoted) ==> turn.left == l)
  }

  /** One turn keeps everything, and moves the watermark just past the tile it wrote. */
  lemma TurnKeeps(l: Ladder, p: Pass, m: map<int, Summary>, horizon: int, promoted: nat)
    requires PassReady(l, p, m, horizon)
    ensures TurnSafe(l, p, m, horizon, promoted, NextTurn(l, p, Mark(l, p.target), promoted))
  {
    var oldest := OldestAtOrAfter(l.Rows(p.source), Mark(l, p.target));
    if oldest.None? || Held(p, oldest.value) {
      StopSafe(l, p, m, horizon, promoted);
    } else {
      ReadyTurnKeeps(l, p, m, horizon, promoted, oldest.value);
    }
  }

  lemma StopSafe(l: Ladder, p: Pass, m: map<int, Summary>, horizon: int, promoted: nat)
    requires PassReady(l, p, m, horizon)
    ensures TurnSafe(l, p, m, horizon, promoted, Stop(l))
  {
  }

  lemma ReadyTurnKeeps(l: Ladder, p: Pass, m: map<int, Summary>, horizon: int, promoted: nat, oldest: int)
    requires PassReady(l, p, m, horizon)
    requires OldestAtOrAfter(l.Rows(p.source), Mark(l, p.target)) == Some(oldest)
    requires !Held(p, oldest)
    ensures TurnSafe(l, p, m, horizon, promoted, NextTurn(l, p, Mark(l, p.target), promoted))
  {
    assert Promotes(p.source, p.target);
    hide PassReady, TurnSafe, NextTurn;
    WriteIsShaped(l, p, m, horizon, oldest);
    TurnWrites(l, p, m, horizon, promoted, oldest);
    var w := p.target.ResolutionMs();
    var start := BucketStartFor(w, oldest);
    var table := l.Rows(p.target)[start := Fold(start, RowsIn(l.Rows(p.source), start, start + w)).value];
    WrittenSafe(l, p, m, horizon, promoted, table, start + w);
  }

  lemma WrittenSafe(l: Ladder, p: Pass, m: map<int, Summary>, horizon: int, promoted: nat, table: Table, end: int)
    requires PassReady(l, p, m, horizon)
    requires Shaped(table, p.target.ResolutionMs()) && Backed(table, m, p.target.ResolutionMs())
    requires MarkShaped(Some(end), p.target.ResolutionMs(), true)
    requires Exact(table, m, p.target.ResolutionMs(), horizon, end)
    requires Exact(table, m, p.target.ResolutionMs(), horizon, Mark(l, p.target))
    requires Mark(l, p.target) <= end <= Limit(p)
    ensures TurnSafe(l, p, m, horizon, promoted, Stop(l))
    ensures p.fault == WatermarkFails(promoted) ==>
              TurnSafe(l, p, m, horizon, promoted, Stop(l.WithRows(p.target, table)))
    ensures TurnSafe(l, p, m, horizon, promoted,
                     Wrote(l.WithRows(p.target, table).WithFoldedUntil(p.target, Some(end)), end))
  {
    ReadyAgain(l, p, m, horizon, table, Some(end));
    ReadyAgain(l, p, m, horizon, table, l.FoldedUntil(p.target));
    assert l.WithRows(p.target, table).WithFoldedUntil(p.target, l.FoldedUntil(p.target)) == l.WithRows(p.target, table);
  }

  lemma SourceStaysExact(table: Table, m: map<int, Summary>, w: int, horizon: int, later: int, until: int)
    requires w > 0 && horizon <= later
    requires Exact(table, m, w, horizon, until)
    ensures Exact(table, m, w, later, until)
  {
  }

  /** What a whole pass keeps. */
  ghost predicate PassSafe(l: Ladder, p: Pass, m: map<int, Summary>, horizon: int, promoted: nat, r: Ladder) {
    && PassReady(r, p, m, horizon)
    && OnlyTarget(l, r, p)
    && (r.FoldedUntil(p.target).None? && p.fault != WatermarkFails(promoted) ==> r == l)
  }

  lemma SafeAfterWrite(l: Ladder, p: Pass, m: map<int, Summary>, horizon: int, promoted: nat, turn: Turn, r: Ladder)
    requires Promotes(p.source, p.target)
    requires turn.Wrote? && TurnSafe(l, p, m, horizon, promoted, turn)
    requires PassSafe(turn.left, p, m, horizon, promoted + 1, r)
    ensures PassSafe(l, p, m, horizon, promoted, r)
  {
    hide PassReady;
    if p.target == L3 {
    } else {
    }
  }

  lemma {:induction false} PromoteFromKeeps(l: Ladder, p: Pass, m: map<int, Summary>, horizon: int, promoted: nat)
    requires PassReady(l, p, m, horizon)
    ensures ClockKeys(l.Rows(p.source))
    ensures PassSafe(l, p, m, horizon, promoted, PromoteFrom(l, p, Mark(l, p.target), promoted).0)
    decreases |KeysFrom(l.Rows(p.source), Mark(l, p.target))|
  {
    hide NextTurn, OnlyTarget, ClockKeys, Shaped, Backed, Exact, KeysFrom;
    SourceKeysInClock(l, p);
    StopSafe(l, p, m, horizon, promoted);
    if promoted < MAX_PROMOTIONS_PER_TICK {
      TurnKeeps(l, p, m, horizon, promoted);
      TurnAdvances(l, p, Mark(l, p.target), promoted);
      var turn := NextTurn(l, p, Mark(l, p.target), promoted);
      if turn.Wrote? {
        PromoteFromKeeps(turn.left, p, m, horizon, promoted + 1);
        SafeAfterWrite(l, p, m, horizon, promoted, turn, PromoteFrom(turn.left, p, turn.until, promoted + 1).0);
      }
    }
  }

  // ---------- The loop on any tables at all ----------

  /** The bucket a pass writes for the tile at `start`. */
  function FoldTile(source: Table, w: int, start: int): Option<TierBucket> {
    Fold(start, RowsIn(source, start, start + w))
  }

  /** Tiles between `from` and `until`, in increasing order and apart from each other. */
  ghost predicate InOrder(written: seq<int>, w: int, from: int, until: int)
    requires w > 0
  {
    && (forall i :: 0 <= i < |written| ==> Aligned(w, written[i]) && from <= written[i] && written[i] + w <= until)
    && (forall i, j :: 0 <= i < j < |written| ==> written[i] + w <= written[j])
  }

  /** `after` is `before` with the fold of the source written at exactly the tiles `written`. */
  ghost predicate TilesWritten(source: Table, before: Table, after: Table, w: int, written: seq<int>) {
    && (forall k :: k in after <==> k in before || k in written)
    && (forall k :: k in after ==> Some(after[k]) == if k in written then FoldTile(source, w, k) else Some(before[k]))
  }

  /** No source bucket between `from` and `until` was passed over, unless its whole tile holds no sample. */
  ghost predicate NothingSkipped(source: Table, w: int, from: int, until: int, written: seq<int>)
    requires w > 0
  {
    forall s :: s in source && from <= s < until ==>
      BucketStartFor(w, s) in written || FoldTile(source, w, BucketStartFor(w, s)).None?
  }

  ghost predicate Boundary(w: int, t: int)
    requires w > 0
  {
    t == I64_MIN || Aligned(w, t)
  }

  /** Nothing but the rows and the watermark of `target` differs. */
  ghost predicate SameElse(l: Ladder, r: Ladder, target: Tier) {
    r == l.WithRows(target, r.Rows(target)).WithFoldedUntil(target, r.FoldedUntil(target))
  }

  lemma SameElseChains(l: Ladder, source: Tier, target: Tier, table: Table, mark: Option<int>, r: Ladder)
    requires Promotes(source, target)
    requires SameElse(l.WithRows(target, table).WithFoldedUntil(target, mark), r, target)
    ensures var left := l.WithRows(target, table).WithFoldedUntil(target, mark);
            left.Rows(target) == table && left.FoldedUntil(target) == mark && left.Rows(source) == l.Rows(source)
    ensures SameElse(l, r, target)
  {
    if target == L3 {
    } else {
    }
  }

  /** What a whole pass from `from` to `until` did. */
  ghost predicate PassDid(l: Ladder, r: Ladder, p: Pass, from: int, until: int, written: seq<int>)
    requires Promotes(p.source, p.target)
  {
    var w := p.target.ResolutionMs();
    && SameElse(l, r, p.target)
    && r.FoldedUntil(p.target) == (if written == [] then l.FoldedUntil(p.target) else Some(until))
    && (written != [] ==> until == written[|written| - 1] + w)
    && InOrder(written, w, from, until)
    && TilesWritten(l.Rows(p.source), l.Rows(p.target), r.Rows(p.target), w, written)
    && NothingSkipped(l.Rows(p.source), w, from, until, written)
  }

  /** What a pass does, for every state of the tables: it writes at most the tiles its budget allows, each the
    * fold of exactly the source buckets in its range, in increasing order; it passes over nothing that holds a
    * sample; and it leaves the watermark at the end of the last tile written. */
  lemma {:induction false} PassIsExact(l: Ladder, p: Pass, from: int, promoted: nat)
    returns (written: seq<int>, until: int)
    requires Promotes(p.source, p.target)
    requires ClockKeys(l.Rows(p.source))
    requires Boundary(p.target.ResolutionMs(), from)
    requires p.fault == NoFault && promoted <= MAX_PROMOTIONS_PER_TICK
    ensures PromoteFrom(l, p, from, promoted).1 == promoted + |written| <= MAX_PROMOTIONS_PER_TICK
    ensures PassDid(l, PromoteFrom(l, p, from, promoted).0, p, from, until, written)
    ensures written == [] ==> PromoteFrom(l, p, from, promoted).0 == l
    ensures from <= until
    decreases |KeysFrom(l.Rows(p.source), from)|
  {
    hide PassDid, NextTurn;
    written, until := [], from;
    if promoted < MAX_PROMOTIONS_PER_TICK {
      TurnAdvances(l, p, from, promoted);
      var turn := NextTurn(l, p, from, promoted);
      match turn
      case Stop(left) =>
        FaultlessStop(l, p, from, promoted);
        StopDid(l, p, from);
      case Skip(next) =>
        SkippedTurn(l, p, from, promoted);
        written, until := PassIsExact(l, p, next, promoted);
        until := AfterSkip(l, p, from, promoted, PromoteFrom(l, p, next, promoted).0, until, written);
      case Wrote(left, next) =>
        WrittenTurn(l, p, from, promoted);
        var rest, end := PassIsExact(left, p, next, promoted + 1);
        written, until := AfterWrite(l, p, from, promoted, PromoteFrom(left, p, next, promoted + 1).0, end, rest);
    } else {
      StopDid(l, p, from);
    }
  }

  lemma AfterSkip(l: Ladder, p: Pass, from: int, promoted: nat, r: Ladder, end: int, written: seq<int>)
    returns (until: int)
    requires Promotes(p.source, p.target)
    requires ClockKeys(l.Rows(p.source)) && Boundary(p.target.ResolutionMs(), from)
    requires NextTurn(l, p, from, promoted).Skip?
    requires PassDid(l, r, p, NextTurn(l, p, from, promoted).until, end, written)
    requires NextTurn(l, p, from, promoted).until <= end
    requires written == [] ==> r == l
    ensures PassDid(l, r, p, from, until, written) && from <= until
  {
    SkippedTurn(l, p, from, promoted);
    if written == [] {
      until := from;
      StopDid(l, p, from);
    } else {
      until := end;
      var oldest := OldestAtOrAfter(l.Rows(p.source), from).value;
      SkipDid(l, r, p, from, NextTurn(l, p, from, promoted).until, until, oldest, written);
    }
  }

  lemma AfterWrite(l: Ladder, p: Pass, from: int, promoted: nat, r: Ladder, end: int, rest: seq<int>)
    returns (written: seq<int>, until: int)
    requires Promotes(p.source, p.target)
    requires ClockKeys(l.Rows(p.source)) && Boundary(p.target.ResolutionMs(), from)
    requires NextTurn(l, p, from, promoted).Wrote?
    requires PassDid(NextTurn(l, p, from, promoted).left, r, p, NextTurn(l, p, from, promoted).until, end, rest)
    requires NextTurn(l, p, from, promoted).until <= end
    ensures |written| == |rest| + 1
    ensures PassDid(l, r, p, from, until, written) && from <= until
  {
    hide NextTurn, PassDid, FoldTile, ClockKeys, KeysFrom;
    WrittenTurn(l, p, from, promoted);
    var w := p.target.ResolutionMs();
    var oldest := OldestAtOrAfter(l.Rows(p.source), from).value;
    var start := BucketStartFor(w, oldest);
    var table := l.Rows(p.target)[start := FoldTile(l.Rows(p.source), w, start).value];
    written, until := [start] + rest, if rest == [] then start + w else end;
    WriteDid(l, r, p, from, oldest, start, table, end, rest);
  }

  lemma FaultlessStop(l: Ladder, p: Pass, from: int, promoted: nat)
    requires Promotes(p.source, p.target) && p.fault == NoFault
    ensures NextTurn(l, p, from, promoted).Stop? ==> NextTurn(l, p, from, promoted).left == l
  {
  }

  lemma SkippedTurn(l: Ladder, p: Pass, from: int, promoted: nat)
    requires Promotes(p.source, p.target)
    requires ClockKeys(l.Rows(p.source)) && Boundary(p.target.ResolutionMs(), from)
    requires NextTurn(l, p, from, promoted).Skip?
    ensures var oldest := OldestAtOrAfter(l.Rows(p.source), from);
            var w := p.target.ResolutionMs();
            oldest.Some? &&
            var start := BucketStartFor(w, oldest.value);
            && NextTurn(l, p, from, promoted).until == start + w >= from
            && FoldTile(l.Rows(p.source), w, start).None?
            && Boundary(w, start + w)
  {
    TileOfOldest(l.Rows(p.source), p.target.ResolutionMs(), from, OldestAtOrAfter(l.Rows(p.source), from).value);
  }

  lemma WrittenTurn(l: Ladder, p: Pass, from: int, promoted: nat)
    requires Promotes(p.source, p.target)
    requires ClockKeys(l.Rows(p.source)) && Boundary(p.target.ResolutionMs(), from)
    requires NextTurn(l, p, from, promoted).Wrote?
    ensures var turn := NextTurn(l, p, from, promoted);
            var oldest := OldestAtOrAfter(l.Rows(p.source), from);
            var w := p.target.ResolutionMs();
            oldest.Some? &&
            var start := BucketStartFor(w, oldest.value);
            var bucket := FoldTile(l.Rows(p.source), w, start);
            && turn.until == start + w >= from
            && Boundary(w, start + w)
            && bucket.Some?
            && turn.left == l.WithRows(p.target, l.Rows(p.target)[start := bucket.value])
                             .WithFoldedUntil(p.target, Some(start + w))
  {
    TileOfOldest(l.Rows(p.source), p.target.ResolutionMs(), from, OldestAtOrAfter(l.Rows(p.source), from).value);
  }

  lemma StopDid(l: Ladder, p: Pass, from: int)
    requires Promotes(p.source, p.target)
    ensures PassDid(l, l, p, from, from, [])
  {
  }

  /** The oldest source bucket's tile, and the fact that every older source bucket at or after `from` shares it. */
  lemma TileOfOldest(source: Table, w: int, from: int, oldest: int)
    requires Coarse(w)
    requires ClockKeys(source)
    requires Boundary(w, from)
    requires OldestAtOrAfter(source, from) == Some(oldest)
    ensures var start := BucketStartFor(w, oldest);
            && from <= start <= oldest < start + w
            && Aligned(w, start)
            && Boundary(w, start + w)
            && SatAdd(start, w) == start + w
            && forall s :: s in source && from <= s < start + w ==> BucketStartFor(w, s) == start
  {
    var start := BucketStartFor(w, oldest);
    BucketAround(w, oldest);
    NextBoundary(w, start);
    if from != I64_MIN {
      AlignedBefore(w, from, start, oldest);
    }
    forall s | s in source && from <= s < start + w
      ensures BucketStartFor(w, s) == start
    {
      assert s in KeysFrom(source, from);
      BucketUnique(w, s, start);
    }
  }

  lemma SkipDid(l: Ladder, r: Ladder, p: Pass, from: int, mid: int, until: int, oldest: int, written: seq<int>)
    requires Promotes(p.source, p.target)
    requires ClockKeys(l.Rows(p.source)) && Boundary(p.target.ResolutionMs(), from)
    requires OldestAtOrAfter(l.Rows(p.source), from) == Some(oldest)
    requires var w := p.target.ResolutionMs();
             && mid == BucketStartFor(w, oldest) + w
             && FoldTile(l.Rows(p.source), w, BucketStartFor(w, oldest)).None?
    requires PassDid(l, r, p, mid, until, written)
    ensures PassDid(l, r, p, from, until, written)
  {
    TileOfOldest(l.Rows(p.source), p.target.ResolutionMs(), from, oldest);
  }

  /** A pass that starts from a freshly written target row, seen from before the write. */
  lemma DidAfterWrite(l: Ladder, r: Ladder, p: Pass, table: Table, mid: int, end: int, rest: seq<int>)
    requires Promotes(p.source, p.target)
    requires PassDid(l.WithRows(p.target, table).WithFoldedUntil(p.target, Some(mid)), r, p, mid, end, rest)
    ensures SameElse(l, r, p.target)
    ensures r.FoldedUntil(p.target) == Some(if rest == [] then mid else end)
    ensures rest != [] ==> end == rest[|rest| - 1] + p.target.ResolutionMs()
    ensures InOrder(rest, p.target.ResolutionMs(), mid, end)
    ensures TilesWritten(l.Rows(p.source), table, r.Rows(p.target), p.target.ResolutionMs(), rest)
    ensures NothingSkipped(l.Rows(p.source), p.target.ResolutionMs(), mid, end, rest)
  {
    SameElseChains(l, p.source, p.target, table, Some(mid), r);
  }

  lemma DidCombine(l: Ladder, r: Ladder, p: Pass, from: int, until: int, start: int, rest: seq<int>)
    requires Promotes(p.source, p.target)
    requires SameElse(l, r, p.target)
    requires r.FoldedUntil(p.target) == Some(until)
    requires until == (if rest == [] then start else rest[|rest| - 1]) + p.target.ResolutionMs()
    requires InOrder([start] + rest, p.target.ResolutionMs(), from, until)
    requires TilesWritten(l.Rows(p.source), l.Rows(p.target), r.Rows(p.target), p.target.ResolutionMs(), [start] + rest)
    requires NothingSkipped(l.Rows(p.source), p.target.ResolutionMs(), from, until, [start] + rest)
    ensures PassDid(l, r, p, from, until, [start] + rest)
  {
    var written := [start] + rest;
    assert written[|written| - 1] == if rest == [] then start else rest[|rest| - 1];
  }

  lemma WriteDid(l: Ladder, r: Ladder, p: Pass, from: int, oldest: int, start: int, table: Table, end: int, rest: seq<int>)
    requires Promotes(p.source, p.target)
    requires ClockKeys(l.Rows(p.source)) && Boundary(p.target.ResolutionMs(), from)
    requires OldestAtOrAfter(l.Rows(p.source), from) == Some(oldest)
    requires start == BucketStartFor(p.target.ResolutionMs(), oldest)
    requires FoldTile(l.Rows(p.source), p.target.ResolutionMs(), start).Some?
    requires table == l.Rows(p.target)[start := FoldTile(l.Rows(p.source), p.target.ResolutionMs(), start).value]
    requires PassDid(l.WithRows(p.target, table).WithFoldedUntil(p.target, Some(start + p.target.ResolutionMs())),
                     r, p, start + p.target.ResolutionMs(), end, rest)
    ensures PassDid(l, r, p, from, if rest == [] then start + p.target.ResolutionMs() else end, [start] + rest)
  {
    hide PassDid, TilesWritten, NothingSkipped, InOrder, SameElse, FoldTile, BucketStartFor;
    var w := p.target.ResolutionMs();
    DidAfterWrite(l, r, p, table, start + w, end, rest);
    TileOfOldest(l.Rows(p.source), w, from, oldest);
    WriteInOrder(w, from, start, end, rest);
    WriteTable(l.Rows(p.source), l.Rows(p.target), table, r.Rows(p.target), w, start, rest);
    WriteSkips(l.Rows(p.source), w, from, oldest, end, rest);
    DidCombine(l, r, p, from, if rest == [] then start + w else end, start, rest);
  }

  lemma WriteInOrder(w: int, from: int, start: int, end: int, rest: seq<int>)
    requires w > 0 && Aligned(w, start) && from <= start
    requires InOrder(rest, w, start + w, end)
    ensures InOrder([start] + rest, w, from, if rest == [] then start + w else end)
  {
    var written := [start] + rest;
    forall i, j | 0 <= i < j < |written|
      ensures written[i] + w <= written[j]
    {
      assert written[j] == rest[j - 1];
    }
    if rest != [] {
      assert rest[0] + w <= end;
    }
  }

  lemma WriteTable(source: Table, before: Table, mid: Table, after: Table, w: int, start: int, rest: seq<int>)
    requires w > 0
    requires FoldTile(source, w, start).Some? && mid == before[start := FoldTile(source, w, start).value]
    requires TilesWritten(source, mid, after, w, rest)
    ensures TilesWritten(source, before, after, w, [start] + rest)
  {
    assert forall k :: k in [start] + rest <==> k == start || k in rest;
  }

  lemma WriteSkips(source: Table, w: int, from: int, oldest: int, end: int, rest: seq<int>)
    requires Coarse(w) && ClockKeys(source) && Boundary(w, from)
    requires OldestAtOrAfter(source, from) == Some(oldest)
    requires NothingSkipped(source, w, BucketStartFor(w, oldest) + w, end, rest)
    ensures NothingSkipped(source, w, from, if rest == [] then BucketStartFor(w, oldest) + w else end,
                           [BucketStartFor(w, oldest)] + rest)
  {
    TileOfOldest(source, w, from, oldest);
    var start := BucketStartFor(w, oldest);
    assert forall k :: k in [start] + rest <==> k == start || k in rest;
  }
}

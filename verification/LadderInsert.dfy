/** The parts of a sample insert: its minute, what it records, and the re-fold of one ancestor. */
module LadderInsert {
  import opened Prelude
  import opened Summaries
  import opened TierFold
  import opened TimeGrid
  import opened LadderModel
  import opened LadderTables
  import opened LadderInvariant
  import opened LadderPromotion

  function MinuteOf(t: int): int { BucketStartFor(60_000, t) }

  function RowCount(raw: map<int, RawSample>, minute: int): int { |RawIn(raw, minute, minute + 60_000)| }

  /** The minute holds more samples than raw rows, counting a row already there at `t` but not a new one. */
  predicate Partial(l: Ladder, t: int) {
    MinuteOf(t) in l.l2 && l.l2[MinuteOf(t)].sampleCount > RowCount(l.raw, MinuteOf(t))
  }

  /** The minute is past the horizon of its tier and already folded. */
  predicate MinuteExpired(c: Config, l: Ladder, now: int, t: int) {
    MinuteOf(t) + 60_000 <= L2Horizon(c, l, now)
  }

  /** Exactly one row of the minute has been pruned and a new row is coming: the row count after the insert equals
    * the bucket's count, so the insert takes the minute for complete and rebuilds it without the pruned row. */
  predicate HidesPrunedRow(l: Ladder, t: int) {
    && t !in l.raw
    && MinuteOf(t) in l.l2
    && l.l2[MinuteOf(t)].sampleCount == RowCount(l.raw, MinuteOf(t)) + 1
  }

  /** The ancestor of width `w` around `t` has been folded and has not expired. */
  predicate FoldedInto(w: int, t: int, mark: Option<int>, horizon: int)
    requires w > 0
  {
    Behind(BucketStartFor(w, t), mark) && BucketStartFor(w, t) + w > horizon
  }

  /** The re-fold of the five minutes from `start` reads all of their minutes. */
  predicate FiveMinutesAreRead(c: Config, now: int, start: int) { start >= SatSub(now, KeepMs(c.l2KeepDays)) }

  /** The re-fold of the hour from `start` reads all of the tier it was folded from. The stored flag says which tier that is;
    * with none stored it takes L3, which holds nothing while L3 is off. */
  predicate HourIsRead(c: Config, l: Ladder, now: int, start: int) {
    if l.l3Enabled.UnwrapOr(true) then c.l3.enabled && start >= SatSub(now, KeepMs(c.l3.keepDays))
    else start >= SatSub(now, KeepMs(c.l2KeepDays))
  }

  /** The keep days of the tier that hours are folded from. */
  function L4SourceDays(c: Config): int { if c.l3.enabled then c.l3.keepDays else c.l2KeepDays }

  /** The sample takes the place of a stored one with other values. */
  predicate ChangedReplay(l: Ladder, sample: RawSample) {
    sample.capturedAtMs in l.raw && l.raw[sample.capturedAtMs] != sample
  }

  /** The extremes of the root figure in a range, without the samples at `t`. */
  ghost function OtherRoots(m: map<int, Summary>, t: int, lo: int, hi: int): Option<Range> {
    var rest := Sum(map v | v in m && v != t :: m[v], lo, hi);
    if rest.Of? then rest.root else None
  }

  /** Nothing but the root figure differs from what is recorded, and that within the extremes of the range. */
  ghost predicate LeavesRange(m: map<int, Summary>, sample: RawSample, lo: int, hi: int) {
    var was, becomes := At(m, sample.capturedAtMs), SampleSummary(sample);
    var others := OtherRoots(m, sample.capturedAtMs, lo, hi);
    && was.Of? && becomes == was.(root := becomes.root)
    && JoinRoot(others, becomes.root) == JoinRoot(others, was.root)
  }

  /** A changed replay is taken into its minute, unless that has expired or does not notice the change. */
  ghost predicate MinuteTakes(c: Config, l: Ladder, m: map<int, Summary>, now: int, sample: RawSample) {
    var t := sample.capturedAtMs;
    Partial(l, t) ==> MinuteExpired(c, l, now, t) || LeavesRange(m, sample, MinuteOf(t), MinuteOf(t) + 60_000)
  }

  /** A changed replay reaches every unexpired ancestor that has already folded it and notices the change. */
  ghost predicate CorrectionReaches(c: Config, l: Ladder, m: map<int, Summary>, now: int, sample: RawSample) {
    var t := sample.capturedAtMs;
    var five, hour := BucketStartFor(300_000, t), BucketStartFor(3_600_000, t);
    && (FoldedInto(300_000, t, l.l3FoldedUntil, L3Horizon(c, l, now)) ==>
          FiveMinutesAreRead(c, now, five) || LeavesRange(m, sample, five, five + 300_000))
    && (FoldedInto(3_600_000, t, l.l4FoldedUntil, L4Horizon(c, now)) ==>
          HourIsRead(c, l, now, hour) || LeavesRange(m, sample, hour, hour + 3_600_000))
  }

  /** What can be checked before storing `sample` at clock `now`, `m` being recorded so far: a new row hides no pruned one, and
    * a changed replay is taken into its minute and reaches its ancestors. */
  ghost predicate CleanInsert(c: Config, l: Ladder, m: map<int, Summary>, sample: RawSample, now: int) {
    var t := sample.capturedAtMs;
    && InClock(t)
    && (t !in l.raw ==> MinuteExpired(c, l, now, t) || !HidesPrunedRow(l, t))
    && (ChangedReplay(l, sample) ==> MinuteTakes(c, l, m, now, sample) && CorrectionReaches(c, l, m, now, sample))
  }

  /** The samples recorded after the insert: a row at a time without one adds one; a replay takes the place of what was
    * recorded at its time. */
  function Record(m: map<int, Summary>, l: Ladder, sample: RawSample): map<int, Summary> {
    var t := sample.capturedAtMs;
    if t !in l.raw then m[t := Join(At(m, t), SampleSummary(sample))]
    else if l.raw[t] == sample then m
    else m[t := SampleSummary(sample)]
  }

  // ---------- The recorded samples ----------

  ghost predicate OnlyAt(m: map<int, Summary>, n: map<int, Summary>, t: int) {
    forall v :: v != t ==> At(m, v) == At(n, v)
  }

  lemma SumElsewhere(m: map<int, Summary>, n: map<int, Summary>, t: int, lo: int, hi: int)
    requires OnlyAt(m, n, t) && !(lo <= t < hi)
    ensures Sum(m, lo, hi) == Sum(n, lo, hi)
  {
    SumAgrees(m, n, lo, hi);
  }

  lemma SumHolds(m: map<int, Summary>, t: int, lo: int, hi: int)
    requires Positive(m) && t in m && lo <= t < hi
    ensures Sum(m, lo, hi) != Empty
  {
    if Sum(m, lo, hi) == Empty {
      SumEmptyMeansNone(m, lo, hi, t);
    }
  }

  lemma RecordShaped(m: map<int, Summary>, l: Ladder, sample: RawSample)
    requires LogShaped(m) && RawShaped(l.raw, m) && InClock(sample.capturedAtMs)
    ensures var n := Record(m, l, sample);
            LogShaped(n) && OnlyAt(m, n, sample.capturedAtMs) && sample.capturedAtMs in n
    ensures RawShaped(l.raw[sample.capturedAtMs := sample], Record(m, l, sample))
  {
  }

  lemma StaysBacked(table: Table, m: map<int, Summary>, n: map<int, Summary>, w: int, t: int)
    requires Backed(table, m, w) && OnlyAt(m, n, t) && Positive(n) && t in n
    ensures Backed(table, n, w)
  {
    forall k | k in table
      ensures Sum(n, k, k + w) != Empty
    {
      if k <= t < k + w {
        SumHolds(n, t, k, k + w);
      } else {
        SumElsewhere(m, n, t, k, k + w);
      }
    }
  }

  /** Replacing what is recorded at a time leaves the total of a range exactly when it leaves its figures. */
  lemma LeavesRangeExactly(m: map<int, Summary>, sample: RawSample, lo: int, hi: int)
    requires LogShaped(m) && sample.capturedAtMs in m && lo <= sample.capturedAtMs < hi
    ensures LeavesRange(m, sample, lo, hi) <==>
            Sum(m[sample.capturedAtMs := SampleSummary(sample)], lo, hi) == Sum(m, lo, hi)
  {
    var t := sample.capturedAtMs;
    var without := map v | v in m && v != t :: m[v];
    SumJoinAt(without, m, lo, hi, t, m[t]);
    SumJoinAt(without, m[t := SampleSummary(sample)], lo, hi, t, SampleSummary(sample));
    SamplesJoinApart(Sum(without, lo, hi), m[t], sample);
    hide Sum, SampleSummary, Join;
  }

  lemma SamplesJoinApart(rest: Summary, was: Summary, sample: RawSample)
    requires was.Of? && (was.count == 1 ==> Single(was, sample.capturedAtMs))
    ensures var becomes := SampleSummary(sample);
            var others := if rest.Of? then rest.root else None;
            Join(rest, becomes) == Join(rest, was) <==>
              becomes == was.(root := becomes.root) && JoinRoot(others, becomes.root) == JoinRoot(others, was.root)
  {
    hide JoinRoot;
    RootAlone(was.root);
    RootAlone(SampleSummary(sample).root);
  }

  lemma RootAlone(a: Option<Range>)
    ensures JoinRoot(None, a) == a
  {
  }

  /** If two ranges have one total, so has every range around them. */
  lemma SameAround(m: map<int, Summary>, n: map<int, Summary>, t: int, lo: int, hi: int, wider: int, until: int)
    requires OnlyAt(m, n, t) && wider <= lo <= t < hi <= until && Sum(n, lo, hi) == Sum(m, lo, hi)
    ensures Sum(n, wider, until) == Sum(m, wider, until)
  {
    SumSplit(m, wider, lo, until);
    SumSplit(n, wider, lo, until);
    SumSplit(m, lo, hi, until);
    SumSplit(n, lo, hi, until);
    SumAgrees(m, n, wider, lo);
    SumAgrees(m, n, hi, until);
  }

  /** Writing the right row at the tile of `t` keeps every other tile exact. */
  lemma WriteTile(table: Table, after: Table, m: map<int, Summary>, n: map<int, Summary>, w: int, t: int, start: int,
                  horizon: int, until: int)
    requires w > 0 && Aligned(w, start) && start <= t < start + w
    requires Exact(table, m, w, horizon, until) && OnlyAt(m, n, t)
    requires forall k :: k != start ==> Tile(after, k) == Tile(table, k)
    requires horizon < start + w <= until ==> Tile(after, start) == Sum(n, start, start + w)
    ensures Exact(after, n, w, horizon, until)
  {
    forall k | Aligned(w, k) && InClock(k) && horizon < k + w <= until && k != start
      ensures Tile(after, k) == Sum(n, k, k + w)
    {
      if k <= t < k + w {
        AlignedApart(w, k, start);
      }
      SumElsewhere(m, n, t, k, k + w);
    }
  }

  // ---------- The minute ----------

  /** What the insert sees of its minute. */
  lemma MinuteRead(l2: Table, raw: map<int, RawSample>, t: int)
    requires Shaped(l2, 60_000) && InClock(t)
    ensures var minute := MinuteOf(t);
            && SatAdd(minute, 60_000) == minute + 60_000
            && Aligned(60_000, minute) && InClock(minute) && minute <= t < minute + 60_000
            && RowsIn(l2, minute, minute + 60_000) == (if minute in l2 then [l2[minute]] else [])
  {
    BucketAround(60_000, t);
    var minute := MinuteOf(t);
    forall k | minute <= k < minute + 60_000 && k != minute
      ensures k !in l2
    {
      if Aligned(60_000, k) {
        AlignedApart(60_000, k, minute);
      }
    }
    RowsSingle(l2, minute, minute + 60_000, minute);
  }

  lemma {:induction false} RowsAfterInsert(raw: map<int, RawSample>, t: int, sample: RawSample, lo: int, hi: int)
    requires sample.capturedAtMs == t && lo <= t < hi
    ensures |RawIn(raw[t := sample], lo, hi)| == |RawIn(raw, lo, hi)| + (if t in raw then 0 else 1)
    decreases hi - lo
  {
    if t == hi - 1 {
      RowsUnchanged(raw, t, sample, lo, hi - 1);
    } else {
      RowsAfterInsert(raw, t, sample, lo, hi - 1);
    }
  }

  lemma {:induction false} RowsUnchanged(raw: map<int, RawSample>, t: int, sample: RawSample, lo: int, hi: int)
    requires !(lo <= t < hi)
    ensures RawIn(raw[t := sample], lo, hi) == RawIn(raw, lo, hi)
    decreases hi - lo
  {
    if lo < hi {
      RowsUnchanged(raw, t, sample, lo, hi - 1);
    }
  }

  /** The insert's minute and raw table, once the sample is stored. */
  function StoredRaw(l: Ladder, sample: RawSample): map<int, RawSample> { l.raw[sample.capturedAtMs := sample] }

  function MinuteRows(l: Ladder, sample: RawSample): seq<RawSample> {
    RawIn(StoredRaw(l, sample), MinuteOf(sample.capturedAtMs), MinuteOf(sample.capturedAtMs) + 60_000)
  }

  function Updated(l: Ladder, sample: RawSample): (Table, MinuteChange) {
    UpdateMinute(l.l2, StoredRaw(l, sample), sample.capturedAtMs, RawToBucket(sample), sample.capturedAtMs in l.raw)
  }

  /** The first way: a replay into a partial minute changes nothing. */
  lemma KeptCase(l: Ladder, sample: RawSample)
    requires Shaped(l.l2, 60_000) && InClock(sample.capturedAtMs)
    requires sample.capturedAtMs in l.raw && Partial(l, sample.capturedAtMs)
    ensures Updated(l, sample) == (l.l2, Kept)
  {
    hide Fold, Rebuild, RowsIn, RawIn, BucketStartFor, Shaped, InClock;
    MinuteRead(l.l2, StoredRaw(l, sample), sample.capturedAtMs);
    MinuteRowCount(l.raw, sample.capturedAtMs, sample);
  }

  /** The second way: a new row of a partial minute is merged into the bucket. */
  lemma MergedCase(l: Ladder, sample: RawSample)
    requires Shaped(l.l2, 60_000) && InClock(sample.capturedAtMs)
    requires sample.capturedAtMs !in l.raw && Partial(l, sample.capturedAtMs) && !HidesPrunedRow(l, sample.capturedAtMs)
    ensures var minute := MinuteOf(sample.capturedAtMs);
            var bucket := Fold(minute, [l.l2[minute], RawToBucket(sample)]);
            bucket.Some? && Updated(l, sample) == (l.l2[minute := bucket.value], Merged)
  {
    FoldPair(MinuteOf(sample.capturedAtMs), l.l2[MinuteOf(sample.capturedAtMs)], sample);
    hide Fold, Rebuild, RowsIn, RawIn, BucketStartFor, Shaped, InClock, RawToBucket;
    MinuteRead(l.l2, StoredRaw(l, sample), sample.capturedAtMs);
    MinuteRowCount(l.raw, sample.capturedAtMs, sample);
  }

  /** The third way: the bucket is recomputed from the raw rows of the minute. */
  lemma RebuiltCase(l: Ladder, sample: RawSample)
    requires Shaped(l.l2, 60_000) && InClock(sample.capturedAtMs)
    requires !Partial(l, sample.capturedAtMs) || HidesPrunedRow(l, sample.capturedAtMs)
    ensures MinuteRows(l, sample) != []
    ensures var minute := MinuteOf(sample.capturedAtMs);
            Updated(l, sample) == (l.l2[minute := Rebuild(minute, MinuteRows(l, sample))], Rebuilt)
  {
    hide Fold, Rebuild, RowsIn, RawIn, BucketStartFor, Shaped, InClock, RawToBucket;
    MinuteRead(l.l2, StoredRaw(l, sample), sample.capturedAtMs);
    MinuteRowCount(l.raw, sample.capturedAtMs, sample);
  }

  lemma MinuteRowCount(raw: map<int, RawSample>, t: int, sample: RawSample)
    requires sample.capturedAtMs == t && InClock(t)
    ensures RawIn(raw[t := sample], MinuteOf(t), MinuteOf(t) + 60_000) != []
    ensures RowCount(raw[t := sample], MinuteOf(t)) == RowCount(raw, MinuteOf(t)) + (if t in raw then 0 else 1)
  {
    BucketAround(60_000, t);
    RowsAfterInsert(raw, t, sample, MinuteOf(t), MinuteOf(t) + 60_000);
    if t in raw {
      HasRow(raw, t, MinuteOf(t), MinuteOf(t) + 60_000);
    }
  }

  lemma {:induction false} HasRow(raw: map<int, RawSample>, t: int, lo: int, hi: int)
    requires t in raw && lo <= t < hi
    ensures RawIn(raw, lo, hi) != []
    decreases hi - lo
  {
    if t < hi - 1 {
      HasRow(raw, t, lo, hi - 1);
    }
  }

  lemma FoldPair(start: int, b: TierBucket, sample: RawSample)
    requires b.sampleCount > 0
    ensures var folded := Fold(start, [b, RawToBucket(sample)]);
            folded.Some? && folded.value.sampleCount > 0
            && SummaryOf(folded.value) == Join(SummaryOf(b), SampleSummary(sample))
  {
    var pair := [b, RawToBucket(sample)];
    FoldKeepsSamples(start, pair);
    RawToBucketKeepsSample(sample);
    assert pair[..1] == [b] && [b][..0] == [];
    assert Total([b]) == Join(Empty, SummaryOf(b));
  }

  /** A minute whose raw rows are complete stays complete, and the rebuilt bucket stands for all of its samples. */
  lemma RebuiltMinute(l: Ladder, m: map<int, Summary>, sample: RawSample)
    requires LogShaped(m) && RawShaped(l.raw, m) && Shaped(l.l2, 60_000) && InClock(sample.capturedAtMs)
    requires MinuteFits(l.raw, m, MinuteOf(sample.capturedAtMs))
    requires var minute := MinuteOf(sample.capturedAtMs);
             Tile(l.l2, minute) == Sum(m, minute, minute + 60_000)
    requires !Partial(l, sample.capturedAtMs)
    ensures var t := sample.capturedAtMs;
            var minute := MinuteOf(t);
            var raw := l.raw[t := sample];
            var rows := RawIn(raw, minute, minute + 60_000);
            var n := Record(m, l, sample);
            && rows != []
            && AgreeOn(RawAbstract(raw), n, minute, minute + 60_000)
            && SummaryOf(Rebuild(minute, rows)) == Sum(n, minute, minute + 60_000)
  {
    var t := sample.capturedAtMs;
    var minute := MinuteOf(t);
    var raw := l.raw[t := sample];
    MinuteRowCount(l.raw, t, sample);
    CompleteMinuteAgrees(l, m, sample);
    SumAgrees(RawAbstract(raw), Record(m, l, sample), minute, minute + 60_000);
    RawTotal(raw, minute, minute + 60_000);
    RebuildKeepsSamples(minute, RawIn(raw, minute, minute + 60_000));
  }

  lemma CompleteMinuteAgrees(l: Ladder, m: map<int, Summary>, sample: RawSample)
    requires LogShaped(m) && RawShaped(l.raw, m) && Shaped(l.l2, 60_000) && InClock(sample.capturedAtMs)
    requires MinuteFits(l.raw, m, MinuteOf(sample.capturedAtMs))
    requires var minute := MinuteOf(sample.capturedAtMs);
             Tile(l.l2, minute) == Sum(m, minute, minute + 60_000)
    requires !Partial(l, sample.capturedAtMs)
    ensures var t := sample.capturedAtMs;
            AgreeOn(RawAbstract(l.raw[t := sample]), Record(m, l, sample), MinuteOf(t), MinuteOf(t) + 60_000)
  {
    var t := sample.capturedAtMs;
    var minute := MinuteOf(t);
    hide Sum, RawIn, SampleSummary, BucketStartFor;
    BucketAround(60_000, t);
    RawTotal(l.raw, minute, minute + 60_000);
    SumCountNonNegative(m, minute, minute + 60_000);
    assert AgreeOn(RawAbstract(l.raw), m, minute, minute + 60_000);
    var n, raw := Record(m, l, sample), l.raw[t := sample];
    assert At(m, t) == At(RawAbstract(l.raw), t);
    assert At(n, t) == At(RawAbstract(raw), t);
    assert forall v :: v != t ==> At(RawAbstract(raw), v) == At(RawAbstract(l.raw), v) && At(n, v) == At(m, v);
  }

  /** A minute known to be partial gets a new sample merged in, or keeps what it has, and stays provably partial. */
  lemma MergedMinute(l: Ladder, m: map<int, Summary>, sample: RawSample)
    requires LogShaped(m) && RawShaped(l.raw, m) && Shaped(l.l2, 60_000) && InClock(sample.capturedAtMs)
    requires var minute := MinuteOf(sample.capturedAtMs);
             Tile(l.l2, minute) == Sum(m, minute, minute + 60_000)
    requires Partial(l, sample.capturedAtMs)
    requires var minute := MinuteOf(sample.capturedAtMs);
             sample.capturedAtMs in l.raw ==> Sum(Record(m, l, sample), minute, minute + 60_000) == Sum(m, minute, minute + 60_000)
    ensures var t := sample.capturedAtMs;
            var minute := MinuteOf(t);
            var n := Record(m, l, sample);
            && MinuteFits(l.raw[t := sample], n, minute)
            && Sum(n, minute, minute + 60_000) ==
                 (if t in l.raw then Tile(l.l2, minute) else Join(Tile(l.l2, minute), SampleSummary(sample)))
  {
    var t := sample.capturedAtMs;
    var minute := MinuteOf(t);
    var n := Record(m, l, sample);
    BucketAround(60_000, t);
    hide Sum, RawIn, SampleSummary, BucketStartFor, SummaryOf, InClock, LogShaped, RawShaped, Shaped;
    if t !in l.raw {
      SumJoinAt(m, n, minute, minute + 60_000, t, SampleSummary(sample));
    }
    FewerThanSamples(l, n, sample);
  }

  lemma FewerThanSamples(l: Ladder, n: map<int, Summary>, sample: RawSample)
    requires InClock(sample.capturedAtMs) && Partial(l, sample.capturedAtMs)
    requires var t := sample.capturedAtMs;
             Sum(n, MinuteOf(t), MinuteOf(t) + 60_000) ==
               (if t in l.raw then Tile(l.l2, MinuteOf(t)) else Join(Tile(l.l2, MinuteOf(t)), SampleSummary(sample)))
    ensures MinuteFits(l.raw[sample.capturedAtMs := sample], n, MinuteOf(sample.capturedAtMs))
  {
    var t := sample.capturedAtMs;
    MinuteRowCount(l.raw, t, sample);
    RawTotal(l.raw[t := sample], MinuteOf(t), MinuteOf(t) + 60_000);
    hide Sum, RawIn, MinuteOf, InClock;
  }

  // ---------- One ancestor ----------

  lemma CountRange(table: Table, lo: int, hi: int)
    requires PositiveTable(table)
    ensures TotalCount(RowsIn(table, lo, hi)) > 0 <==> Sum(Abstract(table), lo, hi) != Empty
  {
    var rows := RowsIn(table, lo, hi);
    RowsTotal(table, lo, hi);
    RowsPositive(table, lo, hi);
    PositiveTotal(rows);
    if rows != [] {
      TotalOfCounts(rows);
    }
  }

  lemma MergeRange(table: Table, start: int, w: int, sample: RawSample)
    requires Coarse(w) && Shaped(table, w) && Aligned(w, start)
    ensures var b := Fold(start, RowsIn(table, start, start + w) + [RawToBucket(sample)]);
            b.Some? && b.value.sampleCount > 0 && SummaryOf(b.value) == Join(Tile(table, start), SampleSummary(sample))
  {
    var rows, last := RowsIn(table, start, start + w), RawToBucket(sample);
    RowsTotal(table, start, start + w);
    RowsPositive(table, start, start + w);
    TileSum(table, w, start);
    RawToBucketKeepsSample(sample);
    assert (rows + [last])[..|rows|] == rows;
    FoldKeepsSamples(start, rows + [last]);
  }

  lemma ShapedIsPositive(table: Table, w: int)
    requires w > 0 && Shaped(table, w)
    ensures PositiveTable(table)
  {
  }

  /** What the re-fold writes: everything the source has in the range, or what the target had plus the new sample. */
  lemma RefoldOutcome(u: Ladder, source: Tier, target: Tier, t: int, now: int, keepDays: int, sample: RawSample, newRow: bool)
    requires Promotes(source, target) && InClock(t)
    requires Shaped(u.Rows(source), source.ResolutionMs()) && Shaped(u.Rows(target), target.ResolutionMs())
    ensures var w := target.ResolutionMs();
            var start := BucketStartFor(w, t);
            var r := RefoldOne(u, source, target, start, now, keepDays, RawToBucket(sample), newRow);
            var sum := Sum(Abstract(u.Rows(source)), start, start + w);
            && r == u.WithRows(target, r.Rows(target))
            && (forall k :: k != start ==> Tile(r.Rows(target), k) == Tile(u.Rows(target), k))
            && Shaped(r.Rows(target), w)
            && Tile(r.Rows(target), start) ==
                 (if sum != Empty && start >= SatSub(now, KeepMs(keepDays)) then sum
                  else if newRow then Join(Tile(u.Rows(target), start), SampleSummary(sample))
                  else Tile(u.Rows(target), start))
  {
    hide Fold, RowsIn, TotalCount, Sum, Abstract, BucketStartFor, Join, SampleSummary, SummaryOf, KeepMs, RefoldOne, InClock,
         RawToBucket, Aligned, Shaped, Tile;
    var w := target.ResolutionMs();
    var start := BucketStartFor(w, t);
    BucketAround(w, t);
    ShapedIsPositive(u.Rows(source), source.ResolutionMs());
    CountRange(u.Rows(source), start, start + w);
    var whole := Fold(start, RowsIn(u.Rows(source), start, start + w));
    var merged := Fold(start, RowsIn(u.Rows(target), start, start + w) + [RawToBucket(sample)]);
    FoldRange(u.Rows(source), start, start, start + w);
    MergeRange(u.Rows(target), start, w, sample);
    var sum := Sum(Abstract(u.Rows(source)), start, start + w);
    var recent := start >= SatSub(now, KeepMs(keepDays));
    RefoldDecision(u, source, target, start, now, keepDays, RawToBucket(sample), newRow);
    if sum != Empty && recent {
      RowWritten(u, target, start, whole.value);
    } else if newRow {
      RowWritten(u, target, start, merged.value);
    } else {
      RowKept(u, target);
    }
  }

  /** `RefoldOne` by its two decisions. */
  lemma RefoldDecision(u: Ladder, source: Tier, target: Tier, start: int, now: int, keepDays: int,
                       newSample: TierBucket, newRow: bool)
    requires Promotes(source, target)
    requires SatAdd(start, target.ResolutionMs()) == start + target.ResolutionMs()
    ensures var w := target.ResolutionMs();
            var finer := RowsIn(u.Rows(source), start, start + w);
            var whole := Fold(start, finer);
            var merged := Fold(start, RowsIn(u.Rows(target), start, start + w) + [newSample]);
            var bucket := if TotalCount(finer) > 0 && start >= SatSub(now, KeepMs(keepDays)) then whole
                          else if newRow then merged else None;
            RefoldOne(u, source, target, start, now, keepDays, newSample, newRow) ==
              if bucket.Some? then u.WithRows(target, u.Rows(target)[start := bucket.value]) else u
  {
    hide Fold, RowsIn, TotalCount, KeepMs;
  }

  lemma RowWritten(u: Ladder, target: Tier, start: int, b: TierBucket)
    requires target == L3 || target == L4
    requires Shaped(u.Rows(target), target.ResolutionMs())
    requires Aligned(target.ResolutionMs(), start) && InClock(start) && b.sampleCount > 0
    ensures var r := u.WithRows(target, u.Rows(target)[start := b]);
            && r == u.WithRows(target, r.Rows(target))
            && (forall k :: k != start ==> Tile(r.Rows(target), k) == Tile(u.Rows(target), k))
            && Tile(r.Rows(target), start) == SummaryOf(b)
            && Shaped(r.Rows(target), target.ResolutionMs())
  {
    hide SummaryOf, InClock;
  }

  lemma RowKept(u: Ladder, target: Tier)
    requires target == L3 || target == L4
    ensures u == u.WithRows(target, u.Rows(target))
  {
  }

  /** A re-fold makes its target tile stand for every sample now recorded in it. */
  lemma RefoldExact(u: Ladder, source: Tier, target: Tier, t: int, now: int, keepDays: int, sample: RawSample, newRow: bool,
                    m: map<int, Summary>, n: map<int, Summary>, sourceHorizon: int, sourceUntil: int, horizon: int, until: int)
    requires Promotes(source, target) && InClock(t)
    requires Shaped(u.Rows(source), source.ResolutionMs()) && Shaped(u.Rows(target), target.ResolutionMs())
    requires Exact(u.Rows(source), n, source.ResolutionMs(), sourceHorizon, sourceUntil)
    requires Exact(u.Rows(target), m, target.ResolutionMs(), horizon, until)
    requires sourceHorizon <= SatSub(now, KeepMs(keepDays))
    requires BucketStartFor(target.ResolutionMs(), t) + target.ResolutionMs() <= sourceUntil
    requires OnlyAt(m, n, t) && Positive(n) && t in n
    requires newRow ==> At(n, t) == Join(At(m, t), SampleSummary(sample))
    requires var start, w := BucketStartFor(target.ResolutionMs(), t), target.ResolutionMs();
             || newRow || Sum(n, start, start + w) == Sum(m, start, start + w)
             || BucketStartFor(target.ResolutionMs(), t) >= SatSub(now, KeepMs(keepDays))
             || BucketStartFor(target.ResolutionMs(), t) + target.ResolutionMs() <= horizon
    ensures var start := BucketStartFor(target.ResolutionMs(), t);
            var r := RefoldOne(u, source, target, start, now, keepDays, RawToBucket(sample), newRow);
            && r == u.WithRows(target, r.Rows(target))
            && Shaped(r.Rows(target), target.ResolutionMs())
            && (forall k :: k != start ==> Tile(r.Rows(target), k) == Tile(u.Rows(target), k))
            && Exact(r.Rows(target), n, target.ResolutionMs(), horizon, until)
  {
    hide Exact, Shaped, Positive, BucketStartFor, InClock, Sum, Join, SampleSummary, KeepMs, RefoldOne, Abstract, Tile, Aligned,
         OnlyAt, At, SatSub, RawToBucket;
    var w := target.ResolutionMs();
    var start := BucketStartFor(w, t);
    var r := RefoldOne(u, source, target, start, now, keepDays, RawToBucket(sample), newRow);
    RefoldOutcome(u, source, target, t, now, keepDays, sample, newRow);
    BucketAround(w, t);
    if start >= SatSub(now, KeepMs(keepDays)) {
      SourceCovers(u.Rows(source), n, source.ResolutionMs(), w, start, sourceHorizon, sourceUntil);
      SumHolds(n, t, start, start + w);
    } else if newRow {
      JoinedSum(m, n, t, start, start + w, SampleSummary(sample));
      OldTile(u.Rows(target), m, w, horizon, until, start);
    } else if Sum(n, start, start + w) == Sum(m, start, start + w) {
      OldTile(u.Rows(target), m, w, horizon, until, start);
    }
    WriteTile(u.Rows(target), r.Rows(target), m, n, w, t, start, horizon, until);
  }

  lemma JoinedSum(m: map<int, Summary>, n: map<int, Summary>, t: int, lo: int, hi: int, s: Summary)
    requires OnlyAt(m, n, t) && lo <= t < hi && At(n, t) == Join(At(m, t), s)
    ensures Sum(n, lo, hi) == Join(Sum(m, lo, hi), s)
  {
    SumJoinAt(m, n, lo, hi, t, s);
  }

  lemma OldTile(table: Table, m: map<int, Summary>, w: int, horizon: int, until: int, start: int)
    requires w > 0 && Exact(table, m, w, horizon, until) && Aligned(w, start) && InClock(start)
    ensures horizon < start + w <= until ==> Tile(table, start) == Sum(m, start, start + w)
  {
  }

  // ---------- The minute tier after an insert ----------

  /** The new minute table, given what its one changed row stands for. */
  ghost predicate MinuteTier(l2: Table, raw: map<int, RawSample>, n: map<int, Summary>, horizon: int) {
    && Shaped(l2, 60_000)
    && Backed(l2, n, 60_000)
    && Exact(l2, n, 60_000, horizon, I64_MAX)
    && RawFits(raw, n, horizon)
  }

  lemma FitsElsewhere(l: Ladder, m: map<int, Summary>, n: map<int, Summary>, sample: RawSample, horizon: int)
    requires RawFits(l.raw, m, horizon) && InClock(sample.capturedAtMs) && OnlyAt(m, n, sample.capturedAtMs)
    requires var minute := MinuteOf(sample.capturedAtMs);
             horizon < minute + 60_000 ==> MinuteFits(StoredRaw(l, sample), n, minute)
    ensures RawFits(StoredRaw(l, sample), n, horizon)
  {
    var t := sample.capturedAtMs;
    BucketAround(60_000, t);
    forall minute | Aligned(60_000, minute) && InClock(minute) && horizon < minute + 60_000 && minute != MinuteOf(t)
      ensures MinuteFits(StoredRaw(l, sample), n, minute)
    {
      if minute <= t < minute + 60_000 {
        AlignedApart(60_000, minute, MinuteOf(t));
      }
      SumElsewhere(m, n, t, minute, minute + 60_000);
      SumElsewhere(RawAbstract(l.raw), RawAbstract(StoredRaw(l, sample)), t, minute, minute + 60_000);
      assert MinuteFits(l.raw, m, minute);
    }
  }

  lemma BackedAfter(table: Table, after: Table, m: map<int, Summary>, n: map<int, Summary>, w: int, t: int, start: int)
    requires Backed(table, m, w) && OnlyAt(m, n, t) && Positive(n) && t in n
    requires start <= t < start + w
    requires forall k :: k != start ==> Tile(after, k) == Tile(table, k)
    ensures Backed(after, n, w)
  {
    StaysBacked(table, m, n, w, t);
    SumHolds(n, t, start, start + w);
    assert forall k :: k in after && k != start ==> Tile(after, k) != Empty && k in table;
  }

  /** One row written at the minute of the sample. */
  lemma MinuteWritten(l: Ladder, m: map<int, Summary>, sample: RawSample, horizon: int, b: TierBucket)
    requires LogShaped(m) && RawShaped(l.raw, m) && Shaped(l.l2, 60_000) && InClock(sample.capturedAtMs)
    requires Backed(l.l2, m, 60_000) && Exact(l.l2, m, 60_000, horizon, I64_MAX) && RawFits(l.raw, m, horizon)
    requires b.sampleCount > 0
    requires var minute := MinuteOf(sample.capturedAtMs);
             var n := Record(m, l, sample);
             horizon < minute + 60_000 ==>
               SummaryOf(b) == Sum(n, minute, minute + 60_000) && MinuteFits(StoredRaw(l, sample), n, minute)
    ensures MinuteTier(l.l2[MinuteOf(sample.capturedAtMs) := b], StoredRaw(l, sample), Record(m, l, sample), horizon)
  {
    var t := sample.capturedAtMs;
    var minute := MinuteOf(t);
    var n := Record(m, l, sample);
    var after := l.l2[minute := b];
    BucketAround(60_000, t);
    RecordShaped(m, l, sample);
    hide Record, Exact, RawFits, Backed, InClock, BucketStartFor, SummaryOf, Sum, MinuteFits, LogShaped, RawShaped;
    FitsElsewhere(l, m, n, sample, horizon);
    assert LogShaped(n) ==> Positive(n) by { PositiveLog(n); }
    BackedAfter(l.l2, after, m, n, 60_000, t, minute);
    WriteTile(l.l2, after, m, n, 60_000, t, minute, horizon, I64_MAX);
  }

  lemma PositiveLog(m: map<int, Summary>)
    ensures LogShaped(m) ==> Positive(m)
  {
  }

  /** What the minute tier needs before an insert: the part of the invariant that speaks of it. */
  ghost predicate MinuteReady(l: Ladder, m: map<int, Summary>, horizon: int) {
    && LogShaped(m) && RawShaped(l.raw, m) && Shaped(l.l2, 60_000)
    && Backed(l.l2, m, 60_000) && Exact(l.l2, m, 60_000, horizon, I64_MAX) && RawFits(l.raw, m, horizon)
  }

  lemma MinuteKnown(l: Ladder, m: map<int, Summary>, horizon: int, t: int)
    requires MinuteReady(l, m, horizon) && InClock(t) && horizon < MinuteOf(t) + 60_000
    ensures Tile(l.l2, MinuteOf(t)) == Sum(m, MinuteOf(t), MinuteOf(t) + 60_000)
    ensures MinuteFits(l.raw, m, MinuteOf(t))
  {
    BucketAround(60_000, t);
  }

  lemma MergedTier(l: Ladder, m: map<int, Summary>, sample: RawSample, horizon: int)
    requires MinuteReady(l, m, horizon) && InClock(sample.capturedAtMs)
    requires sample.capturedAtMs !in l.raw && Partial(l, sample.capturedAtMs) && !HidesPrunedRow(l, sample.capturedAtMs)
    ensures Updated(l, sample).1 == Merged
    ensures MinuteTier(Updated(l, sample).0, StoredRaw(l, sample), Record(m, l, sample), horizon)
  {
    var t := sample.capturedAtMs;
    var minute := MinuteOf(t);
    MergedCase(l, sample);
    FoldPair(minute, l.l2[minute], sample);
    hide Exact, RawFits, Backed, InClock, BucketStartFor, RowCount, Updated, MinuteTier, SummaryOf, Sum, Fold, Record;
    if horizon < minute + 60_000 {
      MinuteKnown(l, m, horizon, t);
      MergedMinute(l, m, sample);
    }
    MinuteWritten(l, m, sample, horizon, Fold(minute, [l.l2[minute], RawToBucket(sample)]).value);
  }

  lemma RebuiltTier(l: Ladder, m: map<int, Summary>, sample: RawSample, horizon: int)
    requires MinuteReady(l, m, horizon) && InClock(sample.capturedAtMs)
    requires !Partial(l, sample.capturedAtMs)
             || (HidesPrunedRow(l, sample.capturedAtMs) && MinuteOf(sample.capturedAtMs) + 60_000 <= horizon)
    ensures Updated(l, sample).1 == Rebuilt
    ensures MinuteTier(Updated(l, sample).0, StoredRaw(l, sample), Record(m, l, sample), horizon)
  {
    var t := sample.capturedAtMs;
    var minute := MinuteOf(t);
    RebuiltCase(l, sample);
    RebuildKeepsSamples(minute, MinuteRows(l, sample));
    hide Exact, RawFits, Backed, InClock, BucketStartFor, RowCount, Updated, MinuteTier, SummaryOf, Sum, Rebuild, Record,
         Partial, HidesPrunedRow;
    if horizon < minute + 60_000 {
      MinuteKnown(l, m, horizon, t);
      RebuiltMinute(l, m, sample);
      AgreementFits(StoredRaw(l, sample), Record(m, l, sample), minute);
    }
    MinuteWritten(l, m, sample, horizon, Rebuild(minute, MinuteRows(l, sample)));
  }

  /** A partial minute keeps its row when a sample is replayed: it is right only if it has expired or nothing of its total
    * has changed. */
  ghost predicate KeptRight(l: Ladder, m: map<int, Summary>, sample: RawSample, horizon: int) {
    var minute := MinuteOf(sample.capturedAtMs);
    sample.capturedAtMs in l.raw && Partial(l, sample.capturedAtMs) && horizon < minute + 60_000 ==>
      Sum(Record(m, l, sample), minute, minute + 60_000) == Sum(m, minute, minute + 60_000)
  }

  /** What the insert leaves of the minute tier. */
  lemma UpdatedKeeps(l: Ladder, m: map<int, Summary>, sample: RawSample, horizon: int)
    requires MinuteReady(l, m, horizon) && InClock(sample.capturedAtMs)
    requires HidesPrunedRow(l, sample.capturedAtMs) ==> MinuteOf(sample.capturedAtMs) + 60_000 <= horizon
    requires KeptRight(l, m, sample, horizon)
    ensures var (l2, change) := Updated(l, sample);
            && MinuteTier(l2, StoredRaw(l, sample), Record(m, l, sample), horizon)
            && change != Refused
            && (change == Kept <==> sample.capturedAtMs in l.raw && Partial(l, sample.capturedAtMs))
            && (change == Kept ==> l2 == l.l2)
  {
    var t := sample.capturedAtMs;
    hide Exact, RawFits, Backed, InClock, BucketStartFor, RowCount, Updated, MinuteTier, Record;
    if Partial(l, t) && t in l.raw {
      KeptCase(l, sample);
      KeptTier(l, m, sample, horizon);
    } else if Partial(l, t) && !HidesPrunedRow(l, t) {
      MergedTier(l, m, sample, horizon);
    } else {
      RebuiltTier(l, m, sample, horizon);
    }
  }

  lemma AgreementFits(raw: map<int, RawSample>, n: map<int, Summary>, minute: int)
    requires AgreeOn(RawAbstract(raw), n, minute, minute + 60_000)
    ensures MinuteFits(raw, n, minute)
  {
  }

  /** A tier that is left alone stays exact if nothing of the total around `t` has changed there. */
  lemma LeftExact(table: Table, m: map<int, Summary>, n: map<int, Summary>, w: int, t: int, start: int, horizon: int, until: int)
    requires w > 0 && Aligned(w, start) && InClock(start) && start <= t < start + w
    requires Exact(table, m, w, horizon, until) && OnlyAt(m, n, t)
    requires horizon < start + w <= until ==> Sum(n, start, start + w) == Sum(m, start, start + w)
    ensures Exact(table, n, w, horizon, until)
  {
    OldTile(table, m, w, horizon, until, start);
    hide Sum;
    WriteTile(table, table, m, n, w, t, start, horizon, until);
  }

  lemma KeptTier(l: Ladder, m: map<int, Summary>, sample: RawSample, horizon: int)
    requires MinuteReady(l, m, horizon) && InClock(sample.capturedAtMs) && KeptRight(l, m, sample, horizon)
    requires sample.capturedAtMs in l.raw && Partial(l, sample.capturedAtMs)
    ensures MinuteTier(l.l2, StoredRaw(l, sample), Record(m, l, sample), horizon)
  {
    var t, n := sample.capturedAtMs, Record(m, l, sample);
    var minute := MinuteOf(t);
    BucketAround(60_000, t);
    RecordShaped(m, l, sample);
    hide Exact, RawFits, Backed, InClock, BucketStartFor, RowCount, Record, LogShaped, RawShaped, Sum, Partial;
    if horizon < minute + 60_000 {
      MinuteKnown(l, m, horizon, t);
      MergedMinute(l, m, sample);
    }
    FitsElsewhere(l, m, n, sample, horizon);
    PositiveLog(n);
    StaysBacked(l.l2, m, n, 60_000, t);
    LeftExact(l.l2, m, n, 60_000, t, minute, horizon, I64_MAX);
  }
}

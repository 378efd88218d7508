/** What every reachable ladder keeps: each unexpired bucket below its watermark stands for exactly
  * the samples recorded in its range. */
module LadderInvariant {
  import opened Prelude
  import opened Summaries
  import opened TierFold
  import opened TimeGrid
  import opened LadderModel
  import opened LadderTables

  /** The specification's view of a run: every sample recorded so far, by capture time, and the latest clock reading. */
  datatype Log = Log(recorded: map<int, Summary>, clock: int)

  ghost predicate Shaped(table: Table, w: int)
    requires w > 0
  {
    forall k :: k in table ==> Aligned(w, k) && InClock(k) && table[k].sampleCount > 0
  }

  /** Every bucket has a recorded sample in its range. */
  ghost predicate Backed(table: Table, m: map<int, Summary>, w: int) {
    forall k :: k in table ==> Sum(m, k, k + w) != Empty
  }

  /** Tiles that end after `horizon` and at or before `until` stand for exactly the samples recorded in them. */
  ghost predicate Exact(table: Table, m: map<int, Summary>, w: int, horizon: int, until: int)
    requires w > 0
  {
    forall k :: Aligned(w, k) && InClock(k) && horizon < k + w <= until ==> Tile(table, k) == Sum(m, k, k + w)
  }

  /** A minute's raw rows are all of its samples, or provably fewer. */
  ghost predicate MinuteFits(raw: map<int, RawSample>, m: map<int, Summary>, minute: int) {
    || Sum(RawAbstract(raw), minute, minute + 60_000).Count() < Sum(m, minute, minute + 60_000).Count()
    || AgreeOn(RawAbstract(raw), m, minute, minute + 60_000)
  }

  ghost predicate RawFits(raw: map<int, RawSample>, m: map<int, Summary>, horizon: int) {
    forall minute :: Aligned(60_000, minute) && InClock(minute) && horizon < minute + 60_000 ==>
      MinuteFits(raw, m, minute)
  }

  ghost predicate RawShaped(raw: map<int, RawSample>, m: map<int, Summary>) {
    forall t :: t in raw ==> InClock(t) && raw[t].capturedAtMs == t && t in m
  }

  ghost predicate MarkShaped(mark: Option<int>, w: int, enabled: bool)
    requires w > 0
  {
    mark.Some? ==> Aligned(w, mark.value) && I64_MIN <= mark.value <= I64_MAX && enabled
  }

  /** A persisted flag is the configuration's; it may be missing as long as writing it has failed. */
  ghost predicate FlagsShaped(c: Config, l: Ladder) {
    && (l.l3Enabled.Some? ==> l.l3Enabled.value == c.l3.enabled)
    && (l.l4Enabled.Some? ==> l.l4Enabled.value == c.l4.enabled)
  }

  /** With both tiers on, L4 never runs ahead of L3. */
  ghost predicate MarksNest(c: Config, l: Ladder) {
    c.l3.enabled && c.l4.enabled && l.l4FoldedUntil.Some? ==>
      l.l3FoldedUntil.Some? && l.l4FoldedUntil.value <= l.l3FoldedUntil.value
  }

  ghost predicate WellFormed(c: Config, l: Ladder) {
    && Shaped(l.l2, 60_000) && Shaped(l.l3, 300_000) && Shaped(l.l4, 3_600_000)
    && MarkShaped(l.l3FoldedUntil, 300_000, c.l3.enabled)
    && MarkShaped(l.l4FoldedUntil, 3_600_000, c.l4.enabled)
    && FlagsShaped(c, l)
    && MarksNest(c, l)
    && (!c.l3.enabled ==> l.l3 == map[])
  }

  function L2Horizon(c: Config, l: Ladder, clock: int): int {
    L2Cutoff(c, clock, l.l3FoldedUntil, l.l4FoldedUntil)
  }

  function L3Horizon(c: Config, l: Ladder, clock: int): int { L3Cutoff(c, clock, l.l4FoldedUntil) }

  function L4Horizon(c: Config, clock: int): int { if L4Expires(c) then L4Cutoff(c, clock) else I64_MIN }

  /** A summary of one sample taken at `t`. */
  predicate Single(s: Summary, t: int)
    requires s.Of?
  {
    && s.first == t && s.newest == t
    && s.cpu == Agg(s.cpu.sum, s.cpu.sum, s.cpu.sum) && s.memory == Agg(s.memory.sum, s.memory.sum, s.memory.sum)
    && s.swap == Agg(s.swap.sum, s.swap.sum, s.swap.sum) && s.load == Agg(s.load.sum, s.load.sum, s.load.sum)
  }

  ghost predicate LogShaped(m: map<int, Summary>) {
    && Positive(m)
    && (forall t :: t in m ==> InClock(t))
    && (forall t :: t in m && m[t].count == 1 ==> Single(m[t], t))
  }

  ghost predicate TiersBacked(l: Ladder, m: map<int, Summary>) {
    && Backed(l.l2, m, 60_000)
    && Backed(l.l3, m, 300_000)
    && Backed(l.l4, m, 3_600_000)
  }

  ghost predicate TiersExact(c: Config, l: Ladder, log: Log) {
    && Exact(l.l2, log.recorded, 60_000, L2Horizon(c, l, log.clock), I64_MAX)
    && Exact(l.l3, log.recorded, 300_000, L3Horizon(c, l, log.clock), RequiredWatermark(l.l3FoldedUntil))
    && Exact(l.l4, log.recorded, 3_600_000, L4Horizon(c, log.clock), RequiredWatermark(l.l4FoldedUntil))
  }

  /** The invariant of a run. */
  ghost predicate Valid(c: Config, l: Ladder, log: Log) {
    && WellFormed(c, l)
    && LogShaped(log.recorded)
    && RawShaped(l.raw, log.recorded)
    && RawFits(l.raw, log.recorded, L2Horizon(c, l, log.clock))
    && TiersBacked(l, log.recorded)
    && TiersExact(c, l, log)
  }

  lemma EmptyIsValid(c: Config, clock: int)
    ensures Valid(c, EMPTY_LADDER, Log(map[], clock))
  {
    forall lo: int, hi: int
      ensures Sum(map[], lo, hi) == Empty
    {
      SumNone(map[], lo, hi);
    }
    assert RawAbstract(map[]) == map[];
  }

  /** Time passing only lets buckets expire. */
  lemma TimePasses(c: Config, l: Ladder, log: Log, now: int)
    requires Valid(c, l, log) && log.clock <= now
    ensures Valid(c, l, log.(clock := now))
  {
    assert L2Horizon(c, l, log.clock) <= L2Horizon(c, l, now);
    assert L3Horizon(c, l, log.clock) <= L3Horizon(c, l, now);
    assert L4Horizon(c, log.clock) <= L4Horizon(c, now);
  }

  /** If a source tier is exact over a coarse tile, its buckets there add up to the samples recorded there. */
  lemma SourceCovers(source: Table, m: map<int, Summary>, w: int, coarse: int, tile: int, horizon: int, until: int)
    requires Coarse(w) && Coarse(coarse) && w <= coarse
    requires Shaped(source, w)
    requires Exact(source, m, w, horizon, until)
    requires Aligned(coarse, tile) && InClock(tile)
    requires horizon <= tile && tile + coarse <= until
    ensures Sum(Abstract(source), tile, tile + coarse) == Sum(m, tile, tile + coarse)
  {
    NextBoundary(coarse, tile);
    AlignedRefines(w, coarse, tile);
    AlignedRefines(w, coarse, tile + coarse);
    forall k | Aligned(w, k) && tile <= k && k + w <= tile + coarse
      ensures Tile(source, k) == Sum(m, k, k + w)
    {
      InsideClock(coarse, tile, k);
    }
    TilesCover(source, m, w, tile, tile + coarse);
  }
}

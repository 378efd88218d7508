/** The time arithmetic of the tiers (`ladder.rs`): bucket starts, completeness, and how the grids nest. */
module TimeGrid {
  import opened Prelude

  const HOUR_MS: int := 3_600_000

  function BucketStartFor(resolutionMs: int, timestampMs: int): int
    requires resolutionMs > 0
  {
    SatMul(timestampMs / resolutionMs, resolutionMs)
  }

  predicate IsComplete(bucketStartMs: int, resolutionMs: int, graceMs: int, nowMs: int) {
    SatAdd(SatAdd(bucketStartMs, resolutionMs), graceMs) <= nowMs
  }

  function GraceMs(pollIntervalMs: int): int { Max(3_000, SatMul(pollIntervalMs, 2)) }

  predicate Aligned(w: int, t: int)
    requires w > 0
  {
    t % w == 0
  }

  /** The boundary at or before `t`. */
  function Floor(w: int, t: int): int
    requires w > 0
  {
    t / w * w
  }

  /** The hour around `t` lies inside the range of `i64`. Only the outermost hour at each end does not. */
  predicate InClock(t: int) {
    I64_MIN <= Floor(HOUR_MS, t) && Floor(HOUR_MS, t) + HOUR_MS <= I64_MAX
  }

  /** The resolutions of the three bucket tiers. */
  predicate Coarse(w: int) {
    w == 60_000 || w == 300_000 || w == 3_600_000
  }

  // ---------- One grid ----------

  lemma SmallMultiple(w: int, k: int)
    requires w > 0 && -w < w * k < w
    ensures k == 0
  {
    assert k >= 1 ==> w * k >= w;
    assert k <= -1 ==> w * k <= -w;
  }

  lemma MultipleIsAligned(w: int, k: int)
    requires w > 0
    ensures Aligned(w, w * k)
  {
    var q, r := w * k / w, w * k % w;
    assert w * k == w * q + r;
    assert w * (k - q) == w * k - w * q == r;
    SmallMultiple(w, k - q);
  }

  lemma AlignedIsMultiple(w: int, t: int)
    requires w > 0 && Aligned(w, t)
    ensures t == w * (t / w)
  {
  }

  lemma FloorAround(w: int, t: int)
    requires w > 0
    ensures Aligned(w, Floor(w, t)) && Floor(w, t) <= t < Floor(w, t) + w
  {
    var q := t / w;
    assert t == w * q + t % w;
    assert Floor(w, t) == w * q;
    MultipleIsAligned(w, q);
  }

  /** Two aligned times closer than one bucket are the same time. */
  lemma AlignedApart(w: int, a: int, b: int)
    requires w > 0
    requires Aligned(w, a) && Aligned(w, b)
    requires a - w < b < a + w
    ensures a == b
  {
    AlignedIsMultiple(w, a);
    AlignedIsMultiple(w, b);
    var p, q := a / w, b / w;
    assert w * (p - q) == w * p - w * q;
    SmallMultiple(w, p - q);
  }

  /** The boundary at or before `t` is the only aligned start of an interval around `t`. */
  lemma FloorUnique(w: int, t: int, start: int)
    requires w > 0 && Aligned(w, start) && start <= t < start + w
    ensures start == Floor(w, t)
  {
    hide Floor, Aligned;
    FloorAround(w, t);
    AlignedApart(w, start, Floor(w, t));
  }

  /** A boundary at or before `t` is at or before the start of the bucket around `t`. */
  lemma AlignedBefore(w: int, a: int, start: int, t: int)
    requires w > 0
    requires Aligned(w, a) && Aligned(w, start)
    requires a <= t && start <= t < start + w
    ensures a <= start
  {
    hide Aligned;
    if a > start {
      AlignedApart(w, a, start);
    }
  }

  /** A bucket that starts before a boundary ends at or before it. */
  lemma AlignedInside(w: int, start: int, boundary: int)
    requires w > 0
    requires Aligned(w, start) && Aligned(w, boundary)
    requires start < boundary
    ensures start + w <= boundary
  {
    hide Aligned;
    if boundary < start + w {
      AlignedApart(w, start, boundary);
    }
  }

  /** A bucket that ends after a boundary starts at or after it. */
  lemma FromBoundary(w: int, start: int, boundary: int)
    requires w > 0
    requires Aligned(w, start) && Aligned(w, boundary)
    requires boundary < start + w
    ensures boundary <= start
  {
    hide Aligned;
    if start < boundary {
      AlignedInside(w, start, boundary);
    }
  }

  lemma NextBoundary(w: int, a: int)
    requires w > 0 && Aligned(w, a)
    ensures Aligned(w, a + w) && Aligned(w, a - w)
  {
    AlignedIsMultiple(w, a);
    var q := a / w;
    assert w * (q + 1) == w * q + w && w * (q - 1) == w * q - w;
    MultipleIsAligned(w, q + 1);
    MultipleIsAligned(w, q - 1);
  }

  // ---------- Nested grids ----------

  /** A coarse boundary is a fine boundary. */
  lemma AlignedRefines(fine: int, coarse: int, a: int)
    requires Coarse(fine) && Coarse(coarse) && fine <= coarse
    requires Aligned(coarse, a)
    ensures Aligned(fine, a)
  {
    AlignedIsMultiple(coarse, a);
    var q := a / coarse;
    var n := if fine == coarse then 1 else if coarse == 300_000 then 5 else if fine == 60_000 then 60 else 12;
    assert coarse == fine * n;
    assert coarse * q == fine * (n * q);
    MultipleIsAligned(fine, n * q);
  }

  /** The hour of a time is the hour of every boundary inside that hour. */
  lemma SameHour(t: int, u: int)
    requires Floor(HOUR_MS, t) <= u < Floor(HOUR_MS, t) + HOUR_MS
    ensures Floor(HOUR_MS, u) == Floor(HOUR_MS, t)
    ensures InClock(t) <==> InClock(u)
  {
    FloorAround(HOUR_MS, t);
    FloorUnique(HOUR_MS, u, Floor(HOUR_MS, t));
  }

  /** A bucket stays inside the hour of any time in it. */
  lemma BucketInHour(w: int, t: int)
    requires Coarse(w)
    ensures Floor(HOUR_MS, t) <= Floor(w, t) && Floor(w, t) + w <= Floor(HOUR_MS, t) + HOUR_MS
  {
    hide Floor, Aligned;
    FloorAround(w, t);
    FloorAround(HOUR_MS, t);
    NextBoundary(HOUR_MS, Floor(HOUR_MS, t));
    AlignedRefines(w, HOUR_MS, Floor(HOUR_MS, t));
    AlignedRefines(w, HOUR_MS, Floor(HOUR_MS, t) + HOUR_MS);
    AlignedBefore(w, Floor(HOUR_MS, t), Floor(w, t), t);
    AlignedInside(w, Floor(w, t), Floor(HOUR_MS, t) + HOUR_MS);
  }

  lemma BucketStartIsFloor(w: int, t: int)
    requires w > 0
    ensures BucketStartFor(w, t) == Clamp(Floor(w, t))
  {
  }

  /** Inside the clock range the bucket of `t` is the aligned interval around `t`, and its end does not saturate. */
  lemma BucketAround(w: int, t: int)
    requires Coarse(w)
    requires InClock(t)
    ensures var start := BucketStartFor(w, t);
            && start == Floor(w, t)
            && start <= t < start + w
            && Aligned(w, start)
            && InClock(start)
            && I64_MIN <= start && start + w <= I64_MAX
            && SatAdd(start, w) == start + w
  {
    hide Floor, Aligned, BucketStartFor;
    BucketStartIsFloor(w, t);
    BucketInHour(w, t);
    FloorAround(w, t);
    SameHour(t, Floor(w, t));
  }

  /** The bucket of `t` is the only aligned interval around `t`. */
  lemma BucketUnique(w: int, t: int, start: int)
    requires Coarse(w)
    requires InClock(t)
    requires Aligned(w, start) && start <= t < start + w
    ensures start == BucketStartFor(w, t)
  {
    BucketAround(w, t);
    FloorUnique(w, t, start);
  }

  /** The bucket start is the boundary at or before `t` exactly when saturation does not bite. */
  lemma BucketStartSound(w: int, t: int)
    requires Coarse(w)
    requires I64_MIN <= t <= I64_MAX
    ensures BucketStartFor(w, t) == Floor(w, t) <==> Floor(w, t) >= I64_MIN
  {
    BucketStartIsFloor(w, t);
    FloorAround(w, t);
  }

  /** Buckets nest: a sample's coarse bucket holds its whole finer bucket and is that bucket's coarse bucket. */
  lemma BucketsNest(fine: int, coarse: int, t: int)
    requires Coarse(fine) && Coarse(coarse) && fine <= coarse
    requires InClock(t)
    ensures var inner, outer := BucketStartFor(fine, t), BucketStartFor(coarse, t);
            && outer <= inner && inner + fine <= outer + coarse
            && BucketStartFor(coarse, inner) == outer
  {
    hide Floor, Aligned, BucketStartFor, InClock;
    BucketAround(fine, t);
    BucketAround(coarse, t);
    var inner, outer := BucketStartFor(fine, t), BucketStartFor(coarse, t);
    NextBoundary(coarse, outer);
    AlignedRefines(fine, coarse, outer);
    AlignedRefines(fine, coarse, outer + coarse);
    AlignedBefore(fine, outer, inner, t);
    AlignedInside(fine, inner, outer + coarse);
    BucketUnique(coarse, inner, outer);
  }

  /** Every time inside a bucket of the clock range is in the clock range. */
  lemma InsideClock(w: int, start: int, t: int)
    requires Coarse(w) && Aligned(w, start) && InClock(start)
    requires start <= t < start + w
    ensures InClock(t)
  {
    hide Floor, Aligned, InClock;
    BucketInHour(w, start);
    FloorUnique(w, start, start);
    FloorAround(HOUR_MS, start);
    NextBoundary(HOUR_MS, Floor(HOUR_MS, start));
    AlignedRefines(w, HOUR_MS, Floor(HOUR_MS, start) + HOUR_MS);
    AlignedInside(w, start, Floor(HOUR_MS, start) + HOUR_MS);
    SameHour(start, t);
  }

  /** A bucket of the clock range lies inside `i64`. */
  lemma ClockBounds(w: int, start: int)
    requires Coarse(w) && Aligned(w, start) && InClock(start)
    ensures I64_MIN <= start && start + w <= I64_MAX
  {
    FloorUnique(w, start, start);
    BucketAround(w, start);
  }
}

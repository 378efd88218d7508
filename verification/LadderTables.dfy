/** What the stored tables stand for: each one read as a map from time to the samples recorded there. */
module LadderTables {
  import opened Prelude
  import opened Summaries
  import opened TierFold
  import opened TimeGrid
  import opened LadderModel

  function Abstract(table: Table): map<int, Summary> {
    map k | k in table :: SummaryOf(table[k])
  }

  function RawAbstract(raw: map<int, RawSample>): map<int, Summary> {
    map t | t in raw :: SampleSummary(raw[t])
  }

  ghost predicate PositiveTable(table: Table) {
    forall k :: k in table ==> table[k].sampleCount > 0
  }

  ghost predicate Keyed(raw: map<int, RawSample>) {
    forall t :: t in raw ==> raw[t].capturedAtMs == t
  }

  // ---------- Reading a range of buckets ----------

  lemma {:induction false} RowsTotal(table: Table, lo: int, hi: int)
    ensures Total(RowsIn(table, lo, hi)) == Sum(Abstract(table), lo, hi)
    decreases hi - lo
  {
    if lo < hi {
      RowsTotal(table, lo, hi - 1);
      var init := RowsIn(table, lo, hi - 1);
      if hi - 1 in table {
        assert (init + [table[hi - 1]])[..|init|] == init;
      } else {
        assert init + [] == init;
      }
    }
  }

  lemma {:induction false} RowsPositive(table: Table, lo: int, hi: int)
    requires PositiveTable(table)
    ensures AllPositive(RowsIn(table, lo, hi))
    decreases hi - lo
  {
    if lo < hi {
      RowsPositive(table, lo, hi - 1);
    }
  }

  lemma {:induction false} RowsNone(table: Table, lo: int, hi: int)
    ensures RowsIn(table, lo, hi) == [] <==> forall k :: lo <= k < hi ==> k !in table
    decreases hi - lo
  {
    if lo < hi {
      RowsNone(table, lo, hi - 1);
    }
  }

  lemma {:induction false} RowsSingle(table: Table, lo: int, hi: int, only: int)
    requires lo <= only < hi
    requires forall k :: lo <= k < hi && k != only ==> k !in table
    ensures RowsIn(table, lo, hi) == if only in table then [table[only]] else []
    decreases hi - lo
  {
    if only < hi - 1 {
      RowsSingle(table, lo, hi - 1, only);
    } else {
      RowsNone(table, lo, hi - 1);
    }
  }

  lemma {:induction false} RowsSame(a: Table, b: Table, lo: int, hi: int)
    requires forall k :: lo <= k < hi ==> (k in a <==> k in b) && (k in a ==> a[k] == b[k])
    ensures RowsIn(a, lo, hi) == RowsIn(b, lo, hi)
    decreases hi - lo
  {
    if lo < hi {
      RowsSame(a, b, lo, hi - 1);
    }
  }

  /** Folding a range of a table gives one bucket that stands for everything the table records there. */
  lemma FoldRange(table: Table, start: int, lo: int, hi: int)
    requires PositiveTable(table)
    ensures Fold(start, RowsIn(table, lo, hi)).Some? <==> Sum(Abstract(table), lo, hi) != Empty
    ensures Sum(Abstract(table), lo, hi) != Empty ==>
      var b := Fold(start, RowsIn(table, lo, hi)).value;
      b.bucketStartMs == start && b.sampleCount > 0 && SummaryOf(b) == Sum(Abstract(table), lo, hi)
  {
    var rows := RowsIn(table, lo, hi);
    RowsTotal(table, lo, hi);
    RowsPositive(table, lo, hi);
    FoldKeepsSamples(start, rows);
    if rows != [] {
      TotalOfCounts(rows);
    }
  }

  // ---------- Rebuilding a minute from raw rows ----------

  function SampleTotal(rows: seq<RawSample>): Summary {
    if rows == [] then Empty
    else Join(SampleTotal(rows[..|rows| - 1]), SampleSummary(rows[|rows| - 1]))
  }

  lemma {:induction false} RawTotal(raw: map<int, RawSample>, lo: int, hi: int)
    ensures SampleTotal(RawIn(raw, lo, hi)) == Sum(RawAbstract(raw), lo, hi)
    ensures |RawIn(raw, lo, hi)| == Sum(RawAbstract(raw), lo, hi).Count()
    decreases hi - lo
  {
    if lo < hi {
      RawTotal(raw, lo, hi - 1);
      var init := RawIn(raw, lo, hi - 1);
      if hi - 1 in raw {
        assert (init + [raw[hi - 1]])[..|init|] == init;
      } else {
        assert init + [] == init;
      }
    }
  }

  function RootRangeOf(values: seq<real>): Option<Range> {
    if values == [] then None else Some(Range(ColumnMin(values), ColumnMax(values)))
  }

  lemma {:induction false} SampleTotalCounts(rows: seq<RawSample>)
    requires rows != []
    ensures var t := SampleTotal(rows);
            t.Of? && t.count == |rows| && t.first == EarliestRow(rows) && t.newest == LatestRow(rows)
  {
    var init := rows[..|rows| - 1];
    if init == [] {
      assert SampleTotal(init) == Empty;
    } else {
      SampleTotalCounts(init);
    }
  }

  lemma {:induction false} SampleTotalMetric(rows: seq<RawSample>, metric: Metric)
    requires rows != []
    ensures SampleTotal(rows).Of?
    ensures var values := Column(rows, metric);
            SampleTotal(rows).Get(metric) == Agg(ColumnSum(values), ColumnMin(values), ColumnMax(values))
  {
    var init := rows[..|rows| - 1];
    var values := Column(rows, metric);
    assert values[..|values| - 1] == Column(init, metric);
    if init == [] {
      assert SampleTotal(init) == Empty;
      assert Column(init, metric) == [] && ColumnSum(Column(init, metric)) == 0.0;
    } else {
      SampleTotalMetric(init, metric);
    }
  }

  lemma {:induction false} SampleTotalRoot(rows: seq<RawSample>)
    ensures (if rows == [] then None else if SampleTotal(rows).Of? then SampleTotal(rows).root else None)
         == RootRangeOf(RootColumn(rows))
  {
    if rows != [] {
      SampleTotalCounts(rows);
      var init := rows[..|rows| - 1];
      SampleTotalRoot(init);
      if init != [] {
        SampleTotalCounts(init);
      } else {
        assert RootColumn(init) == [];
      }
      var before := RootColumn(init);
      var last := rows[|rows| - 1].rootUsed;
      if last.Some? {
        assert (before + [last.value])[..|before|] == before;
      } else {
        assert before + [] == before;
      }
    }
  }

  function ColumnAgg(values: seq<real>): Agg
    requires values != []
  {
    Agg(ColumnSum(values), ColumnMin(values), ColumnMax(values))
  }

  function StatAgg(stat: Stat, count: int): Agg {
    Agg(stat.avg * (count as real), stat.min, stat.max)
  }

  lemma ColumnStatAgg(values: seq<real>, count: int)
    requires values != [] && count == |values|
    ensures StatAgg(ColumnStat(values), count) == ColumnAgg(values)
  {
    DivideMultiply(ColumnSum(values), count);
  }

  lemma RebuiltMetric(rows: seq<RawSample>, metric: Metric, values: seq<real>, count: int)
    requires rows != [] && values == Column(rows, metric) && count == |rows|
    ensures SampleTotal(rows).Of?
    ensures values != [] && StatAgg(ColumnStat(values), count) == SampleTotal(rows).Get(metric)
  {
    SampleTotalMetric(rows, metric);
    ColumnStatAgg(values, count);
  }

  /** The aggregate query and the sample-by-sample total agree. */
  lemma RebuildKeepsSamples(start: int, rows: seq<RawSample>)
    requires rows != []
    ensures var b := Rebuild(start, rows);
            b.bucketStartMs == start && b.sampleCount == |rows| && SummaryOf(b) == SampleTotal(rows)
  {
    assert Rebuild(start, rows).rootUsed.Some? <==> RootColumn(rows) != [];
    hide SampleTotal, Column, RootColumn, ColumnSum, ColumnMin, ColumnMax, SummaryOf;
    SampleTotalCounts(rows);
    SampleTotalRoot(rows);
    var n := |rows|;
    RebuiltMetric(rows, Cpu, Column(rows, Cpu), n);
    RebuiltMetric(rows, Memory, Column(rows, Memory), n);
    RebuiltMetric(rows, Swap, Column(rows, Swap), n);
    RebuiltMetric(rows, Load, Column(rows, Load), n);
    RebuiltSummary(Rebuild(start, rows), SampleTotal(rows));
  }

  lemma RebuiltSummary(b: TierBucket, t: Summary)
    requires t.Of? && t.count == b.sampleCount && t.first == b.firstCapturedAtMs && t.newest == b.newestCapturedAtMs
    requires t.root == RootOf(b)
    requires StatAgg(b.cpu, b.sampleCount) == t.cpu && StatAgg(b.memory, b.sampleCount) == t.memory
    requires StatAgg(b.swap, b.sampleCount) == t.swap && StatAgg(b.load, b.sampleCount) == t.load
    ensures SummaryOf(b) == t
  {
  }

  function RawBuckets(rows: seq<RawSample>): seq<TierBucket> {
    if rows == [] then [] else RawBuckets(rows[..|rows| - 1]) + [RawToBucket(rows[|rows| - 1])]
  }

  lemma {:induction false} RawBucketsTotal(rows: seq<RawSample>)
    ensures AllPositive(RawBuckets(rows)) && |RawBuckets(rows)| == |rows|
    ensures Total(RawBuckets(rows)) == SampleTotal(rows)
  {
    if rows != [] {
      var init, last := rows[..|rows| - 1], rows[|rows| - 1];
      RawBucketsTotal(init);
      RawToBucketKeepsSample(last);
      var buckets := RawBuckets(rows);
      assert buckets[..|buckets| - 1] == RawBuckets(init);
    }
  }

  lemma {:induction false} RawBucketsRoot(rows: seq<RawSample>)
    ensures |RawBuckets(rows)| == |rows|
    ensures RootCount(RawBuckets(rows)) == |RootColumn(rows)|
    ensures RootSum(RawBuckets(rows)) == ColumnSum(RootColumn(rows))
  {
    if rows != [] {
      var init, last := rows[..|rows| - 1], rows[|rows| - 1];
      RawBucketsRoot(init);
      RootStep(RawBuckets(init), RootColumn(init), last);
    }
  }

  lemma RootStep(buckets: seq<TierBucket>, roots: seq<real>, s: RawSample)
    ensures RootCount(buckets + [RawToBucket(s)]) == RootCount(buckets) + (if s.rootUsed.Some? then 1 else 0)
    ensures RootSum(buckets + [RawToBucket(s)])
         == RootSum(buckets) + (if s.rootUsed.Some? then s.rootUsed.value else 0.0)
    ensures s.rootUsed.Some? ==> ColumnSum(roots + [s.rootUsed.value]) == ColumnSum(roots) + s.rootUsed.value
    ensures roots + [] == roots
  {
    assert (buckets + [RawToBucket(s)])[..|buckets|] == buckets;
    if s.rootUsed.Some? {
      assert (roots + [s.rootUsed.value])[..|roots|] == roots;
    }
  }

  /** The two ways to make a minute out of raw rows, the SQL aggregate and the fold, give the same bucket. */
  lemma RebuildIsFold(start: int, rows: seq<RawSample>)
    requires rows != []
    ensures Fold(start, RawBuckets(rows)) == Some(Rebuild(start, rows))
  {
    RawBucketsTotal(rows);
    RawBucketsRoot(rows);
    FoldKeepsSamples(start, RawBuckets(rows));
    RebuildKeepsSamples(start, rows);
    RootCountHasRange(RawBuckets(rows));
    SummaryDetermines(Fold(start, RawBuckets(rows)).value, Rebuild(start, rows));
  }

  // ---------- Coarse tables over fine ones ----------

  ghost predicate OnGrid(table: Table, w: int)
    requires w > 0
  {
    forall k :: k in table ==> Aligned(w, k)
  }

  /** What the tier records for the tile that starts at `k`. */
  function Tile(table: Table, k: int): Summary {
    if k in table then SummaryOf(table[k]) else Empty
  }

  /** A table on a grid adds up, over one tile, to its row there. */
  lemma TileSum(table: Table, w: int, k: int)
    requires Coarse(w) && OnGrid(table, w) && Aligned(w, k)
    ensures Sum(Abstract(table), k, k + w) == Tile(table, k)
  {
    forall u | k <= u < k + w && u != k
      ensures At(Abstract(table), u) == Empty
    {
      if u in table {
        AlignedApart(w, u, k);
      }
    }
    SumSingle(Abstract(table), k, k + w, k);
  }

  /** If every tile of a range stands for the samples recorded in it, so does the whole range. */
  lemma {:induction false} TilesCover(table: Table, m: map<int, Summary>, w: int, lo: int, hi: int)
    requires Coarse(w) && OnGrid(table, w) && Aligned(w, lo) && Aligned(w, hi) && lo <= hi
    requires forall k :: Aligned(w, k) && lo <= k && k + w <= hi ==> Tile(table, k) == Sum(m, k, k + w)
    ensures Sum(Abstract(table), lo, hi) == Sum(m, lo, hi)
    decreases hi - lo
  {
    if lo < hi {
      var k := hi - w;
      AlignedInside(w, lo, hi);
      NextBoundary(w, hi);
      TilesCover(table, m, w, lo, k);
      SumSplit(Abstract(table), lo, k, hi);
      SumSplit(m, lo, k, hi);
      TileSum(table, w, k);
    }
  }
}

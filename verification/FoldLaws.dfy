/** Folding in two steps is folding once: the law that lets the ladder discard finer rows. */
module FoldLaws {
  import opened Prelude
  import opened Summaries
  import opened TierFold

  function Flatten(parts: seq<seq<TierBucket>>): seq<TierBucket> {
    if parts == [] then [] else Flatten(parts[..|parts| - 1]) + parts[|parts| - 1]
  }

  predicate Foldable(parts: seq<seq<TierBucket>>) {
    forall p :: p in parts ==> p != [] && AllPositive(p)
  }

  /** Each part folded to one bucket of its own, the `i`-th starting at `starts[i]`. */
  function FoldEach(starts: seq<int>, parts: seq<seq<TierBucket>>): (r: seq<TierBucket>)
    requires |starts| == |parts|
    requires Foldable(parts)
    ensures |r| == |parts|
  {
    if parts == [] then []
    else
      var n := |parts| - 1;
      assert parts[n] in parts;
      assert forall p :: p in parts[..n] ==> p in parts;
      FoldKeepsSamples(starts[n], parts[n]);
      FoldEach(starts[..n], parts[..n]) + [Fold(starts[n], parts[n]).value]
  }

  lemma {:induction false} TotalConcat(a: seq<TierBucket>, b: seq<TierBucket>)
    ensures Total(a + b) == Join(Total(a), Total(b))
  {
    if b == [] {
      assert a + b == a;
    } else {
      var init := b[..|b| - 1];
      assert (a + b)[..|a + b| - 1] == a + init;
      TotalConcat(a, init);
      JoinAssoc(Total(a), Total(init), SummaryOf(b[|b| - 1]));
    }
  }

  lemma {:induction false} FlattenFacts(parts: seq<seq<TierBucket>>)
    requires Foldable(parts)
    ensures AllPositive(Flatten(parts))
    ensures Flatten(parts) == [] <==> parts == []
  {
    if parts != [] {
      var n := |parts| - 1;
      assert forall p :: p in parts[..n] ==> p in parts;
      FlattenFacts(parts[..n]);
      assert parts[n] in parts;
    }
  }

  lemma {:induction false} FoldEachTotal(starts: seq<int>, parts: seq<seq<TierBucket>>)
    requires |starts| == |parts|
    requires Foldable(parts)
    ensures AllPositive(FoldEach(starts, parts))
    ensures Total(FoldEach(starts, parts)) == Total(Flatten(parts))
  {
    if parts != [] {
      var n := |parts| - 1;
      assert parts[n] in parts;
      assert forall p :: p in parts[..n] ==> p in parts;
      FoldEachTotal(starts[..n], parts[..n]);
      FoldKeepsSamples(starts[n], parts[n]);
      var folded := FoldEach(starts, parts);
      assert folded[..n] == FoldEach(starts[..n], parts[..n]);
      TotalConcat(Flatten(parts[..n]), parts[n]);
    }
  }

  /** Folding the folds of any partition gives the count, times, averages and extremes of folding everything once. */
  lemma HierarchicalFold(start: int, starts: seq<int>, parts: seq<seq<TierBucket>>)
    requires |starts| == |parts| > 0
    requires Foldable(parts)
    ensures Fold(start, Flatten(parts)).Some? && Fold(start, FoldEach(starts, parts)).Some?
    ensures var flat, steps := Fold(start, Flatten(parts)).value, Fold(start, FoldEach(starts, parts)).value;
            && steps == flat.(rootUsed := steps.rootUsed)
            && (steps.rootUsed.Some? <==> flat.rootUsed.Some?)
            && (flat.rootUsed.Some? ==> steps.rootUsed.value == flat.rootUsed.value.(avg := steps.rootUsed.value.avg))
  {
    FlattenFacts(parts);
    FoldEachTotal(starts, parts);
    FoldKeepsSamples(start, Flatten(parts));
    FoldKeepsSamples(start, FoldEach(starts, parts));
    SummaryDetermines(Fold(start, Flatten(parts)).value, Fold(start, FoldEach(starts, parts)).value);
  }

  // ---------- The root average ----------

  /** Every bucket of the part carries a root value, or none does. */
  predicate RootUniform(part: seq<TierBucket>) {
    || (forall b :: b in part ==> b.rootUsed.Some?)
    || (forall b :: b in part ==> b.rootUsed.None?)
  }

  lemma {:induction false} RootConcat(a: seq<TierBucket>, b: seq<TierBucket>)
    ensures RootCount(a + b) == RootCount(a) + RootCount(b)
    ensures RootSum(a + b) == RootSum(a) + RootSum(b)
  {
    if b == [] {
      assert a + b == a;
    } else {
      var init := b[..|b| - 1];
      assert (a + b)[..|a + b| - 1] == a + init;
      RootConcat(a, init);
    }
  }

  lemma {:induction false} UniformRootCount(part: seq<TierBucket>)
    requires RootUniform(part)
    ensures (forall b :: b in part ==> b.rootUsed.Some?) ==> RootCount(part) == TotalCount(part)
    ensures (forall b :: b in part ==> b.rootUsed.None?) ==> RootCount(part) == 0 && RootSum(part) == 0.0
  {
    if part != [] {
      UniformRootCount(part[..|part| - 1]);
      assert part[|part| - 1] in part;
    }
  }

  /** A uniform part folds to one bucket with the root weight and root total of the part. */
  lemma UniformPartKeepsRoot(start: int, part: seq<TierBucket>)
    requires part != [] && AllPositive(part) && RootUniform(part)
    ensures Fold(start, part).Some?
    ensures var b := Fold(start, part).value;
            RootCount([b]) == RootCount(part) && RootSum([b]) == RootSum(part)
  {
    hide SummaryOf, Total, WeightedSum, LeastStat, GreatestStat;
    FoldKeepsSamples(start, part);
    UniformRootCount(part);
    PositiveTotal(part);
    var b := Fold(start, part).value;
    assert [b][..0] == [];
    assert part[0] in part;
    if part[0].rootUsed.Some? {
      DivideMultiply(RootSum(part), RootCount(part));
    }
  }

  lemma RootOfSteps(start: int, folded: seq<TierBucket>, flat: seq<TierBucket>, part: seq<TierBucket>)
    requires RootCount(folded) == RootCount(flat) && RootSum(folded) == RootSum(flat)
    requires part != [] && AllPositive(part) && RootUniform(part)
    ensures Fold(start, part).Some?
    ensures RootCount(folded + [Fold(start, part).value]) == RootCount(flat + part)
    ensures RootSum(folded + [Fold(start, part).value]) == RootSum(flat + part)
  {
    UniformPartKeepsRoot(start, part);
    RootConcat(folded, [Fold(start, part).value]);
    RootConcat(flat, part);
  }

  lemma {:induction false} FoldEachRoot(starts: seq<int>, parts: seq<seq<TierBucket>>)
    requires |starts| == |parts|
    requires Foldable(parts)
    requires forall p :: p in parts ==> RootUniform(p)
    ensures RootCount(FoldEach(starts, parts)) == RootCount(Flatten(parts))
    ensures RootSum(FoldEach(starts, parts)) == RootSum(Flatten(parts))
  {
    if parts == [] {
      assert FoldEach(starts, parts) == [] == Flatten(parts);
    } else {
      var n := |parts| - 1;
      assert parts[n] in parts;
      assert forall p :: p in parts[..n] ==> p in parts;
      FoldEachRoot(starts[..n], parts[..n]);
      RootOfSteps(starts[n], FoldEach(starts[..n], parts[..n]), Flatten(parts[..n]), parts[n]);
    }
  }

  /** With uniform parts the two-step fold is the one-step fold in every field. */
  lemma HierarchicalFoldWithRoot(start: int, starts: seq<int>, parts: seq<seq<TierBucket>>)
    requires |starts| == |parts| > 0
    requires Foldable(parts)
    requires forall p :: p in parts ==> RootUniform(p)
    ensures Fold(start, FoldEach(starts, parts)) == Fold(start, Flatten(parts))
  {
    HierarchicalFold(start, starts, parts);
    FoldEachRoot(starts, parts);
  }

  function RootAverage(b: Option<TierBucket>): Option<real> {
    if b.Some? && b.value.rootUsed.Some? then Some(b.value.rootUsed.value.avg) else None
  }

  /** A part that mixes buckets with and without a root value breaks the law for the root average:
    * one reading of 90 beside a rootless sample comes to weigh as much as two. */
  lemma MixedRootAverageDrifts(high: TierBucket, plain: TierBucket, low: TierBucket)
    requires high == RawToBucket(RawSample(0, 0.0, 0.0, 0.0, 0.0, Some(90.0)))
    requires plain == RawToBucket(RawSample(1, 0.0, 0.0, 0.0, 0.0, None))
    requires low == RawToBucket(RawSample(2, 0.0, 0.0, 0.0, 0.0, Some(0.0)))
    ensures Foldable([[high, plain], [low]])
    ensures RootAverage(Fold(0, Flatten([[high, plain], [low]]))) == Some(45.0)
    ensures RootAverage(Fold(0, FoldEach([0, 2], [[high, plain], [low]]))) == Some(60.0)
  {
    MixedPart(high, plain);
    FoldedRoot(2, [low]);
    OneBucket(low);
    var mixed, single := Fold(0, [high, plain]).value, Fold(2, [low]).value;
    FoldEachTwo([0, 2], [high, plain], [low]);
    TwoBuckets(mixed, single);
    FoldedRoot(0, [mixed, single]);
    FlattenTwo([high, plain], [low]);
    TwoBuckets(high, plain);
    RootConcat([high, plain], [low]);
    FoldedRoot(0, [high, plain] + [low]);
  }

  lemma MixedPart(high: TierBucket, plain: TierBucket)
    requires high == RawToBucket(RawSample(0, 0.0, 0.0, 0.0, 0.0, Some(90.0)))
    requires plain == RawToBucket(RawSample(1, 0.0, 0.0, 0.0, 0.0, None))
    ensures var mixed := Fold(0, [high, plain]);
            mixed.Some? && mixed.value.sampleCount == 2 && RootAverage(mixed) == Some(90.0)
  {
    TwoBuckets(high, plain);
    FoldedRoot(0, [high, plain]);
  }

  lemma FoldedRoot(start: int, part: seq<TierBucket>)
    requires part != [] && AllPositive(part) && RootCount(part) > 0
    ensures Fold(start, part).Some?
    ensures Fold(start, part).value.sampleCount == TotalCount(part) > 0
    ensures RootAverage(Fold(start, part)) == Some(RootSum(part) / (RootCount(part) as real))
  {
    PositiveTotal(part);
  }

  lemma FlattenTwo(a: seq<TierBucket>, b: seq<TierBucket>)
    ensures Flatten([a, b]) == a + b
  {
    assert [a, b][..1] == [a] && [a][..0] == [];
    assert Flatten([a]) == Flatten([a][..0]) + a == [] + a == a;
  }

  lemma FoldEachTwo(starts: seq<int>, a: seq<TierBucket>, b: seq<TierBucket>)
    requires |starts| == 2 && Foldable([a, b])
    ensures Fold(starts[0], a).Some? && Fold(starts[1], b).Some?
    ensures FoldEach(starts, [a, b]) == [Fold(starts[0], a).value, Fold(starts[1], b).value]
  {
    assert a in [a, b] && b in [a, b];
    FoldKeepsSamples(starts[0], a);
    FoldKeepsSamples(starts[1], b);
    assert [a, b][..1] == [a] && [a][..0] == [];
    assert starts[..1][..0] == [];
    assert FoldEach(starts[..1], [a]) == FoldEach([], []) + [Fold(starts[0], a).value];
  }

  lemma OneBucket(a: TierBucket)
    ensures TotalCount([a]) == a.sampleCount
    ensures RootCount([a]) == if a.rootUsed.Some? then a.sampleCount else 0
    ensures RootSum([a]) == if a.rootUsed.Some? then a.rootUsed.value.avg * (a.sampleCount as real) else 0.0
  {
    assert [a][..0] == [];
  }

  lemma TwoBuckets(a: TierBucket, b: TierBucket)
    ensures TotalCount([a, b]) == a.sampleCount + b.sampleCount
    ensures RootCount([a, b]) == RootCount([a]) + RootCount([b])
    ensures RootSum([a, b]) == RootSum([a]) + RootSum([b])
    ensures RootCount([a]) == if a.rootUsed.Some? then a.sampleCount else 0
    ensures RootCount([b]) == if b.rootUsed.Some? then b.sampleCount else 0
    ensures RootSum([a]) == if a.rootUsed.Some? then a.rootUsed.value.avg * (a.sampleCount as real) else 0.0
    ensures RootSum([b]) == if b.rootUsed.Some? then b.rootUsed.value.avg * (b.sampleCount as real) else 0.0
  {
    OneBucket(a);
    OneBucket(b);
    assert [a, b][..1] == [a];
    RootConcat([a], [b]);
    assert [a] + [b] == [a, b];
  }
}

/** What a group of samples amounts to, independent of how it was bucketed.
  *
  * `Summary` is a commutative monoid under `Join`; every storage tier is read as a map
  * from a start time to a summary, and `Sum` adds such a map up over a range of time. */
module Summaries {
  import opened Prelude

  /** Total and extremes of one metric over a nonempty group of samples. */
  datatype Agg = Agg(sum: real, min: real, max: real)

  datatype Range = Range(min: real, max: real)

  datatype Metric = Cpu | Memory | Swap | Load

  datatype Summary =
    | Empty
    | Of(count: int, first: int, newest: int, cpu: Agg, memory: Agg, swap: Agg, load: Agg, root: Option<Range>)
  {
    function Count(): int { if Empty? then 0 else count }

    function Get(metric: Metric): Agg
      requires Of?
    {
      match metric
      case Cpu => cpu
      case Memory => memory
      case Swap => swap
      case Load => load
    }
  }

  function RealMin(a: real, b: real): real { if a <= b then a else b }

  function RealMax(a: real, b: real): real { if a >= b then a else b }

  function JoinAgg(a: Agg, b: Agg): Agg {
    Agg(a.sum + b.sum, RealMin(a.min, b.min), RealMax(a.max, b.max))
  }

  function JoinRoot(a: Option<Range>, b: Option<Range>): Option<Range> {
    if a.None? then b
    else if b.None? then a
    else Some(Range(RealMin(a.value.min, b.value.min), RealMax(a.value.max, b.value.max)))
  }

  function Join(a: Summary, b: Summary): Summary {
    if a.Empty? then b
    else if b.Empty? then a
    else Of(a.count + b.count, Min(a.first, b.first), Max(a.newest, b.newest),
            JoinAgg(a.cpu, b.cpu), JoinAgg(a.memory, b.memory),
            JoinAgg(a.swap, b.swap), JoinAgg(a.load, b.load), JoinRoot(a.root, b.root))
  }

  lemma JoinAggAssoc(a: Agg, b: Agg, c: Agg)
    ensures JoinAgg(JoinAgg(a, b), c) == JoinAgg(a, JoinAgg(b, c))
  {
  }

  lemma JoinRootAssoc(a: Option<Range>, b: Option<Range>, c: Option<Range>)
    ensures JoinRoot(JoinRoot(a, b), c) == JoinRoot(a, JoinRoot(b, c))
  {
  }

  lemma JoinAssoc(a: Summary, b: Summary, c: Summary)
    ensures Join(Join(a, b), c) == Join(a, Join(b, c))
  {
    if a.Of? && b.Of? && c.Of? {
      JoinAggAssoc(a.cpu, b.cpu, c.cpu);
      JoinAggAssoc(a.memory, b.memory, c.memory);
      JoinAggAssoc(a.swap, b.swap, c.swap);
      JoinAggAssoc(a.load, b.load, c.load);
      JoinRootAssoc(a.root, b.root, c.root);
    }
  }

  lemma JoinComm(a: Summary, b: Summary)
    ensures Join(a, b) == Join(b, a)
  {
  }

  /** The entry of a sparse table, `Empty` where it has no row. */
  function At(m: map<int, Summary>, t: int): Summary {
    if t in m then m[t] else Empty
  }

  /** Everything `m` records at times `lo <= t < hi`. */
  ghost function Sum(m: map<int, Summary>, lo: int, hi: int): Summary
    decreases hi - lo
  {
    if lo >= hi then Empty else Join(Sum(m, lo, hi - 1), At(m, hi - 1))
  }

  ghost predicate AgreeOn(a: map<int, Summary>, b: map<int, Summary>, lo: int, hi: int) {
    forall t :: lo <= t < hi ==> At(a, t) == At(b, t)
  }

  lemma {:induction false} SumAgrees(a: map<int, Summary>, b: map<int, Summary>, lo: int, hi: int)
    requires AgreeOn(a, b, lo, hi)
    ensures Sum(a, lo, hi) == Sum(b, lo, hi)
    decreases hi - lo
  {
    if lo < hi {
      SumAgrees(a, b, lo, hi - 1);
    }
  }

  lemma {:induction false} SumNone(m: map<int, Summary>, lo: int, hi: int)
    requires forall t :: lo <= t < hi ==> At(m, t) == Empty
    ensures Sum(m, lo, hi) == Empty
    decreases hi - lo
  {
    if lo < hi {
      SumNone(m, lo, hi - 1);
    }
  }

  lemma {:induction false} SumSplit(m: map<int, Summary>, lo: int, mid: int, hi: int)
    requires lo <= mid <= hi
    ensures Sum(m, lo, hi) == Join(Sum(m, lo, mid), Sum(m, mid, hi))
    decreases hi - mid
  {
    if mid < hi {
      SumSplit(m, lo, mid, hi - 1);
      JoinAssoc(Sum(m, lo, mid), Sum(m, mid, hi - 1), At(m, hi - 1));
    }
  }

  /** A range that holds at most one entry adds up to that entry. */
  lemma SumSingle(m: map<int, Summary>, lo: int, hi: int, t: int)
    requires lo <= t < hi
    requires forall u :: lo <= u < hi && u != t ==> At(m, u) == Empty
    ensures Sum(m, lo, hi) == At(m, t)
  {
    SumSplit(m, lo, t, hi);
    SumSplit(m, t, t + 1, hi);
    SumNone(m, lo, t);
    SumNone(m, t + 1, hi);
    assert Sum(m, t, t) == Empty;
    assert Sum(m, t, t + 1) == Join(Sum(m, t, t), At(m, t));
  }

  /** Joining `u` into the entry at `t` joins it into the sum of every range around `t`. */
  lemma SumJoinAt(m: map<int, Summary>, n: map<int, Summary>, lo: int, hi: int, t: int, u: Summary)
    requires lo <= t < hi
    requires forall v :: lo <= v < hi && v != t ==> At(m, v) == At(n, v)
    requires At(n, t) == Join(At(m, t), u)
    ensures Sum(n, lo, hi) == Join(Sum(m, lo, hi), u)
  {
    var a, b, c := Sum(m, lo, t), At(m, t), Sum(m, t + 1, hi);
    SumSplit(m, lo, t, hi);
    SumSplit(m, t, t + 1, hi);
    SumSplit(n, lo, t, hi);
    SumSplit(n, t, t + 1, hi);
    SumAgrees(m, n, lo, t);
    SumAgrees(m, n, t + 1, hi);
    assert Sum(m, t, t) == Empty && Sum(n, t, t) == Empty;
    assert Sum(m, t, t + 1) == Join(Sum(m, t, t), b) == b;
    assert Sum(n, t, t + 1) == Join(Sum(n, t, t), At(n, t)) == Join(b, u);
    calc {
      Sum(n, lo, hi);
      Join(a, Join(Join(b, u), c));
      { JoinAssoc(b, u, c); JoinComm(u, c); JoinAssoc(b, c, u); }
      Join(a, Join(Join(b, c), u));
      { JoinAssoc(a, Join(b, c), u); }
      Join(Join(a, Join(b, c)), u);
    }
  }

  ghost predicate Positive(m: map<int, Summary>) {
    forall t :: t in m ==> m[t].Of? && m[t].count > 0
  }

  lemma {:induction false} SumCountNonNegative(m: map<int, Summary>, lo: int, hi: int)
    requires Positive(m)
    ensures Sum(m, lo, hi).Count() >= 0
    ensures Sum(m, lo, hi) == Empty <==> Sum(m, lo, hi).Count() == 0
    decreases hi - lo
  {
    if lo < hi {
      SumCountNonNegative(m, lo, hi - 1);
    }
  }

  /** A positive table whose range adds up to nothing has no entry there. */
  lemma {:induction false} SumEmptyMeansNone(m: map<int, Summary>, lo: int, hi: int, t: int)
    requires Positive(m)
    requires lo <= t < hi
    requires Sum(m, lo, hi) == Empty
    ensures t !in m
    decreases hi - lo
  {
    SumCountNonNegative(m, lo, hi - 1);
    if t < hi - 1 {
      SumEmptyMeansNone(m, lo, hi - 1, t);
    }
  }
}

/** Facts about sequences of any element: sorting by a key, first occurrences, rows picked by index. */
module Sequences {

  // ---------- Sorting by an integer key ----------

  /** Pairwise ordered by key; if `strict`, no two keys are equal. */
  ghost predicate SortedBy<T(!new)>(s: seq<T>, key: T -> int, strict: bool) {
    forall p, q :: 0 <= p < q < |s| ==> key(s[p]) < key(s[q]) || (!strict && key(s[p]) == key(s[q]))
  }

  /** `x` behind everything whose key is not greater. */
  function InsertBy<T>(x: T, sorted: seq<T>, key: T -> int): (r: seq<T>)
    ensures |r| == |sorted| + 1
  {
    if sorted == [] || key(x) < key(sorted[0]) then [x] + sorted
    else [sorted[0]] + InsertBy(x, sorted[1..], key)
  }

  lemma {:induction false} InsertKeepsAll<T>(x: T, sorted: seq<T>, key: T -> int)
    ensures multiset(InsertBy(x, sorted, key)) == multiset(sorted) + multiset{x}
  {
    if sorted != [] {
      assert sorted == [sorted[0]] + sorted[1..];
      if !(key(x) < key(sorted[0])) {
        InsertKeepsAll(x, sorted[1..], key);
      }
    }
  }

  lemma {:induction false} InsertSorts<T(!new)>(x: T, sorted: seq<T>, key: T -> int)
    requires SortedBy(sorted, key, false)
    ensures SortedBy(InsertBy(x, sorted, key), key, false)
    ensures sorted != [] ==> InsertBy(x, sorted, key)[0] == x || InsertBy(x, sorted, key)[0] == sorted[0]
  {
    if sorted != [] && !(key(x) < key(sorted[0])) {
      InsertSorts(x, sorted[1..], key);
    }
  }

  lemma TailMultiset<T>(a: seq<T>, b: seq<T>)
    requires a != [] && b != [] && a[0] == b[0] && multiset(a) == multiset(b)
    ensures multiset(a[1..]) == multiset(b[1..])
  {
    assert a == [a[0]] + a[1..] && b == [b[0]] + b[1..];
    assert multiset(a[1..]) == multiset(a) - multiset{a[0]};
  }

  lemma HeadIsLeast<T(!new)>(s: seq<T>, key: T -> int, strict: bool, x: T)
    requires SortedBy(s, key, strict) && x in multiset(s)
    ensures s != [] && (x == s[0] || key(s[0]) < key(x) || (!strict && key(s[0]) == key(x)))
  {
    var p :| 0 <= p < |s| && s[p] == x;
  }

  /** A strictly sorted sequence is the only sorted arrangement of its elements. */
  lemma {:induction false} SortedOnce<T(!new)>(a: seq<T>, b: seq<T>, key: T -> int)
    requires SortedBy(a, key, false) && SortedBy(b, key, true) && multiset(a) == multiset(b)
    ensures a == b
    decreases |a|
  {
    assert |a| == |multiset(a)| == |multiset(b)| == |b|;
    if a != [] {
      assert a[0] in multiset(a) && b[0] in multiset(b);
      HeadIsLeast(a, key, false, b[0]);
      HeadIsLeast(b, key, true, a[0]);
      TailMultiset(a, b);
      SortedOnce(a[1..], b[1..], key);
      assert a == [a[0]] + a[1..] && b == [b[0]] + b[1..];
    }
  }

  // ---------- Sorting by a relation ----------

  ghost predicate Chain<T(!new)>(s: seq<T>, before: (T, T) -> bool) {
    forall p, q :: 0 <= p < q < |s| ==> before(s[p], s[q])
  }

  lemma ChainHead<T(!new)>(s: seq<T>, before: (T, T) -> bool, x: T)
    requires Chain(s, before) && x in multiset(s)
    ensures s != [] && (x == s[0] || before(s[0], x))
  {
    var p :| 0 <= p < |s| && s[p] == x;
  }

  /** Two arrangements of the same elements along an asymmetric relation are the same. */
  lemma {:induction false} ChainOnce<T(!new)>(a: seq<T>, b: seq<T>, before: (T, T) -> bool)
    requires Chain(a, before) && Chain(b, before) && multiset(a) == multiset(b)
    requires forall x, y :: !(before(x, y) && before(y, x))
    ensures a == b
    decreases |a|
  {
    assert |a| == |multiset(a)| == |multiset(b)| == |b|;
    if a != [] {
      assert a[0] in multiset(a) && b[0] in multiset(b);
      ChainHead(a, before, b[0]);
      ChainHead(b, before, a[0]);
      TailMultiset(a, b);
      ChainOnce(a[1..], b[1..], before);
      assert a == [a[0]] + a[1..] && b == [b[0]] + b[1..];
    }
  }

  // ---------- Picking by index ----------

  ghost predicate Distinct<T>(s: seq<T>) { forall p, q :: 0 <= p < q < |s| ==> s[p] != s[q] }

  ghost predicate Below(order: seq<nat>, n: nat) { forall p :: 0 <= p < |order| ==> order[p] < n }

  function At<T>(values: seq<T>, order: seq<nat>): (r: seq<T>)
    requires forall p :: 0 <= p < |order| ==> order[p] < |values|
    ensures |r| == |order| && forall p :: 0 <= p < |r| ==> r[p] == values[order[p]]
  {
    seq(|order|, p requires 0 <= p < |order| => values[order[p]])
  }

  ghost function IndicesOf<T>(values: seq<T>, order: seq<nat>, x: T): set<nat> {
    set i: nat | i in order && i < |values| && values[i] == x
  }

  lemma IndicesGrow<T>(values: seq<T>, init: seq<nat>, last: nat, x: T)
    requires last < |values| && last !in init
    ensures |IndicesOf(values, init + [last], x)| == |IndicesOf(values, init, x)| + if values[last] == x then 1 else 0
  {
    var before := IndicesOf(values, init, x);
    assert IndicesOf(values, init + [last], x) == if values[last] == x then before + {last} else before;
  }

  /** What is picked at distinct indices is counted by the indices. */
  lemma {:induction false} CountAt<T>(values: seq<T>, order: seq<nat>, x: T)
    requires Below(order, |values|) && Distinct(order)
    ensures multiset(At(values, order))[x] == |IndicesOf(values, order, x)|
  {
    if order == [] {
      assert At(values, order) == [] && IndicesOf(values, order, x) == {};
    } else {
      var init, last := order[..|order| - 1], order[|order| - 1];
      CountAt(values, init, x);
      assert order == init + [last];
      assert At(values, order) == At(values, init) + [values[last]];
      assert last !in init;
      IndicesGrow(values, init, last, x);
    }
  }

  // ---------- First occurrences ----------

  function Firsts<T(==,!new)>(s: seq<T>): (r: seq<T>)
    ensures forall x :: x in r <==> x in s
  {
    if s == [] then []
    else
      var init, last := s[..|s| - 1], s[|s| - 1];
      assert s == init + [last];
      Firsts(init) + (if last in init then [] else [last])
  }

  lemma {:induction false} FirstsDistinct<T(!new)>(s: seq<T>)
    ensures Distinct(Firsts(s))
  {
    if s != [] {
      FirstsDistinct(s[..|s| - 1]);
    }
  }

  /** The members of `s` outside `t`. */
  function Without<T(==,!new)>(s: seq<T>, t: seq<T>): (r: seq<T>)
    ensures |r| <= |s| && forall x :: x in r <==> x in s && x !in t
  {
    if s == [] then []
    else
      var init, last := s[..|s| - 1], s[|s| - 1];
      assert s == init + [last];
      Without(init, t) + (if last in t then [] else [last])
  }

  lemma {:induction false} FirstsOfDistinct<T(!new)>(s: seq<T>)
    requires Distinct(s)
    ensures Firsts(s) == s
  {
    if s != [] {
      var init := s[..|s| - 1];
      FirstsOfDistinct(init);
      assert s == init + [s[|s| - 1]];
    }
  }

  lemma FirstsStep<T(!new)>(s: seq<T>, last: T)
    ensures Firsts(s + [last]) == Firsts(s) + if last in s then [] else [last]
  {
    assert (s + [last])[..|s|] == s;
  }

  lemma WithoutStep<T(!new)>(s: seq<T>, last: T, t: seq<T>)
    ensures Without(s + [last], t) == Without(s, t) + if last in t then [] else [last]
  {
    assert (s + [last])[..|s|] == s;
  }

  /** The first occurrences in two lists without repetitions: the first list, then the rest of the second. */
  lemma {:induction false} FirstsOfUnion<T(!new)>(s: seq<T>, t: seq<T>)
    requires Distinct(s) && Distinct(t)
    ensures Firsts(s + t) == s + Without(t, s)
    decreases |t|
  {
    if t == [] {
      assert s + t == s;
      FirstsOfDistinct(s);
    } else {
      hide Firsts, Without;
      var init, last := t[..|t| - 1], t[|t| - 1];
      assert t == init + [last] && last !in init;
      Associate(s, init, [last]);
      FirstsOfUnion(s, init);
      FirstsStep(s + init, last);
      WithoutStep(init, last, s);
      Associate(s, Without(init, s), if last in s then [] else [last]);
    }
  }

  lemma Associate<T>(a: seq<T>, b: seq<T>, c: seq<T>)
    ensures a + (b + c) == (a + b) + c
  {
  }

  /** Dropping members keeps the order of the rest. */
  lemma {:induction false} WithoutChain<T(!new)>(s: seq<T>, t: seq<T>, before: (T, T) -> bool)
    requires Chain(s, before)
    ensures Chain(Without(s, t), before)
  {
    if s != [] {
      var init, last := s[..|s| - 1], s[|s| - 1];
      WithoutChain(init, t, before);
      assert s == init + [last];
      WithoutStep(init, last, t);
      forall x | x in Without(init, t)
        ensures before(x, last)
      {
        assert x in init;
        var p :| 0 <= p < |init| && init[p] == x;
        assert before(s[p], s[|s| - 1]);
      }
    }
  }

  lemma {:induction false} SetBelow(s: set<nat>, n: nat)
    requires forall x :: x in s ==> x < n
    ensures |s| <= n
  {
    if n > 0 {
      SetBelow(s - {n - 1}, n - 1);
    } else {
      assert s == {};
    }
  }

  lemma {:induction false} ElementCount<T>(s: seq<T>)
    requires Distinct(s)
    ensures |set p | 0 <= p < |s| :: s[p]| == |s|
  {
    if s != [] {
      var init, last := s[..|s| - 1], s[|s| - 1];
      ElementCount(init);
      var before := set p | 0 <= p < |init| :: init[p];
      assert last !in before;
      assert (set p | 0 <= p < |s| :: s[p]) == before + {last};
    }
  }

  /** There are no more different numbers below `n` than `n`. */
  lemma DistinctBelow(s: seq<nat>, n: nat)
    requires Below(s, n) && Distinct(s)
    ensures |s| <= n
  {
    ElementCount(s);
    SetBelow(set p | 0 <= p < |s| :: s[p], n);
  }

  /** Picking every index once rearranges the values. */
  lemma PickAll<T(!new)>(values: seq<T>, order: seq<nat>)
    requires Below(order, |values|) && Distinct(order)
    requires forall i: nat :: i < |values| ==> i in order
    ensures multiset(At(values, order)) == multiset(values)
  {
    var same: seq<nat> := seq(|values|, i => i);
    assert At(values, same) == values;
    assert forall i: nat :: i < |values| ==> same[i] == i;
    forall x
      ensures multiset(At(values, order))[x] == multiset(At(values, same))[x]
    {
      CountAt(values, order, x);
      CountAt(values, same, x);
      assert IndicesOf(values, order, x) == IndicesOf(values, same, x);
    }
  }
}

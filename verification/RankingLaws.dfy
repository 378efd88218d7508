/** What the ranking of processes promises its readers (`process_rank.rs`). */
module RankingLaws {
  import opened Prelude
  import opened Sequences
  import opened ProcessRank
  import opened ProcessLists

  // ---------- Which processes, with which ranks ----------

  /** Every row carries, for each list, the number of candidates that precede it there if that is below the list length,
    * and no rank otherwise; stale ranks are gone. */
  lemma RankIsExact(list: List, candidates: seq<Process>, topProcessCount: nat, i: nat)
    requires i < |candidates|
    ensures var ahead := Ahead(list, candidates, i);
            RankOf(AllRows(candidates, topProcessCount)[i], list)
            == if ahead < Max(topProcessCount, 1) then Some(RankValue(ahead)) else None
  {
    RowRank(list, candidates, topProcessCount, i);
    RankIsAhead(list, candidates, Max(topProcessCount, 1), i);
    hide AllRows, Ahead, RankIn, Top, RankOf;
  }

  /** A ranking emits candidate `i`, once, exactly if it is among the first of either list. */
  lemma KeptExactly(candidates: seq<Process>, topProcessCount: nat, i: nat)
    requires i < |candidates|
    ensures Below(KeptIndices(candidates, topProcessCount), |candidates|) && Distinct(KeptIndices(candidates, topProcessCount))
    ensures RankProcesses(candidates, topProcessCount)
         == At(AllRows(candidates, topProcessCount), KeptIndices(candidates, topProcessCount))
    ensures i in KeptIndices(candidates, topProcessCount)
       <==> Ahead(ByCpu, candidates, i) < Max(topProcessCount, 1) || Ahead(ByMemory, candidates, i) < Max(topProcessCount, 1)
  {
    RankedAre(candidates, topProcessCount);
    TopMembers(ByCpu, candidates, Max(topProcessCount, 1), i);
    TopMembers(ByMemory, candidates, Max(topProcessCount, 1), i);
    hide RankProcesses, AllRows, Ahead, Top;
  }

  /** No process left out of a list ranks before a member of it. */
  lemma NoBetterLeftOut(list: List, candidates: seq<Process>, topProcessCount: nat, i: nat, j: nat)
    requires i < |candidates| && j < |candidates|
    requires i in TopOf(list, candidates, topProcessCount) && j !in TopOf(list, candidates, topProcessCount)
    ensures Precedes(list, candidates, i, j) && !Before(list, candidates[j], candidates[i])
  {
    var order := SortIndices(list, candidates, |candidates|);
    SortIsOrdered(list, candidates, |candidates|);
    var top := TopOf(list, candidates, topProcessCount);
    assert top <= order && |top| == Min(Max(topProcessCount, 1), |order|);
    hide TopOf, SortIndices, Before;
    assert j in order;
    var p :| 0 <= p < |top| && top[p] == i;
    var q :| 0 <= q < |order| && order[q] == j;
    assert order[p] == i;
    BehindPrefix(top, order, q);
    assert Precedes(list, candidates, order[p], order[q]);
    BeforeIsOrder(list, candidates[i], candidates[j], candidates[i]);
  }

  lemma BehindPrefix(top: seq<nat>, order: seq<nat>, q: nat)
    requires top <= order && q < |order| && order[q] !in top
    ensures q >= |top|
  {
    assert forall r :: 0 <= r < |top| ==> top[r] == order[r];
  }

  // ---------- The shape of the result ----------

  /** The order of ranks: strict as long as the ranks of a list of this length fit their type. */
  predicate Rises(length: nat, a: int, b: int) { if length <= U32_MAX + 1 then a < b else a <= b }

  ghost function RisingRank(top: seq<nat>): (nat, nat) -> bool {
    (i: nat, j: nat) => Rises(|top|, RankIn<nat>(top, i).UnwrapOr(0), RankIn<nat>(top, j).UnwrapOr(0))
  }

  lemma RanksRise(length: nat, p: nat, q: nat)
    requires p < q < length
    ensures Rises(length, RankValue(p), RankValue(q))
  {
    assert length <= U32_MAX + 1 ==> RankValue(q) == q;
  }

  lemma RanksAscend(byMemory: seq<nat>, byCpu: seq<nat>, n: nat)
    requires Indices(byMemory, n)
    ensures Chain(Without<nat>(byMemory, byCpu), RisingRank(byMemory))
  {
    forall p, q | 0 <= p < q < |byMemory|
      ensures RisingRank(byMemory)(byMemory[p], byMemory[q])
    {
      RankAt(byMemory, n, p);
      RankAt(byMemory, n, q);
      RanksRise(|byMemory|, p, q);
      var i, j := byMemory[p], byMemory[q];
      assert RankIn<nat>(byMemory, i).UnwrapOr(0) == RankValue(p);
      assert RankIn<nat>(byMemory, j).UnwrapOr(0) == RankValue(q);
      assert Rises(|byMemory|, RankIn<nat>(byMemory, i).UnwrapOr(0), RankIn<nat>(byMemory, j).UnwrapOr(0));
    }
    WithoutChain<nat>(byMemory, byCpu, RisingRank(byMemory));
  }

  lemma KeptParts(candidates: seq<Process>, topProcessCount: nat)
    ensures var byCpu, byMemory := TopOf(ByCpu, candidates, topProcessCount), TopOf(ByMemory, candidates, topProcessCount);
            KeptIndices(candidates, topProcessCount) == byCpu + Without<nat>(byMemory, byCpu)
  {
    TopOfFacts(ByCpu, candidates, topProcessCount);
    TopOfFacts(ByMemory, candidates, topProcessCount);
    hide TopOf;
    FirstsOfUnion<nat>(TopOf(ByCpu, candidates, topProcessCount), TopOf(ByMemory, candidates, topProcessCount));
  }

  ghost function TailIndices(candidates: seq<Process>, topProcessCount: nat): (r: seq<nat>)
    ensures Below(r, |candidates|)
  {
    var byCpu, byMemory := TopOf(ByCpu, candidates, topProcessCount), TopOf(ByMemory, candidates, topProcessCount);
    var tail := Without<nat>(byMemory, byCpu);
    assert forall p :: 0 <= p < |tail| ==> tail[p] in tail;
    tail
  }

  lemma TailRow(candidates: seq<Process>, topProcessCount: nat, p: nat)
    requires p < |TailIndices(candidates, topProcessCount)|
    ensures var i := TailIndices(candidates, topProcessCount)[p];
            var row := AllRows(candidates, topProcessCount)[i];
            && RankOf(row, ByCpu).None? && RankOf(row, ByMemory).Some?
            && RankOf(row, ByMemory) == RankIn(TopOf(ByMemory, candidates, topProcessCount), i)
  {
    var tail := TailIndices(candidates, topProcessCount);
    assert tail[p] in tail;
    RowRank(ByCpu, candidates, topProcessCount, tail[p]);
    RowRank(ByMemory, candidates, topProcessCount, tail[p]);
    hide TopOf, AllRows, RankOf, RankIn;
  }

  lemma TailRises(candidates: seq<Process>, topProcessCount: nat, p: nat, q: nat)
    requires p < q < |TailIndices(candidates, topProcessCount)|
    ensures var tail, all := TailIndices(candidates, topProcessCount), AllRows(candidates, topProcessCount);
            Rises(Min(Max(topProcessCount, 1), |candidates|), RankOf(all[tail[p]], ByMemory).UnwrapOr(0),
                  RankOf(all[tail[q]], ByMemory).UnwrapOr(0))
  {
    TailRow(candidates, topProcessCount, p);
    TailRow(candidates, topProcessCount, q);
    TopOfFacts(ByMemory, candidates, topProcessCount);
    var byCpu, byMemory := TopOf(ByCpu, candidates, topProcessCount), TopOf(ByMemory, candidates, topProcessCount);
    RanksAscend(byMemory, byCpu, |candidates|);
    hide TopOf, AllRows, RankOf, RankIn;
    assert RisingRank(byMemory)(TailIndices(candidates, topProcessCount)[p], TailIndices(candidates, topProcessCount)[q]);
  }

  /** The list by CPU in its order, then rows of the list by memory alone. */
  lemma RankingParts(candidates: seq<Process>, topProcessCount: nat)
    ensures RankProcesses(candidates, topProcessCount)
         == ListRows(ByCpu, candidates, topProcessCount)
            + At(AllRows(candidates, topProcessCount), TailIndices(candidates, topProcessCount))
  {
    RankedAre(candidates, topProcessCount);
    KeptParts(candidates, topProcessCount);
    var byCpu, tail := TopOf(ByCpu, candidates, topProcessCount), TailIndices(candidates, topProcessCount);
    hide RankProcesses, AllRows, TopOf, KeptIndices;
    assert At(AllRows(candidates, topProcessCount), byCpu + tail)
        == At(AllRows(candidates, topProcessCount), byCpu) + At(AllRows(candidates, topProcessCount), tail);
  }

  /** Between min(N, n) and min(2N, n) rows. */
  lemma RankingLength(candidates: seq<Process>, topProcessCount: nat)
    ensures var count, n := Max(topProcessCount, 1), |candidates|;
            Min(count, n) <= |RankProcesses(candidates, topProcessCount)| <= Min(2 * count, n)
  {
    RankedAre(candidates, topProcessCount);
    RankingParts(candidates, topProcessCount);
    ListLength(ByCpu, candidates, topProcessCount);
    TopOfFacts(ByMemory, candidates, topProcessCount);
    hide RankProcesses, AllRows, TopOf, ListRows, KeptIndices;
    DistinctBelow(KeptIndices(candidates, topProcessCount), |candidates|);
  }

  /** The first min(N, n) rows are the list by CPU, in its order; every later row is in the list by memory alone, by rising
    * memory rank, strictly so while the list has at most 2^32 rows. */
  lemma RankingShape(candidates: seq<Process>, topProcessCount: nat)
    ensures var out, head := RankProcesses(candidates, topProcessCount), Min(Max(topProcessCount, 1), |candidates|);
            && head <= |out| && out[..head] == ListRows(ByCpu, candidates, topProcessCount)
            && (forall p :: head <= p < |out| ==> RankOf(out[p], ByCpu).None? && RankOf(out[p], ByMemory).Some?)
            && (forall p, q :: head <= p < q < |out| ==>
                  && RankOf(out[p], ByMemory).UnwrapOr(0) <= RankOf(out[q], ByMemory).UnwrapOr(0)
                  && (head <= U32_MAX + 1 ==> RankOf(out[p], ByMemory).UnwrapOr(0) < RankOf(out[q], ByMemory).UnwrapOr(0)))
  {
    RankingParts(candidates, topProcessCount);
    ListLength(ByCpu, candidates, topProcessCount);
    var tail := TailIndices(candidates, topProcessCount);
    var out, head := RankProcesses(candidates, topProcessCount), Min(Max(topProcessCount, 1), |candidates|);
    hide RankProcesses, AllRows, TailIndices, RankOf, ListRows;
    forall p | head <= p < |out|
      ensures RankOf(out[p], ByCpu).None? && RankOf(out[p], ByMemory).Some?
    {
      TailRow(candidates, topProcessCount, p - head);
    }
    forall p, q | head <= p < q < |out|
      ensures Rises(head, RankOf(out[p], ByMemory).UnwrapOr(0), RankOf(out[q], ByMemory).UnwrapOr(0))
    {
      TailRises(candidates, topProcessCount, p - head, q - head);
    }
  }

  // ---------- The order the candidates come in ----------

  ghost predicate DistinctPids(candidates: seq<Process>) {
    forall i, j :: 0 <= i < j < |candidates| ==> candidates[i].pid != candidates[j].pid
  }

  /** Process ids leave a list no room to outgrow its rank type. */
  lemma PidsBoundLists(candidates: seq<Process>)
    requires DistinctPids(candidates)
    ensures |candidates| <= U32_MAX + 1
  {
    var pids: seq<nat> := seq(|candidates|, i requires 0 <= i < |candidates| => candidates[i].pid);
    DistinctBelow(pids, U32_MAX + 1);
  }

  function BeforeIn(list: List): (Process, Process) -> bool { (a, b) => Before(list, a, b) }

  lemma SortedValues(list: List, candidates: seq<Process>)
    requires DistinctPids(candidates)
    ensures Chain(At(candidates, SortIndices(list, candidates, |candidates|)), BeforeIn(list))
  {
    var order := SortIndices(list, candidates, |candidates|);
    SortIsOrdered(list, candidates, |candidates|);
    OrderedIsDistinct(list, candidates, order);
    forall p, q | 0 <= p < q < |order|
      ensures Before(list, candidates[order[p]], candidates[order[q]])
    {
      var a, b := candidates[order[p]], candidates[order[q]];
      assert Precedes(list, candidates, order[p], order[q]);
      assert a.pid != b.pid by {
        assert order[p] != order[q];
      }
      BeforeIsOrder(list, a, b, a);
    }
  }

  lemma AllValues(list: List, candidates: seq<Process>)
    ensures multiset(At(candidates, SortIndices(list, candidates, |candidates|))) == multiset(candidates)
  {
    var order := SortIndices(list, candidates, |candidates|);
    SortIsOrdered(list, candidates, |candidates|);
    OrderedIsDistinct(list, candidates, order);
    hide SortIndices, Precedes;
    PickAll(candidates, order);
  }

  /** The sorted candidates do not depend on the order they came in. */
  lemma SortForgetsOrder(list: List, candidates: seq<Process>, shuffled: seq<Process>)
    requires DistinctPids(candidates) && DistinctPids(shuffled) && multiset(candidates) == multiset(shuffled)
    ensures At(candidates, SortIndices(list, candidates, |candidates|))
         == At(shuffled, SortIndices(list, shuffled, |shuffled|))
  {
    SortedValues(list, candidates);
    SortedValues(list, shuffled);
    AllValues(list, candidates);
    AllValues(list, shuffled);
    forall a, b
      ensures !(Before(list, a, b) && Before(list, b, a))
    {
      BeforeIsOrder(list, a, b, a);
    }
    var x := At(candidates, SortIndices(list, candidates, |candidates|));
    var y := At(shuffled, SortIndices(list, shuffled, |shuffled|));
    hide SortIndices, DistinctPids, Before, At;
    ChainOnce(x, y, BeforeIn(list));
  }

  lemma TopForgetsOrder(list: List, candidates: seq<Process>, shuffled: seq<Process>, topProcessCount: nat)
    requires DistinctPids(candidates) && DistinctPids(shuffled) && multiset(candidates) == multiset(shuffled)
    ensures At(candidates, TopOf(list, candidates, topProcessCount)) == At(shuffled, TopOf(list, shuffled, topProcessCount))
  {
    SortForgetsOrder(list, candidates, shuffled);
    assert |multiset(candidates)| == |candidates| && |multiset(shuffled)| == |shuffled|;
    var count, n := Max(topProcessCount, 1), |candidates|;
    var m := Min(count, n);
    var x, y := SortIndices(list, candidates, n), SortIndices(list, shuffled, n);
    assert TopOf(list, candidates, topProcessCount) == x[..m] && TopOf(list, shuffled, topProcessCount) == y[..m];
    hide SortIndices, TopOf, DistinctPids;
    assert At(candidates, x[..m]) == At(candidates, x)[..m] && At(shuffled, y[..m]) == At(shuffled, y)[..m];
  }

  // The result in terms of the processes of the two lists.

  function Marked(p: Process, byCpu: seq<Process>, byMemory: seq<Process>): Process {
    WithRank(WithRank(Unranked(p), ByCpu, RankIn(byCpu, p)), ByMemory, RankIn(byMemory, p))
  }

  function MarkedRows(byCpu: seq<Process>, byMemory: seq<Process>): seq<Process> {
    var rows := Firsts(byCpu + byMemory);
    seq(|rows|, p requires 0 <= p < |rows| => Marked(rows[p], byCpu, byMemory))
  }

  lemma {:induction false} RankOfValue(candidates: seq<Process>, top: seq<nat>, i: nat)
    requires DistinctPids(candidates) && Below(top, |candidates|) && i < |candidates|
    ensures RankIn(At(candidates, top), candidates[i]) == RankIn(top, i)
  {
    if top != [] {
      var init, last := top[..|top| - 1], top[|top| - 1];
      RankOfValue(candidates, init, i);
      assert At(candidates, top)[..|top| - 1] == At(candidates, init);
      assert candidates[last] == candidates[i] <==> last == i;
    }
  }

  lemma {:induction false} FirstsOfValues(candidates: seq<Process>, order: seq<nat>)
    requires DistinctPids(candidates) && Below(order, |candidates|)
    ensures Below(Firsts<nat>(order), |candidates|)
    ensures At(candidates, Firsts<nat>(order)) == Firsts(At(candidates, order))
  {
    FirstsBelow(order, |candidates|);
    if order != [] {
      var init, last := order[..|order| - 1], order[|order| - 1];
      FirstsOfValues(candidates, init);
      assert At(candidates, order)[..|order| - 1] == At(candidates, init);
      SameMember(candidates, init, last);
    }
  }

  lemma SameMember(candidates: seq<Process>, order: seq<nat>, i: nat)
    requires DistinctPids(candidates) && Below(order, |candidates|) && i < |candidates|
    ensures candidates[i] in At(candidates, order) <==> i in order
  {
    if candidates[i] in At(candidates, order) {
      var p :| 0 <= p < |order| && At(candidates, order)[p] == candidates[i];
      assert order[p] == i;
    }
    if i in order {
      var p :| 0 <= p < |order| && order[p] == i;
      assert At(candidates, order)[p] == candidates[i];
    }
  }

  /** The processes a ranking keeps. */
  lemma KeptValues(candidates: seq<Process>, topProcessCount: nat)
    requires DistinctPids(candidates)
    ensures Below(KeptIndices(candidates, topProcessCount), |candidates|)
    ensures At(candidates, KeptIndices(candidates, topProcessCount))
         == Firsts(At(candidates, TopOf(ByCpu, candidates, topProcessCount))
                   + At(candidates, TopOf(ByMemory, candidates, topProcessCount)))
  {
    hide TopOf, Firsts, DistinctPids;
    var byCpu, byMemory := TopOf(ByCpu, candidates, topProcessCount), TopOf(ByMemory, candidates, topProcessCount);
    FirstsOfValues(candidates, byCpu + byMemory);
    AtBoth(candidates, byCpu, byMemory);
  }

  lemma AtBoth(values: seq<Process>, a: seq<nat>, b: seq<nat>)
    requires Below(a, |values|) && Below(b, |values|)
    ensures At(values, a + b) == At(values, a) + At(values, b)
  {
  }

  lemma RankingByValues(candidates: seq<Process>, topProcessCount: nat)
    requires DistinctPids(candidates)
    ensures RankProcesses(candidates, topProcessCount)
         == MarkedRows(At(candidates, TopOf(ByCpu, candidates, topProcessCount)),
                       At(candidates, TopOf(ByMemory, candidates, topProcessCount)))
  {
    hide *;
    var byCpu := At(candidates, TopOf(ByCpu, candidates, topProcessCount));
    var byMemory := At(candidates, TopOf(ByMemory, candidates, topProcessCount));
    var all, kept := AllRows(candidates, topProcessCount), KeptIndices(candidates, topProcessCount);
    KeptValues(candidates, topProcessCount);
    RankedAre(candidates, topProcessCount);
    IndexBounds(kept, |candidates|);
    forall p | 0 <= p < |kept|
      ensures all[kept[p]] == Marked(At(candidates, kept)[p], byCpu, byMemory)
    {
      RowByValues(candidates, topProcessCount, kept[p]);
    }
    RowsAreMarked(all, kept, At(candidates, kept), byCpu, byMemory);
  }

  lemma IndexBounds(order: seq<nat>, n: nat)
    requires Below(order, n)
    ensures forall p :: 0 <= p < |order| ==> order[p] < n
  {
  }

  lemma RowsAreMarked(all: seq<Process>, kept: seq<nat>, values: seq<Process>, byCpu: seq<Process>, byMemory: seq<Process>)
    requires Below(kept, |all|) && |values| == |kept| && values == Firsts(byCpu + byMemory)
    requires forall p :: 0 <= p < |kept| ==> all[kept[p]] == Marked(values[p], byCpu, byMemory)
    ensures At(all, kept) == MarkedRows(byCpu, byMemory)
  {
    hide Firsts, Marked;
  }

  lemma RowByValues(candidates: seq<Process>, topProcessCount: nat, i: nat)
    requires DistinctPids(candidates) && i < |candidates|
    ensures AllRows(candidates, topProcessCount)[i]
         == Marked(candidates[i], At(candidates, TopOf(ByCpu, candidates, topProcessCount)),
                   At(candidates, TopOf(ByMemory, candidates, topProcessCount)))
  {
    RankOfValue(candidates, TopOf(ByCpu, candidates, topProcessCount), i);
    RankOfValue(candidates, TopOf(ByMemory, candidates, topProcessCount), i);
    hide Top, RankIn, DistinctPids, Unranked, WithRank;
  }

  /** With distinct process ids the result is the same for every order of the candidates. */
  lemma RankingForgetsOrder(candidates: seq<Process>, shuffled: seq<Process>, topProcessCount: nat)
    requires DistinctPids(candidates) && DistinctPids(shuffled) && multiset(candidates) == multiset(shuffled)
    ensures RankProcesses(candidates, topProcessCount) == RankProcesses(shuffled, topProcessCount)
  {
    hide *;
    TopForgetsOrder(ByCpu, candidates, shuffled, topProcessCount);
    TopForgetsOrder(ByMemory, candidates, shuffled, topProcessCount);
    RankingByValues(candidates, topProcessCount);
    RankingByValues(shuffled, topProcessCount);
  }
}

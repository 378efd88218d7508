/** The dashboard's split of a sample into its two lists, and how it undoes the ranking (`ladder-rules.js`). */
module ProcessLists {
  import opened Prelude
  import opened ProcessRank
  import opened Sequences

  // ---------- The dashboard ----------

  /** A rank the dashboard accepts: a nonnegative integer. */
  function RankOf(p: Process, list: List): Option<int> {
    var rank := if list == ByCpu then p.cpuRank else p.memoryRank;
    if rank.Some? && rank.value >= 0 then rank else None
  }

  /** The sort key of a list; only ranked rows are sorted. */
  function Key(list: List): Process -> int { p => RankOf(p, list).UnwrapOr(0) }

  /** The ranked rows, by rank and then by position. */
  function RankedBy(rows: seq<Process>, list: List): seq<Process> {
    if rows == [] then []
    else
      var last, before := rows[|rows| - 1], RankedBy(rows[..|rows| - 1], list);
      if RankOf(last, list).None? then before else InsertBy(last, before, Key(list))
  }

  predicate AnyRank(rows: seq<Process>, list: List) { exists p :: p in rows && RankOf(p, list).Some? }

  /** `memory` is `None` when the sample has no list by memory to show. */
  datatype Lists = Lists(cpu: seq<Process>, memory: Option<seq<Process>>)

  function ProcessListsFrom(rows: seq<Process>): Lists {
    if rows == [] then Lists([], Some([]))
    else if !AnyRank(rows, ByCpu) && !AnyRank(rows, ByMemory) then Lists(rows, None)
    else Lists(RankedBy(rows, ByCpu), if AnyRank(rows, ByMemory) then Some(RankedBy(rows, ByMemory)) else None)
  }

  // ---------- Sorting by rank ----------

  /** Ranking by a list keeps exactly the rows that list ranks, with their multiplicities, in order. */
  lemma {:induction false} RankedByIs(rows: seq<Process>, list: List)
    ensures SortedBy(RankedBy(rows, list), Key(list), false)
    ensures forall p :: multiset(RankedBy(rows, list))[p] == if RankOf(p, list).Some? then multiset(rows)[p] else 0
  {
    hide RankOf, InsertBy, Key, SortedBy;
    if rows == [] {
      EmptySorted(Key(list));
    } else {
      var init, last := rows[..|rows| - 1], rows[|rows| - 1];
      assert rows == init + [last];
      RankedByIs(init, list);
      InsertSorts(last, RankedBy(init, list), Key(list));
      InsertKeepsAll(last, RankedBy(init, list), Key(list));
    }
  }

  lemma EmptySorted(key: Process -> int)
    ensures SortedBy([], key, false)
  {
  }

  lemma {:induction false} TakenAreFirsts(rows: seq<Process>, order: seq<nat>)
    requires forall p :: 0 <= p < |order| ==> order[p] < |rows|
    ensures forall p :: 0 <= p < |Firsts<nat>(order)| ==> Firsts<nat>(order)[p] < |rows|
    ensures Taken(rows, order) == At(rows, Firsts<nat>(order))
  {
    FirstsBelow(order, |rows|);
    if order != [] {
      TakenAreFirsts(rows, order[..|order| - 1]);
    }
  }

  lemma FirstsBelow(order: seq<nat>, n: nat)
    requires forall p :: 0 <= p < |order| ==> order[p] < n
    ensures forall p :: 0 <= p < |Firsts<nat>(order)| ==> Firsts<nat>(order)[p] < n
  {
    forall p | 0 <= p < |Firsts<nat>(order)|
      ensures Firsts<nat>(order)[p] < n
    {
      assert Firsts<nat>(order)[p] in Firsts<nat>(order) && Firsts<nat>(order)[p] in order;
    }
  }

  // ---------- The rows of a ranking ----------

  /** The row of every candidate, in the order they came. */
  function AllRows(candidates: seq<Process>, topProcessCount: nat): (r: seq<Process>)
    ensures |r| == |candidates|
  {
    var count := Max(topProcessCount, 1);
    Rows(candidates, Top(ByCpu, candidates, count), Top(ByMemory, candidates, count))
  }

  function TopOf(list: List, candidates: seq<Process>, topProcessCount: nat): (r: seq<nat>)
    ensures forall p :: 0 <= p < |r| ==> r[p] < |candidates|
  {
    Top(list, candidates, Max(topProcessCount, 1))
  }

  /** One list in its order: the processes with the fewest others before them. */
  function ListRows(list: List, candidates: seq<Process>, topProcessCount: nat): seq<Process> {
    At(AllRows(candidates, topProcessCount), TopOf(list, candidates, topProcessCount))
  }

  lemma TopOfFacts(list: List, candidates: seq<Process>, topProcessCount: nat)
    ensures var top := TopOf(list, candidates, topProcessCount);
            && |top| == Min(Max(topProcessCount, 1), |candidates|)
            && Indices(top, |candidates|) && Distinct(top) && Below(top, |candidates|)
  {
    TopFacts(list, candidates, Max(topProcessCount, 1));
    hide Top;
  }

  lemma RowRank(list: List, candidates: seq<Process>, topProcessCount: nat, i: nat)
    requires i < |candidates|
    ensures RankOf(AllRows(candidates, topProcessCount)[i], list) == RankIn(TopOf(list, candidates, topProcessCount), i)
    ensures RankOf(AllRows(candidates, topProcessCount)[i], list).Some? <==> i in TopOf(list, candidates, topProcessCount)
  {
    TopOfFacts(list, candidates, topProcessCount);
    var top := TopOf(list, candidates, topProcessCount);
    hide Top;
    RankNonNegative(Top(ByCpu, candidates, Max(topProcessCount, 1)), i);
    RankNonNegative(Top(ByMemory, candidates, Max(topProcessCount, 1)), i);
    if i in top {
      var p :| 0 <= p < |top| && top[p] == i;
      RankAt(top, |candidates|, p);
    } else {
      RankNowhere(top, i);
    }
  }

  lemma {:induction false} RankNonNegative(top: seq<nat>, i: nat)
    ensures RankIn(top, i).Some? ==> RankIn(top, i).value >= 0
  {
    if top != [] {
      RankNonNegative(top[..|top| - 1], i);
    }
  }

  /** The candidates a ranking keeps, in the order of their rows. */
  ghost function KeptIndices(candidates: seq<Process>, topProcessCount: nat): seq<nat> {
    Firsts<nat>(TopOf(ByCpu, candidates, topProcessCount) + TopOf(ByMemory, candidates, topProcessCount))
  }

  lemma RankedAre(candidates: seq<Process>, topProcessCount: nat)
    ensures var kept := KeptIndices(candidates, topProcessCount);
            && Below(kept, |candidates|) && Distinct(kept)
            && RankProcesses(candidates, topProcessCount) == At(AllRows(candidates, topProcessCount), kept)
  {
    var order := TopOf(ByCpu, candidates, topProcessCount) + TopOf(ByMemory, candidates, topProcessCount);
    hide Top, Rows, Taken;
    TakenAreFirsts(AllRows(candidates, topProcessCount), order);
    FirstsDistinct<nat>(order);
  }

  lemma ListIndices(list: List, candidates: seq<Process>, topProcessCount: nat, x: Process)
    requires RankOf(x, list).Some?
    ensures IndicesOf(AllRows(candidates, topProcessCount), KeptIndices(candidates, topProcessCount), x)
         == IndicesOf(AllRows(candidates, topProcessCount), TopOf(list, candidates, topProcessCount), x)
  {
    var all := AllRows(candidates, topProcessCount);
    var top := TopOf(list, candidates, topProcessCount);
    assert forall i :: i in top ==> i in KeptIndices(candidates, topProcessCount);
    hide AllRows, TopOf, RankOf, KeptIndices;
    forall i: nat | i < |all| && all[i] == x
      ensures i in top
    {
      RowRank(list, candidates, topProcessCount, i);
    }
  }

  /** Each row a list ranks is emitted as often as the list holds it. */
  lemma ListCount(list: List, candidates: seq<Process>, topProcessCount: nat, x: Process)
    requires RankOf(x, list).Some?
    ensures multiset(RankProcesses(candidates, topProcessCount))[x] == multiset(ListRows(list, candidates, topProcessCount))[x]
  {
    var all := AllRows(candidates, topProcessCount);
    var top := TopOf(list, candidates, topProcessCount);
    hide RankProcesses, AllRows, TopOf, RankOf, KeptIndices, IndicesOf;
    RankedAre(candidates, topProcessCount);
    TopOfFacts(list, candidates, topProcessCount);
    CountAt(all, KeptIndices(candidates, topProcessCount), x);
    CountAt(all, top, x);
    ListIndices(list, candidates, topProcessCount, x);
  }

  /** In a list short enough not to saturate, the rank of a row is its place. */
  lemma RankIsPlace(list: List, candidates: seq<Process>, topProcessCount: nat, p: nat)
    requires p < |ListRows(list, candidates, topProcessCount)| && p <= U32_MAX
    ensures RankOf(ListRows(list, candidates, topProcessCount)[p], list) == Some(p)
  {
    var top := TopOf(list, candidates, topProcessCount);
    TopOfFacts(list, candidates, topProcessCount);
    hide TopOf, AllRows, RankOf, RankIn;
    RowRank(list, candidates, topProcessCount, top[p]);
    RankAt(top, |candidates|, p);
  }

  lemma ListLength(list: List, candidates: seq<Process>, topProcessCount: nat)
    ensures |ListRows(list, candidates, topProcessCount)| == Min(Max(topProcessCount, 1), |candidates|)
  {
    TopOfFacts(list, candidates, topProcessCount);
    hide TopOf, AllRows;
  }

  lemma ListInRankOrder(list: List, candidates: seq<Process>, topProcessCount: nat)
    requires Min(Max(topProcessCount, 1), |candidates|) <= U32_MAX + 1
    ensures SortedBy(ListRows(list, candidates, topProcessCount), Key(list), true)
    ensures forall x :: x in ListRows(list, candidates, topProcessCount) ==> RankOf(x, list).Some?
  {
    ListLength(list, candidates, topProcessCount);
    hide ListRows, RankOf;
    forall p | 0 <= p < |ListRows(list, candidates, topProcessCount)|
      ensures RankOf(ListRows(list, candidates, topProcessCount)[p], list) == Some(p)
    {
      RankIsPlace(list, candidates, topProcessCount, p);
    }
  }

  lemma RankedRowsCount(list: List, candidates: seq<Process>, topProcessCount: nat, rows: seq<Process>, x: Process)
    requires Min(Max(topProcessCount, 1), |candidates|) <= U32_MAX + 1
    requires multiset(rows) == multiset(RankProcesses(candidates, topProcessCount))
    ensures multiset(RankedBy(rows, list))[x] == multiset(ListRows(list, candidates, topProcessCount))[x]
  {
    RankedByIs(rows, list);
    ListInRankOrder(list, candidates, topProcessCount);
    hide RankedBy, ListRows, RankProcesses, RankOf, SortedBy, Key;
    if RankOf(x, list).Some? {
      ListCount(list, candidates, topProcessCount, x);
    } else {
      assert x !in ListRows(list, candidates, topProcessCount);
    }
  }

  lemma RankedRowsAreList(list: List, candidates: seq<Process>, topProcessCount: nat, rows: seq<Process>)
    requires Min(Max(topProcessCount, 1), |candidates|) <= U32_MAX + 1
    requires multiset(rows) == multiset(RankProcesses(candidates, topProcessCount))
    ensures RankedBy(rows, list) == ListRows(list, candidates, topProcessCount)
  {
    RankedByIs(rows, list);
    ListInRankOrder(list, candidates, topProcessCount);
    hide RankedBy, ListRows, RankProcesses, RankOf, SortedBy, Key;
    forall x
      ensures multiset(RankedBy(rows, list))[x] == multiset(ListRows(list, candidates, topProcessCount))[x]
    {
      RankedRowsCount(list, candidates, topProcessCount, rows, x);
    }
    SortedOnce(RankedBy(rows, list), ListRows(list, candidates, topProcessCount), Key(list));
  }

  lemma RankedSome(rows: seq<Process>, list: List)
    requires RankedBy(rows, list) != []
    ensures AnyRank(rows, list) && rows != []
  {
    RankedByIs(rows, list);
    var first := RankedBy(rows, list)[0];
    hide RankOf;
    assert first in multiset(RankedBy(rows, list));
    assert first in multiset(rows);
  }

  /** Splitting undoes ranking: whatever order the rows of a ranking reach the dashboard in, it shows exactly the two
    * lists, each in rank order. */
  lemma SplitUndoesRanking(candidates: seq<Process>, topProcessCount: nat, rows: seq<Process>)
    requires candidates != [] && Min(Max(topProcessCount, 1), |candidates|) <= U32_MAX + 1
    requires multiset(rows) == multiset(RankProcesses(candidates, topProcessCount))
    ensures ProcessListsFrom(rows)
         == Lists(ListRows(ByCpu, candidates, topProcessCount), Some(ListRows(ByMemory, candidates, topProcessCount)))
  {
    RankedRowsAreList(ByCpu, candidates, topProcessCount, rows);
    RankedRowsAreList(ByMemory, candidates, topProcessCount, rows);
    TopOfFacts(ByCpu, candidates, topProcessCount);
    TopOfFacts(ByMemory, candidates, topProcessCount);
    assert ListRows(ByCpu, candidates, topProcessCount) != [] && ListRows(ByMemory, candidates, topProcessCount) != [];
    hide RankedBy, ListRows, RankProcesses, AnyRank;
    RankedSome(rows, ByCpu);
    RankedSome(rows, ByMemory);
  }

  // ---------- Every sample, in figures ----------

  /** The row carries a rank of the list that is not negative. */
  predicate Ranked(row: Process, list: List) {
    match list
    case ByCpu => row.cpuRank.Some? && row.cpuRank.value >= 0
    case ByMemory => row.memoryRank.Some? && row.memoryRank.value >= 0
  }

  function RankFigure(row: Process, list: List): int
    requires Ranked(row, list)
  {
    match list
    case ByCpu => row.cpuRank.value
    case ByMemory => row.memoryRank.value
  }

  /** Row `i` of the sample stands before row `j`: by rank, and of the same rank by its place in the sample. */
  ghost predicate StandsBefore(rows: seq<Process>, list: List, i: nat, j: nat) {
    && i < |rows| && j < |rows| && Ranked(rows[i], list) && Ranked(rows[j], list)
    && (RankFigure(rows[i], list) < RankFigure(rows[j], list) || (RankFigure(rows[i], list) == RankFigure(rows[j], list) && i < j))
  }

  /** `order` are the places of the ranked rows, in their order. */
  ghost predicate RankedPlaces(rows: seq<Process>, list: List, order: seq<nat>) {
    && (forall i: nat :: i in order <==> i < |rows| && Ranked(rows[i], list))
    && forall p, q :: 0 <= p < q < |order| ==> StandsBefore(rows, list, order[p], order[q])
  }

  ghost predicate RowsAt(rows: seq<Process>, order: seq<nat>, picked: seq<Process>) {
    |picked| == |order| && forall p :: 0 <= p < |order| ==> order[p] < |rows| && picked[p] == rows[order[p]]
  }

  lemma RankedIs(row: Process, list: List)
    ensures RankOf(row, list).Some? <==> Ranked(row, list)
    ensures Ranked(row, list) ==> Key(list)(row) == RankFigure(row, list)
  {
  }

  /** Inserting the last row behind those of no greater rank. */
  lemma {:induction false} InsertPlace(rows: seq<Process>, list: List, order: seq<nat>, picked: seq<Process>) returns (r: seq<nat>)
    requires rows != [] && Ranked(rows[|rows| - 1], list) && RowsAt(rows, order, picked)
    requires forall p :: 0 <= p < |order| ==> order[p] < |rows| - 1 && Ranked(rows[order[p]], list)
    requires forall p, q :: 0 <= p < q < |order| ==> StandsBefore(rows, list, order[p], order[q])
    ensures RowsAt(rows, r, InsertBy(rows[|rows| - 1], picked, Key(list)))
    ensures forall p, q :: 0 <= p < q < |r| ==> StandsBefore(rows, list, r[p], r[q])
    ensures forall i: nat :: i in r <==> i in order || i == |rows| - 1
    decreases |order|
  {
    hide Ranked, RankFigure, Key;
    var n: nat := |rows| - 1;
    RankedIs(rows[n], list);
    if order == [] {
      r := [n];
    } else {
      RankedIs(picked[0], list);
      assert order == [order[0]] + order[1..];
      if Key(list)(rows[n]) < Key(list)(picked[0]) {
        r := [n] + order;
      } else {
        var rest := InsertPlace(rows, list, order[1..], picked[1..]);
        r := [order[0]] + rest;
        forall q | 0 <= q < |rest|
          ensures StandsBefore(rows, list, order[0], rest[q])
        {
          assert rest[q] in rest;
          if rest[q] != n {
            assert rest[q] in order[1..];
          }
        }
      }
    }
  }

  /** The rows ranked by a list are its ranked rows, each in its place: in the order of their ranks, and those of one rank in
    * the order of the sample. */
  lemma {:induction false} RankedByExactly(rows: seq<Process>, list: List) returns (order: seq<nat>)
    ensures RankedPlaces(rows, list, order) && RowsAt(rows, order, RankedBy(rows, list))
    decreases |rows|
  {
    hide Ranked, RankFigure, InsertBy;
    if rows == [] {
      order := [];
    } else {
      var init, last := rows[..|rows| - 1], rows[|rows| - 1];
      order := RankedByExactly(init, list);
      RankedIs(last, list);
      MorePlaces(init, rows, list, order, RankedBy(init, list));
      if Ranked(last, list) {
        order := InsertPlace(rows, list, order, RankedBy(init, list));
      }
    }
  }

  lemma MorePlaces(init: seq<Process>, rows: seq<Process>, list: List, order: seq<nat>, picked: seq<Process>)
    requires rows != [] && init == rows[..|rows| - 1] && RankedPlaces(init, list, order) && RowsAt(init, order, picked)
    ensures RowsAt(rows, order, picked)
    ensures forall p :: 0 <= p < |order| ==> order[p] < |rows| - 1 && Ranked(rows[order[p]], list)
    ensures forall p, q :: 0 <= p < q < |order| ==> StandsBefore(rows, list, order[p], order[q])
    ensures forall i: nat :: i in order <==> i < |rows| - 1 && Ranked(rows[i], list)
  {
    hide Ranked, RankFigure;
    assert forall i :: 0 <= i < |init| ==> init[i] == rows[i];
    forall p | 0 <= p < |order|
      ensures order[p] < |rows| - 1 && Ranked(rows[order[p]], list)
    {
      assert order[p] in order;
    }
    forall p, q | 0 <= p < q < |order|
      ensures StandsBefore(rows, list, order[p], order[q])
    {
      assert StandsBefore(init, list, order[p], order[q]);
    }
  }

  ghost predicate SomeRanked(rows: seq<Process>, list: List) { exists i :: 0 <= i < |rows| && Ranked(rows[i], list) }

  lemma AnyRankIs(rows: seq<Process>, list: List)
    ensures AnyRank(rows, list) <==> SomeRanked(rows, list)
  {
    hide Ranked, RankOf;
    forall i | 0 <= i < |rows|
      ensures RankOf(rows[i], list).Some? <==> Ranked(rows[i], list)
    {
      RankedIs(rows[i], list);
    }
  }

  /** What the dashboard shows of any sample. A sample without any rank is shown as it came, without a list by memory;
    * else the list by CPU holds the rows with a CPU rank and the list by memory, if any row has a memory rank, those. */
  lemma SplitExactly(rows: seq<Process>) returns (byCpu: seq<nat>, byMemory: seq<nat>)
    ensures var lists := ProcessListsFrom(rows);
            if !SomeRanked(rows, ByCpu) && !SomeRanked(rows, ByMemory)
            then lists.cpu == rows && lists.memory == (if rows == [] then Some([]) else None)
            else
              && RankedPlaces(rows, ByCpu, byCpu) && RowsAt(rows, byCpu, lists.cpu)
              && (lists.memory.Some? <==> SomeRanked(rows, ByMemory))
              && (lists.memory.Some? ==> RankedPlaces(rows, ByMemory, byMemory) && RowsAt(rows, byMemory, lists.memory.value))
  {
    hide AnyRank, RankedBy, RankedPlaces, RowsAt;
    AnyRankIs(rows, ByCpu);
    AnyRankIs(rows, ByMemory);
    byCpu := RankedByExactly(rows, ByCpu);
    byMemory := RankedByExactly(rows, ByMemory);
  }
}

/** Which processes a sample keeps, and in what order (`process_rank.rs`). */
module ProcessRank {
  import opened Prelude

  const U32_MAX: int := 0xFFFF_FFFF
  const U64_MAX: int := 0xFFFF_FFFF_FFFF_FFFF

  type Pid = n: int | 0 <= n <= U32_MAX
  type Bytes = n: int | 0 <= n <= U64_MAX

  /** A CPU figure: a float, without the sign of zero. */
  datatype Figure = NotANumber | MinusInfinity | Finite(value: real) | PlusInfinity

  /** A process; `about` stands for the fields that take no part in the ranking. */
  datatype Process = Process(pid: Pid, cpuPercent: Figure, rssBytes: Bytes, swapBytes: Option<Bytes>, about: string,
                             cpuRank: Option<int>, memoryRank: Option<int>)

  // ---------- The two orders ----------

  function MemoryFootprint(p: Process): int { Min(p.rssBytes + p.swapBytes.UnwrapOr(0), U64_MAX) }

  function CpuKey(p: Process): Figure { if p.cpuPercent.NotANumber? then MinusInfinity else p.cpuPercent }

  predicate FigureLess(a: Figure, b: Figure)
    requires !a.NotANumber? && !b.NotANumber?
  {
    match (a, b)
    case (MinusInfinity, _) => !b.MinusInfinity?
    case (_, PlusInfinity) => !a.PlusInfinity?
    case (Finite(x), Finite(y)) => x < y
    case _ => false
  }

  datatype List = ByCpu | ByMemory

  /** `left` ranks before `right`. */
  predicate Before(list: List, left: Process, right: Process) {
    var moreCpu := FigureLess(CpuKey(right), CpuKey(left));
    var sameCpu := CpuKey(right) == CpuKey(left);
    var moreMemory := MemoryFootprint(right) < MemoryFootprint(left);
    var sameMemory := MemoryFootprint(right) == MemoryFootprint(left);
    match list
    case ByCpu => moreCpu || (sameCpu && (moreMemory || (sameMemory && left.pid < right.pid)))
    case ByMemory => moreMemory || (sameMemory && (moreCpu || (sameCpu && left.pid < right.pid)))
  }

  /** The order is a strict weak order, and total on different pids. */
  lemma BeforeIsOrder(list: List, a: Process, b: Process, c: Process)
    ensures !(Before(list, a, b) && Before(list, b, a))
    ensures Before(list, a, b) && Before(list, b, c) ==> Before(list, a, c)
    ensures Before(list, a, c) ==> Before(list, a, b) || Before(list, b, c)
    ensures a.pid != b.pid ==> Before(list, a, b) || Before(list, b, a)
  {
    hide MemoryFootprint;
  }

  /** A process whose CPU figure is undefined comes after every process with a finite or infinite one, by CPU. */
  lemma UndefinedCpuIsLast(a: Process, b: Process)
    requires a.cpuPercent.NotANumber? && (b.cpuPercent.Finite? || b.cpuPercent.PlusInfinity?)
    ensures Before(ByCpu, b, a) && !Before(ByCpu, a, b)
  {
  }

  // ---------- Sorting the indices ----------

  /** The place of candidate `i` before candidate `j` in a stable sort. */
  predicate Precedes(list: List, candidates: seq<Process>, i: nat, j: nat)
    requires i < |candidates| && j < |candidates|
  {
    || Before(list, candidates[i], candidates[j])
    || (!Before(list, candidates[j], candidates[i]) && i < j)
  }

  lemma PrecedesIsTotal(list: List, candidates: seq<Process>, i: nat, j: nat, k: nat)
    requires i < |candidates| && j < |candidates| && k < |candidates|
    ensures !(Precedes(list, candidates, i, j) && Precedes(list, candidates, j, i))
    ensures i == j || Precedes(list, candidates, i, j) || Precedes(list, candidates, j, i)
    ensures Precedes(list, candidates, i, j) && Precedes(list, candidates, j, k) ==> Precedes(list, candidates, i, k)
  {
    var a, b, c := candidates[i], candidates[j], candidates[k];
    BeforeIsOrder(list, a, b, c);
    BeforeIsOrder(list, b, a, c);
    BeforeIsOrder(list, b, c, a);
    BeforeIsOrder(list, c, a, b);
    BeforeIsOrder(list, c, b, a);
    BeforeIsOrder(list, a, c, b);
    hide Before;
  }

  /** Only candidates, each at most once. */
  ghost predicate Indices(order: seq<nat>, n: nat) {
    && (forall p :: 0 <= p < |order| ==> order[p] < n)
    && (forall p, q :: 0 <= p < q < |order| ==> order[p] != order[q])
  }

  function InsertIndex(list: List, candidates: seq<Process>, i: nat, order: seq<nat>): (r: seq<nat>)
    requires i < |candidates| && forall p :: 0 <= p < |order| ==> order[p] < |candidates|
    ensures |r| == |order| + 1 && forall j :: j in r <==> j == i || j in order
    ensures forall p :: 0 <= p < |r| ==> r[p] < |candidates|
  {
    if order == [] || Precedes(list, candidates, i, order[0]) then [i] + order
    else
      assert order == [order[0]] + order[1..];
      [order[0]] + InsertIndex(list, candidates, i, order[1..])
  }

  /** The stable sort of the first `n` candidate indices. */
  function SortIndices(list: List, candidates: seq<Process>, n: nat): (r: seq<nat>)
    requires n <= |candidates|
    ensures |r| == n && forall j: nat :: j in r <==> j < n
    ensures forall p :: 0 <= p < |r| ==> r[p] < |candidates|
  {
    if n == 0 then [] else InsertIndex(list, candidates, n - 1, SortIndices(list, candidates, n - 1))
  }

  ghost predicate Ordered(list: List, candidates: seq<Process>, order: seq<nat>) {
    && (forall p :: 0 <= p < |order| ==> order[p] < |candidates|)
    && (forall p, q :: 0 <= p < q < |order| ==> Precedes(list, candidates, order[p], order[q]))
  }

  lemma PrecedesAll(list: List, candidates: seq<Process>, i: nat, order: seq<nat>)
    requires i < |candidates| && Ordered(list, candidates, order)
    requires order != [] && Precedes(list, candidates, i, order[0])
    ensures Ordered(list, candidates, [i] + order)
  {
    hide Precedes;
    forall q | 0 <= q < |order|
      ensures Precedes(list, candidates, i, order[q])
    {
      PrecedesIsTotal(list, candidates, i, order[0], order[q]);
    }
  }

  lemma {:induction false} InsertOrdered(list: List, candidates: seq<Process>, i: nat, order: seq<nat>)
    requires i < |candidates| && Ordered(list, candidates, order) && i !in order
    ensures Ordered(list, candidates, InsertIndex(list, candidates, i, order))
  {
    hide Precedes;
    if order != [] {
      if Precedes(list, candidates, i, order[0]) {
        PrecedesAll(list, candidates, i, order);
      } else {
        var rest := InsertIndex(list, candidates, i, order[1..]);
        InsertOrdered(list, candidates, i, order[1..]);
        PrecedesIsTotal(list, candidates, i, order[0], order[0]);
        assert rest[0] in rest;
        assert rest[0] == i || rest[0] in order[1..];
        PrecedesAll(list, candidates, order[0], rest);
      }
    }
  }

  lemma {:induction false} SortIsOrdered(list: List, candidates: seq<Process>, n: nat)
    requires n <= |candidates|
    ensures Ordered(list, candidates, SortIndices(list, candidates, n))
  {
    if n > 0 {
      hide Precedes, InsertIndex;
      SortIsOrdered(list, candidates, n - 1);
      InsertOrdered(list, candidates, n - 1, SortIndices(list, candidates, n - 1));
    }
  }

  /** In a sorted order no index comes twice. */
  lemma OrderedIsDistinct(list: List, candidates: seq<Process>, order: seq<nat>)
    requires Ordered(list, candidates, order)
    ensures Indices(order, |candidates|)
  {
    hide Precedes;
    forall p, q | 0 <= p < q < |order|
      ensures order[p] != order[q]
    {
      PrecedesIsTotal(list, candidates, order[p], order[q], order[q]);
    }
  }

  /** The first `count` of a list, sorted and truncated. */
  function Top(list: List, candidates: seq<Process>, count: nat): (r: seq<nat>)
    ensures forall p :: 0 <= p < |r| ==> r[p] < |candidates|
  {
    var order := SortIndices(list, candidates, |candidates|);
    order[..Min(count, |order|)]
  }

  // ---------- The rows ----------

  function RankValue(rank: nat): int { Min(rank, U32_MAX) }

  /** The rank that the enumeration of `top` leaves on `i`. */
  function RankIn<T(==)>(top: seq<T>, i: T): Option<int> {
    if top == [] then None
    else if top[|top| - 1] == i then Some(RankValue(|top| - 1))
    else RankIn(top[..|top| - 1], i)
  }

  function Unranked(p: Process): Process { p.(cpuRank := None, memoryRank := None) }

  /** `p` with a rank of one list written over, if there is one to write. */
  function WithRank(p: Process, list: List, rank: Option<int>): Process {
    if rank.None? then p
    else
      match list
      case ByCpu => p.(cpuRank := rank)
      case ByMemory => p.(memoryRank := rank)
  }

  function RowOf(candidates: seq<Process>, byCpu: seq<nat>, byMemory: seq<nat>, i: nat): Process
    requires i < |candidates|
  {
    WithRank(WithRank(Unranked(candidates[i]), ByCpu, RankIn<nat>(byCpu, i)), ByMemory, RankIn<nat>(byMemory, i))
  }

  /** The rows of the indices of `order`, each index taken once. */
  function Taken(rows: seq<Process>, order: seq<nat>): seq<Process>
    requires forall p :: 0 <= p < |order| ==> order[p] < |rows|
  {
    if order == [] then []
    else
      var init, last := order[..|order| - 1], order[|order| - 1];
      Taken(rows, init) + (if last in init then [] else [rows[last]])
  }

  function Rows(candidates: seq<Process>, byCpu: seq<nat>, byMemory: seq<nat>): seq<Process> {
    seq(|candidates|, i requires 0 <= i < |candidates| => RowOf(candidates, byCpu, byMemory, i))
  }

  function RankProcesses(candidates: seq<Process>, topProcessCount: nat): seq<Process> {
    var count := Max(topProcessCount, 1);
    var byCpu, byMemory := Top(ByCpu, candidates, count), Top(ByMemory, candidates, count);
    Taken(Rows(candidates, byCpu, byMemory), byCpu + byMemory)
  }

  lemma RankStep(top: seq<nat>, r: nat, i: nat)
    requires r < |top|
    ensures RankIn<nat>(top[..r + 1], i) == if top[r] == i then Some(RankValue(r)) else RankIn<nat>(top[..r], i)
  {
    assert top[..r + 1][..r] == top[..r];
  }

  /** Writing the ranks of one list into the slots, in rank order. */
  method WriteRanks(slots: array<Option<Process>>, list: List, top: seq<nat>)
    requires forall p :: 0 <= p < |top| ==> top[p] < slots.Length
    requires forall i :: 0 <= i < slots.Length ==> slots[i].Some?
    modifies slots
    ensures forall i :: 0 <= i < slots.Length ==> slots[i] == Some(WithRank(old(slots[i]).value, list, RankIn<nat>(top, i)))
  {
    for rank := 0 to |top|
      invariant forall i :: 0 <= i < slots.Length ==>
          slots[i] == Some(WithRank(old(slots[i]).value, list, RankIn<nat>(top[..rank], i)))
    {
      forall i: nat | i < slots.Length
        ensures RankIn<nat>(top[..rank + 1], i) == if top[rank] == i then Some(RankValue(rank)) else RankIn<nat>(top[..rank], i)
      {
        RankStep(top, rank, i);
      }
      hide RankIn, RankValue;
      var index := top[rank];
      if slots[index].Some? {
        var value := Some(RankValue(rank));
        slots[index] := Some(if list == ByCpu then slots[index].value.(cpuRank := value)
                             else slots[index].value.(memoryRank := value));
      }
    }
    assert top[..|top|] == top;
  }

  /** Taking the slots in the order given; a slot taken is empty. */
  method TakeSlots(slots: array<Option<Process>>, order: seq<nat>, ghost all: seq<Process>) returns (rows: seq<Process>)
    requires forall p :: 0 <= p < |order| ==> order[p] < slots.Length
    requires |all| == slots.Length && forall i :: 0 <= i < slots.Length ==> slots[i] == Some(all[i])
    modifies slots
    ensures rows == Taken(all, order)
  {
    rows := [];
    for p := 0 to |order|
      invariant rows == Taken(all, order[..p])
      invariant forall i: nat :: i < slots.Length ==> slots[i] == if i in order[..p] then None else Some(all[i])
    {
      var index := order[p];
      assert order[..p + 1][..p] == order[..p] && order[..p + 1] == order[..p] + [index];
      if slots[index].Some? {
        rows := rows + [slots[index].value];
        slots[index] := None;
      }
    }
    assert order[..|order|] == order;
  }

  /** The ranking as it is done: ranks written into slots, the slots taken in list order. */
  method RankInSlots(candidates: seq<Process>, topProcessCount: nat) returns (rows: seq<Process>)
    ensures rows == RankProcesses(candidates, topProcessCount)
  {
    var count := Max(topProcessCount, 1);
    var byCpu := Top(ByCpu, candidates, count);
    var byMemory := Top(ByMemory, candidates, count);
    hide Top, RankIn, Taken, WithRank;
    var slots := new Option<Process>[|candidates|](i requires 0 <= i < |candidates| => Some(Unranked(candidates[i])));
    WriteRanks(slots, ByCpu, byCpu);
    WriteRanks(slots, ByMemory, byMemory);
    ghost var all := Rows(candidates, byCpu, byMemory);
    rows := TakeSlots(slots, byCpu + byMemory, all);
  }

  // ---------- What a list is ----------

  /** How many candidates precede candidate `i`. */
  function Ahead(list: List, candidates: seq<Process>, i: nat): nat
    requires i < |candidates|
  {
    |set j: nat | j < |candidates| && Precedes(list, candidates, j, i)|
  }

  /** Who precedes has fewer ahead. */
  lemma AheadGrows(list: List, candidates: seq<Process>, i: nat, j: nat)
    requires i < |candidates| && j < |candidates| && Precedes(list, candidates, i, j)
    ensures Ahead(list, candidates, i) < Ahead(list, candidates, j)
  {
    hide Precedes;
    var n := |candidates|;
    var a := set k: nat | k < n && Precedes(list, candidates, k, i);
    var b := set k: nat | k < n && Precedes(list, candidates, k, j);
    PrecedesIsTotal(list, candidates, i, i, i);
    forall k: nat | k < n && Precedes(list, candidates, k, i)
      ensures Precedes(list, candidates, k, j)
    {
      PrecedesIsTotal(list, candidates, k, i, j);
    }
    assert a + {i} <= b && i !in a;
    SubsetCard(a + {i}, b);
  }

  lemma {:induction false} SubsetCard(a: set<nat>, b: set<nat>)
    requires a <= b
    ensures |a| <= |b|
  {
    if a != {} {
      var x := Pick(a);
      SubsetCard(a - {x}, b - {x});
    }
  }

  /** In the list by CPU, a process whose figure is undefined never stands before one whose figure is finite. */
  lemma UndefinedCpuRanksLast(candidates: seq<Process>, i: nat, j: nat)
    requires i < |candidates| && j < |candidates|
    requires candidates[i].cpuPercent.NotANumber? && candidates[j].cpuPercent.Finite?
    ensures Ahead(ByCpu, candidates, j) < Ahead(ByCpu, candidates, i)
  {
    UndefinedCpuIsLast(candidates[i], candidates[j]);
    hide Before, Ahead;
    AheadGrows(ByCpu, candidates, j, i);
  }

  lemma {:induction false} CardOfPrefix(order: seq<nat>, n: nat, p: nat)
    requires Indices(order, n) && p <= |order|
    ensures |set q | 0 <= q < p :: order[q]| == p
  {
    if p > 0 {
      CardOfPrefix(order, n, p - 1);
      var smaller := set q | 0 <= q < p - 1 :: order[q];
      assert order[p - 1] !in smaller;
      assert (set q | 0 <= q < p :: order[q]) == smaller + {order[p - 1]};
    }
  }

  /** The place of a candidate in the sorted order is the number of candidates that precede it. */
  lemma PlaceIsAhead(list: List, candidates: seq<Process>, p: nat)
    requires p < |candidates|
    ensures Ahead(list, candidates, SortIndices(list, candidates, |candidates|)[p]) == p
  {
    var n := |candidates|;
    var order := SortIndices(list, candidates, n);
    SortIsOrdered(list, candidates, n);
    OrderedIsDistinct(list, candidates, order);
    CardOfPrefix(order, n, p);
    var i := order[p];
    hide Precedes, SortIndices;
    var ahead := set j: nat | j < n && Precedes(list, candidates, j, i);
    forall j: nat
      ensures j in ahead <==> j in (set q | 0 <= q < p :: order[q])
    {
      if j < n {
        assert j in order;
        var q :| 0 <= q < n && order[q] == j;
        PrecedesIsTotal(list, candidates, j, i, i);
      }
    }
    assert ahead == set q | 0 <= q < p :: order[q];
  }

  lemma {:induction false} RankAt(top: seq<nat>, n: nat, p: nat)
    requires Indices(top, n) && p < |top|
    ensures RankIn<nat>(top, top[p]) == Some(RankValue(p))
  {
    if p < |top| - 1 {
      RankAt(top[..|top| - 1], n, p);
    }
  }

  lemma {:induction false} RankNowhere(top: seq<nat>, i: nat)
    requires i !in top
    ensures RankIn<nat>(top, i) == None
  {
    if top != [] {
      RankNowhere(top[..|top| - 1], i);
    }
  }

  lemma TopFacts(list: List, candidates: seq<Process>, count: nat)
    ensures var top := Top(list, candidates, count);
            && |top| == Min(count, |candidates|) && Indices(top, |candidates|) && Ordered(list, candidates, top)
    ensures forall p :: 0 <= p < Min(count, |candidates|) ==> Ahead(list, candidates, Top(list, candidates, count)[p]) == p
  {
    SortIsOrdered(list, candidates, |candidates|);
    var top := Top(list, candidates, count);
    assert Ordered(list, candidates, top) by {
      hide Precedes, SortIndices;
    }
    OrderedIsDistinct(list, candidates, top);
    hide Precedes, SortIndices, Ahead;
    forall p | 0 <= p < |top|
      ensures Ahead(list, candidates, top[p]) == p
    {
      PlaceIsAhead(list, candidates, p);
    }
  }

  lemma TopMembers(list: List, candidates: seq<Process>, count: nat, i: nat)
    requires i < |candidates|
    ensures i in Top(list, candidates, count) <==> Ahead(list, candidates, i) < count
  {
    var order := SortIndices(list, candidates, |candidates|);
    var top := Top(list, candidates, count);
    hide Precedes, SortIndices, Ahead;
    assert i in order;
    var p :| 0 <= p < |order| && order[p] == i;
    PlaceIsAhead(list, candidates, p);
    if p < count {
      assert top[p] == i;
    } else if i in top {
      var q :| 0 <= q < |top| && top[q] == i;
      PlaceIsAhead(list, candidates, q);
      assert false;
    }
  }

  /** A list holds exactly the candidates that fewer than `count` others precede, and its rank is that number: no process
    * left out precedes a member. */
  lemma RankIsAhead(list: List, candidates: seq<Process>, count: nat, i: nat)
    requires i < |candidates|
    ensures RankIn<nat>(Top(list, candidates, count), i)
         == if Ahead(list, candidates, i) < count then Some(RankValue(Ahead(list, candidates, i))) else None
  {
    TopFacts(list, candidates, count);
    TopMembers(list, candidates, count, i);
    var top := Top(list, candidates, count);
    hide Precedes, Top, Ahead;
    if i in top {
      var p :| 0 <= p < |top| && top[p] == i;
      RankAt(top, |candidates|, p);
    } else {
      RankNowhere(top, i);
    }
  }
}

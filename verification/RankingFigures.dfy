/** What the ranking of processes means in the figures of the processes (`process_rank.rs`). */
module RankingFigures {
  import opened Prelude
  import opened Sequences
  import opened ProcessRank
  import opened ProcessLists
  import opened RankingLaws

  // ---------- The comparisons, in figures ----------

  /** Resident and swapped bytes together, no swap figure as none, held within 64 bits. */
  function Footprint(p: Process): int {
    var swapped := if p.swapBytes.Some? then p.swapBytes.value else 0;
    if p.rssBytes + swapped <= 0xFFFF_FFFF_FFFF_FFFF then p.rssBytes + swapped else 0xFFFF_FFFF_FFFF_FFFF
  }

  /** The lowest figure of all: undefined, or minus infinity. */
  predicate Lowest(p: Process) { p.cpuPercent.NotANumber? || p.cpuPercent.MinusInfinity? }

  /** `a` used more CPU than `b`. */
  predicate BusierThan(a: Process, b: Process) {
    || (a.cpuPercent.Finite? && b.cpuPercent.Finite? && a.cpuPercent.value > b.cpuPercent.value)
    || (a.cpuPercent.PlusInfinity? && !b.cpuPercent.PlusInfinity?)
    || (a.cpuPercent.Finite? && Lowest(b))
  }

  /** Neither used more CPU. */
  predicate AsBusyAs(a: Process, b: Process) { !BusierThan(a, b) && !BusierThan(b, a) }

  /** `a` stands before `b` in the list by memory: more memory, then more CPU, then the smaller process id. */
  predicate FirstByMemory(a: Process, b: Process) {
    || Footprint(a) > Footprint(b)
    || (Footprint(a) == Footprint(b) && (BusierThan(a, b) || (AsBusyAs(a, b) && a.pid < b.pid)))
  }

  /** `a` stands before `b` in the list by CPU: more CPU, then more memory, then the smaller process id. */
  predicate FirstByCpu(a: Process, b: Process) {
    || BusierThan(a, b)
    || (AsBusyAs(a, b) && (Footprint(a) > Footprint(b) || (Footprint(a) == Footprint(b) && a.pid < b.pid)))
  }

  predicate First(list: List, a: Process, b: Process) {
    match list
    case ByCpu => FirstByCpu(a, b)
    case ByMemory => FirstByMemory(a, b)
  }

  /** The comparators of the source are these comparisons. */
  lemma BeforeMeans(list: List, a: Process, b: Process)
    ensures Before(list, a, b) <==> First(list, a, b)
  {
    FootprintMeans(a);
    FootprintMeans(b);
    CpuMeans(a, b);
    CpuMeans(b, a);
    hide Footprint, MemoryFootprint, BusierThan, FigureLess, CpuKey;
    assert CpuKey(a) == CpuKey(b) <==> AsBusyAs(a, b);
  }

  lemma FootprintMeans(p: Process)
    ensures MemoryFootprint(p) == Footprint(p)
  {
  }

  lemma CpuMeans(a: Process, b: Process)
    ensures !CpuKey(a).NotANumber?
    ensures FigureLess(CpuKey(b), CpuKey(a)) <==> BusierThan(a, b)
    ensures CpuKey(a) == CpuKey(b) <==> AsBusyAs(a, b)
  {
  }

  // ---------- The rows ----------

  /** The row of a candidate: everything but its ranks is its own. */
  predicate IsRowOf(row: Process, candidate: Process) {
    && row.pid == candidate.pid && row.cpuPercent == candidate.cpuPercent && row.rssBytes == candidate.rssBytes
    && row.swapBytes == candidate.swapBytes && row.about == candidate.about
  }

  /** The candidates that stand before candidate `i`; among equals the earlier one does. */
  function Better(list: List, candidates: seq<Process>, i: nat): set<nat>
    requires i < |candidates|
  {
    set j: nat | j < |candidates|
                 && (First(list, candidates[j], candidates[i]) || (j < i && !First(list, candidates[i], candidates[j])))
  }

  function RankField(list: List, row: Process): Option<int> { if list == ByCpu then row.cpuRank else row.memoryRank }

  /** The rank a candidate deserves: how many stand before it, if those are fewer than the list is long. */
  function Deserved(list: List, candidates: seq<Process>, topProcessCount: nat, i: nat): Option<int>
    requires i < |candidates|
  {
    var ahead := |Better(list, candidates, i)|;
    if ahead < topProcessCount || ahead == 0 then Some(if ahead <= 0xFFFF_FFFF then ahead else 0xFFFF_FFFF) else None
  }

  /** `rows` are the rows of the candidates `origins`, each once, and these are the candidates that deserve a rank. */
  ghost predicate RowsOf(candidates: seq<Process>, topProcessCount: nat, rows: seq<Process>, origins: seq<nat>) {
    && |origins| == |rows|
    && (forall p :: 0 <= p < |origins| ==> origins[p] < |candidates|)
    && (forall p, q :: 0 <= p < q < |origins| ==> origins[p] != origins[q])
    && (forall p :: 0 <= p < |rows| ==> IsRowOf(rows[p], candidates[origins[p]]))
    && (forall p, list :: 0 <= p < |rows| ==>
          RankField(list, rows[p]) == Deserved(list, candidates, topProcessCount, origins[p]))
    && (forall i: nat :: i < |candidates| ==>
          (i in origins <==> exists list :: Deserved(list, candidates, topProcessCount, i).Some?))
  }

  lemma BetterIsAhead(list: List, candidates: seq<Process>, i: nat)
    requires i < |candidates|
    ensures |Better(list, candidates, i)| == Ahead(list, candidates, i)
  {
    forall j: nat | j < |candidates|
      ensures j in Better(list, candidates, i) <==> Precedes(list, candidates, j, i)
    {
      BeforeMeans(list, candidates[j], candidates[i]);
      BeforeMeans(list, candidates[i], candidates[j]);
      BeforeIsOrder(list, candidates[j], candidates[i], candidates[j]);
      hide Before, First;
    }
    hide Before, First, Precedes;
    assert Better(list, candidates, i) == set j: nat | j < |candidates| && Precedes(list, candidates, j, i);
  }

  lemma DeservedIs(list: List, candidates: seq<Process>, topProcessCount: nat, i: nat)
    requires i < |candidates|
    ensures RankOf(AllRows(candidates, topProcessCount)[i], list) == Deserved(list, candidates, topProcessCount, i)
    ensures Deserved(list, candidates, topProcessCount, i).Some? <==> Ahead(list, candidates, i) < Max(topProcessCount, 1)
  {
    hide AllRows, Ahead, Better, RankOf;
    RankIsExact(list, candidates, topProcessCount, i);
    BetterIsAhead(list, candidates, i);
  }

  lemma RowKeepsFigures(candidates: seq<Process>, topProcessCount: nat, i: nat)
    requires i < |candidates|
    ensures IsRowOf(AllRows(candidates, topProcessCount)[i], candidates[i])
  {
    hide Top, ProcessRank.RankIn;
  }

  lemma RankFieldIs(list: List, candidates: seq<Process>, topProcessCount: nat, i: nat)
    requires i < |candidates|
    ensures var row := AllRows(candidates, topProcessCount)[i]; RankOf(row, list) == RankField(list, row)
  {
    RankNonNegative(Top(ByCpu, candidates, Max(topProcessCount, 1)), i);
    RankNonNegative(Top(ByMemory, candidates, Max(topProcessCount, 1)), i);
    hide Top, RankIn;
  }

  /** The ranking in figures: its rows are those of the candidates that deserve a rank in either list, each once, with
    * the ranks they deserve. */
  lemma RankingInFigures(candidates: seq<Process>, topProcessCount: nat)
    ensures RowsOf(candidates, topProcessCount, RankProcesses(candidates, topProcessCount),
                   KeptIndices(candidates, topProcessCount))
  {
    hide RankProcesses, AllRows, Deserved, RankOf, RankField, IsRowOf, Ahead, KeptIndices;
    var kept := KeptIndices(candidates, topProcessCount);
    var all := AllRows(candidates, topProcessCount);
    KeptShape(candidates, topProcessCount);
    forall i: nat | i < |candidates|
      ensures IsRowOf(all[i], candidates[i])
      ensures forall list :: RankField(list, all[i]) == Deserved(list, candidates, topProcessCount, i)
      ensures i in kept <==> exists list :: Deserved(list, candidates, topProcessCount, i).Some?
    {
      OneRow(candidates, topProcessCount, i);
    }
  }

  lemma KeptShape(candidates: seq<Process>, topProcessCount: nat)
    ensures var kept, out := KeptIndices(candidates, topProcessCount), RankProcesses(candidates, topProcessCount);
            && |AllRows(candidates, topProcessCount)| == |candidates|
            && |out| == |kept|
            && (forall p :: 0 <= p < |kept| ==> kept[p] < |candidates| && out[p] == AllRows(candidates, topProcessCount)[kept[p]])
            && (forall p, q :: 0 <= p < q < |kept| ==> kept[p] != kept[q])
  {
    if candidates != [] {
      KeptExactly(candidates, topProcessCount, 0);
    } else {
      RankedAre(candidates, topProcessCount);
    }
    hide RankProcesses, KeptIndices;
  }

  lemma OneRow(candidates: seq<Process>, topProcessCount: nat, i: nat)
    requires i < |candidates|
    ensures IsRowOf(AllRows(candidates, topProcessCount)[i], candidates[i])
    ensures forall list :: RankField(list, AllRows(candidates, topProcessCount)[i]) == Deserved(list, candidates, topProcessCount, i)
    ensures i in KeptIndices(candidates, topProcessCount) <==>
            exists list :: Deserved(list, candidates, topProcessCount, i).Some?
  {
    hide *;
    RowKeepsFigures(candidates, topProcessCount, i);
    KeptExactly(candidates, topProcessCount, i);
    forall list
      ensures RankField(list, AllRows(candidates, topProcessCount)[i]) == Deserved(list, candidates, topProcessCount, i)
    {
      DeservedIs(list, candidates, topProcessCount, i);
      RankFieldIs(list, candidates, topProcessCount, i);
    }
    DeservedIs(ByCpu, candidates, topProcessCount, i);
    DeservedIs(ByMemory, candidates, topProcessCount, i);
    EitherList(candidates, topProcessCount, i);
  }

  lemma EitherList(candidates: seq<Process>, topProcessCount: nat, i: nat)
    requires i < |candidates|
    ensures (exists list :: Deserved(list, candidates, topProcessCount, i).Some?)
       <==> Deserved(ByCpu, candidates, topProcessCount, i).Some? || Deserved(ByMemory, candidates, topProcessCount, i).Some?
  {
    hide Deserved;
    forall list | Deserved(list, candidates, topProcessCount, i).Some?
      ensures Deserved(ByCpu, candidates, topProcessCount, i).Some? || Deserved(ByMemory, candidates, topProcessCount, i).Some?
    {
      assert list == ByCpu || list == ByMemory;
    }
  }

  // ---------- Two rows, and those left out ----------

  /** A smaller rank than another candidate's, or a rank where the other has none. */
  predicate RanksBetter(a: Option<int>, b: Option<int>) { a.Some? && (b.None? || a.value < b.value) }

  lemma BetterRankIsBetter(list: List, candidates: seq<Process>, topProcessCount: nat, i: nat, j: nat)
    requires i < |candidates| && j < |candidates|
    requires RanksBetter(Deserved(list, candidates, topProcessCount, i), Deserved(list, candidates, topProcessCount, j))
    ensures !First(list, candidates[j], candidates[i])
  {
    BetterIsAhead(list, candidates, i);
    BetterIsAhead(list, candidates, j);
    assert Ahead(list, candidates, i) < Ahead(list, candidates, j);
    BeforeMeans(list, candidates[j], candidates[i]);
    if First(list, candidates[j], candidates[i]) {
      assert Precedes(list, candidates, j, i);
      AheadGrows(list, candidates, j, i);
    }
  }

  /** `a` belongs before `b` by memory: it uses at least as much, with the same memory at least as much CPU, and with both
    * the same its id is not the greater. */
  ghost predicate AheadByMemory(a: Process, b: Process) {
    && Footprint(a) >= Footprint(b)
    && (Footprint(a) == Footprint(b) && a.cpuPercent.Finite? && b.cpuPercent.Finite? ==>
          && a.cpuPercent.value >= b.cpuPercent.value
          && (a.cpuPercent.value == b.cpuPercent.value ==> a.pid <= b.pid))
  }

  /** `a` belongs before `b` by CPU: it uses at least as much, an undefined figure being the least; with the same CPU at
    * least as much memory; and with both the same its id is not the greater. */
  ghost predicate AheadByCpu(a: Process, b: Process) {
    && (a.cpuPercent.NotANumber? ==> !b.cpuPercent.Finite?)
    && (a.cpuPercent.Finite? && b.cpuPercent.Finite? ==>
          && a.cpuPercent.value >= b.cpuPercent.value
          && (a.cpuPercent.value == b.cpuPercent.value ==>
                Footprint(a) >= Footprint(b) && (Footprint(a) == Footprint(b) ==> a.pid <= b.pid)))
  }

  lemma BetterRankInFigures(list: List, candidates: seq<Process>, topProcessCount: nat, i: nat, j: nat)
    requires i < |candidates| && j < |candidates|
    requires RanksBetter(Deserved(list, candidates, topProcessCount, i), Deserved(list, candidates, topProcessCount, j))
    ensures list == ByMemory ==> AheadByMemory(candidates[i], candidates[j])
    ensures list == ByCpu ==> AheadByCpu(candidates[i], candidates[j])
  {
    hide Deserved, Footprint;
    BetterRankIsBetter(list, candidates, topProcessCount, i, j);
  }

  lemma FiguresOnly(a: Process, b: Process, x: Process, y: Process)
    requires IsRowOf(x, a) && IsRowOf(y, b)
    ensures AheadByMemory(x, y) == AheadByMemory(a, b) && AheadByCpu(x, y) == AheadByCpu(a, b)
  {
  }

  /** Of two rows of the ranking, the one with the smaller rank in a list, or with a rank where the other has none,
    * belongs before the other by the figures of that list. */
  lemma RowsInFigures(list: List, candidates: seq<Process>, topProcessCount: nat, p: nat, q: nat)
    requires var out := RankProcesses(candidates, topProcessCount);
             p < |out| && q < |out| && RanksBetter(RankField(list, out[p]), RankField(list, out[q]))
    ensures var out := RankProcesses(candidates, topProcessCount);
            && (list == ByMemory ==> AheadByMemory(out[p], out[q]))
            && (list == ByCpu ==> AheadByCpu(out[p], out[q]))
  {
    hide RankProcesses, KeptIndices, Deserved, RankField, AheadByMemory, AheadByCpu, IsRowOf;
    var out, kept := RankProcesses(candidates, topProcessCount), KeptIndices(candidates, topProcessCount);
    RankingInFigures(candidates, topProcessCount);
    BetterRankInFigures(list, candidates, topProcessCount, kept[p], kept[q]);
    FiguresOnly(candidates[kept[p]], candidates[kept[q]], out[p], out[q]);
  }

  /** A row with a rank in a list belongs before every candidate that is left out of the ranking, by the figures of that
    * list. */
  lemma LeftOutInFigures(list: List, candidates: seq<Process>, topProcessCount: nat, p: nat, j: nat)
    requires var out := RankProcesses(candidates, topProcessCount); p < |out| && RankField(list, out[p]).Some?
    requires j < |candidates| && j !in KeptIndices(candidates, topProcessCount)
    ensures var out := RankProcesses(candidates, topProcessCount);
            && (list == ByMemory ==> AheadByMemory(out[p], candidates[j]))
            && (list == ByCpu ==> AheadByCpu(out[p], candidates[j]))
  {
    hide RankProcesses, KeptIndices, Deserved, RankField, AheadByMemory, AheadByCpu, IsRowOf;
    var out, kept := RankProcesses(candidates, topProcessCount), KeptIndices(candidates, topProcessCount);
    RankingInFigures(candidates, topProcessCount);
    assert Deserved(list, candidates, topProcessCount, j).None?;
    BetterRankInFigures(list, candidates, topProcessCount, kept[p], j);
    OwnRow(candidates[j]);
    FiguresOnly(candidates[kept[p]], candidates[j], out[p], candidates[j]);
  }

  lemma OwnRow(p: Process)
    ensures IsRowOf(p, p)
  {
  }
}

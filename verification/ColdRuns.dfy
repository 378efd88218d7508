/** Runs of cold export passes and archive changes, and the exporter that performs the passes (`archive.rs`). */
module ColdRuns {
  import opened Prelude
  import opened TierFold
  import opened LadderModel
  import opened LadderTables
  import opened Months
  import opened ColdMonths
  import opened ColdFile
  import opened ColdExport
  import Csv

  // ---------- The months a pass takes ----------

  lemma {:induction false} PresentBelow(archive: Table, n: int, k: int)
    requires n <= LAST_MONTH && MonthIndex(k)
    ensures Name(k) in PresentUpTo(archive, n) <==> k <= n && MonthRows(archive, k) != []
    decreases n + 1
  {
    hide MonthRows, Name;
    if n >= 0 {
      PresentBelow(archive, n - 1, k);
      NamesDiffer(n);
    }
  }

  lemma {:induction false} PresentAreNames(archive: Table, n: int, m: string)
    requires n <= LAST_MONTH && m in PresentUpTo(archive, n)
    ensures MonthIndex(IndexOf(m)) && m == Name(IndexOf(m))
    decreases n + 1
  {
    hide MonthRows, Name, IndexOf;
    if m in PresentUpTo(archive, n - 1) {
      PresentAreNames(archive, n - 1, m);
    } else {
      IndexOfName(n);
    }
  }

  /** Every candidate is a finished month of the archive past the watermark. */
  lemma CandidateIs(archive: Table, c: Config, coldAfterMonths: int, exportedUntil: Option<string>, nowMs: int, m: string)
    requires 0 <= coldAfterMonths <= 0x7000_0000
    requires m in ExportableMonths(MonthsPresent(archive), c, coldAfterMonths, exportedUntil, nowMs)
    ensures IsName(m) && MonthRows(archive, IndexOf(m)) != [] && Finished(IndexOf(m), c, coldAfterMonths, nowMs)
    ensures exportedUntil.None? || StrLess(exportedUntil.value, m)
  {
    var present := MonthsPresent(archive);
    ExportableArePresent(present, c, coldAfterMonths, exportedUntil, nowMs, m);
    PresentAreNames(archive, LAST_MONTH, m);
    var k := IndexOf(m);
    PresentBelow(archive, LAST_MONTH, k);
    ExportableExactly(present, c, coldAfterMonths, exportedUntil, nowMs, k);
    hide ExportableMonths, Name, IndexOf, StrLess, MonthRows, PresentUpTo, StartMs, MonthAt;
  }

  lemma ExportableArePresent(present: seq<string>, c: Config, coldAfterMonths: int, exportedUntil: Option<string>, nowMs: int,
                             m: string)
    requires m in ExportableMonths(present, c, coldAfterMonths, exportedUntil, nowMs)
    ensures m in present
  {
    hide Eligible, CalendarMonthBefore, KeepMs;
  }

  ghost predicate LeftNothing(main: Table, month: string) { MonthRows(main, IndexOf(month)) == [] }

  lemma ReadyStep(months: seq<string>, main: Table)
    requires months != [] && IsName(months[0])
    ensures ReadyMonths(months, main)
         == if !LeftNothing(main, months[0]) then Some([])
            else if ReadyMonths(months[1..], main).None? then None
            else Some([months[0]] + ReadyMonths(months[1..], main).value)
  {
    NameBounds(months[0]);
    hide MonthBounds, RowsIn, IsName, LeftNothing;
  }

  lemma NameBounds(month: string)
    requires IsName(month)
    ensures var bounds := MonthBounds(month);
            bounds.Some? && (forall table :: RowsIn(table, bounds.value.0, bounds.value.1) == [] <==> LeftNothing(table, month))
  {
    hide Name, IndexOf, MonthBounds, StartMs, RowsIn, MonthIndex;
    BoundsOfName(IndexOf(month));
  }

  /** `n` is the length of the longest prefix of months with nothing left in the main database. */
  ghost predicate LongestEmpty(months: seq<string>, main: Table, n: nat) {
    && n <= |months|
    && (forall i :: 0 <= i < n ==> LeftNothing(main, months[i]))
    && (n < |months| ==> !LeftNothing(main, months[n]))
  }

  lemma LongestGrows(months: seq<string>, main: Table, n: nat)
    requires months != [] && LeftNothing(main, months[0]) && LongestEmpty(months[1..], main, n)
    ensures LongestEmpty(months, main, n + 1) && months[..n + 1] == [months[0]] + months[1..][..n]
  {
    hide LeftNothing;
    assert forall i :: 0 <= i < |months[1..]| ==> months[1..][i] == months[i + 1];
  }

  ghost predicate AllNames(months: seq<string>) { forall m :: m in months ==> IsName(m) }

  lemma NamesTail(months: seq<string>)
    requires months != [] && AllNames(months)
    ensures IsName(months[0]) && AllNames(months[1..])
  {
    hide IsName;
    assert months[0] in months && forall m :: m in months[1..] ==> m in months;
  }

  /** `ready` is the longest prefix of the months with nothing left. */
  ghost predicate IsReady(months: seq<string>, main: Table, ready: Option<seq<string>>) {
    ready.Some? && LongestEmpty(months, main, |ready.value|) && ready.value == months[..|ready.value|]
  }

  lemma NothingReady(months: seq<string>, main: Table)
    requires months == [] || !LeftNothing(main, months[0])
    ensures IsReady(months, main, Some([]))
  {
    hide LeftNothing;
  }

  lemma OneMoreReady(months: seq<string>, main: Table, ready: Option<seq<string>>)
    requires months != [] && LeftNothing(main, months[0]) && IsReady(months[1..], main, ready)
    ensures IsReady(months, main, Some([months[0]] + ready.value))
  {
    hide LeftNothing, LongestEmpty;
    LongestGrows(months, main, |ready.value|);
  }

  lemma {:induction false} ReadyHolds(months: seq<string>, main: Table)
    requires AllNames(months)
    ensures IsReady(months, main, ReadyMonths(months, main))
    decreases |months|
  {
    hide LeftNothing, IsReady, LongestEmpty, AllNames, IsName;
    if months == [] {
      assert ReadyMonths(months, main) == Some([]);
      NothingReady(months, main);
    } else {
      hide ReadyMonths;
      NamesTail(months);
      ReadyStep(months, main);
      if LeftNothing(main, months[0]) {
        ReadyHolds(months[1..], main);
        ReadySome(months[1..], main, ReadyMonths(months[1..], main));
        OneMoreReady(months, main, ReadyMonths(months[1..], main));
      } else {
        NothingReady(months, main);
      }
    }
  }

  lemma ReadySome(months: seq<string>, main: Table, ready: Option<seq<string>>)
    requires IsReady(months, main, ready)
    ensures ready.Some?
  {
  }

  /** `ready` is as much of the candidates as has no hourly row left in the main database. */
  lemma ReadyIsPrefix(months: seq<string>, main: Table)
    requires AllNames(months)
    ensures var ready := ReadyMonths(months, main);
            && ready.Some? && LongestEmpty(months, main, |ready.value|) && ready.value == months[..|ready.value|]
  {
    hide ReadyMonths, LongestEmpty, AllNames;
    ReadyHolds(months, main);
  }

  function PassMonths(s: Cold, archive: Table, main: Table, c: Config, coldAfterMonths: int, nowMs: int): seq<string> {
    ReadyMonths(Candidates(archive, c, coldAfterMonths, s.exportedUntil, nowMs), main).UnwrapOr([])
  }

  lemma PassMonthsArePrefix(s: Cold, archive: Table, main: Table, c: Config, coldAfterMonths: int, nowMs: int)
    requires 0 <= coldAfterMonths <= 0x7000_0000
    ensures var all := ExportableMonths(MonthsPresent(archive), c, coldAfterMonths, s.exportedUntil, nowMs);
            var months := PassMonths(s, archive, main, c, coldAfterMonths, nowMs);
            && |months| <= MAX_COLD_MONTHS_PER_PASS && |months| <= |all| && months == all[..|months|]
            && (forall m :: m in months ==> IsName(m) && LeftNothing(main, m))
    ensures ReadyMonths(Candidates(archive, c, coldAfterMonths, s.exportedUntil, nowMs), main).Some?
  {
    var all := ExportableMonths(MonthsPresent(archive), c, coldAfterMonths, s.exportedUntil, nowMs);
    var candidates := Candidates(archive, c, coldAfterMonths, s.exportedUntil, nowMs);
    hide ExportableMonths, MonthsPresent, ReadyMonths, IsName, LeftNothing, Finished, StrLess, IndexOf, MonthRows;
    forall m | m in candidates
      ensures IsName(m)
    {
      assert m in all;
      CandidateIs(archive, c, coldAfterMonths, s.exportedUntil, nowMs, m);
    }
    ReadyIsPrefix(candidates, main);
  }

  /** What a pass exports: finished months, all of whose hours ended before the cutoff of the hourly tier, with no row
    * left to move. */
  lemma ExportedMonthIsFinal(s: Cold, archive: Table, main: Table, c: Config, coldAfterMonths: int, nowMs: int, m: string)
    requires 0 <= coldAfterMonths <= 0x7000_0000 && c.l4.keepDays >= 0 && nowMs < I64_MAX
    requires m in PassMonths(s, archive, main, c, coldAfterMonths, nowMs)
    ensures IsName(m) && Finished(IndexOf(m), c, coldAfterMonths, nowMs) && MonthRows(main, IndexOf(m)) == []
    ensures forall h :: InMonth(h, IndexOf(m)) ==> h + 3_600_000 <= L4Cutoff(c, nowMs)
  {
    PassMonthsArePrefix(s, archive, main, c, coldAfterMonths, nowMs);
    hide PassMonths, ExportableMonths, MonthsPresent, Finished, StartMs, Name, IndexOf, MonthRows, L4Cutoff, StrLess;
    CandidateIs(archive, c, coldAfterMonths, s.exportedUntil, nowMs, m);
    forall h | InMonth(h, IndexOf(m))
      ensures h + 3_600_000 <= L4Cutoff(c, nowMs)
    {
      FinishedIsPastCutoff(IndexOf(m), c, coldAfterMonths, nowMs, h);
    }
  }

  lemma PassMonthsQueue(s: Cold, archive: Table, main: Table, c: Config, coldAfterMonths: int, nowMs: int)
    requires 0 <= coldAfterMonths <= 0x7000_0000
    ensures Queue(PassMonths(s, archive, main, c, coldAfterMonths, nowMs), s.exportedUntil)
  {
    var all := ExportableMonths(MonthsPresent(archive), c, coldAfterMonths, s.exportedUntil, nowMs);
    var months := PassMonths(s, archive, main, c, coldAfterMonths, nowMs);
    PassMonthsArePrefix(s, archive, main, c, coldAfterMonths, nowMs);
    ExportableAscends(MonthsPresent(archive), c, coldAfterMonths, s.exportedUntil, nowMs);
    hide PassMonths, ExportableMonths, MonthsPresent, IsName, StrLess, MonthRows, IndexOf, Finished;
    forall m | m in months
      ensures s.exportedUntil.None? || StrLess(s.exportedUntil.value, m)
    {
      CandidateIs(archive, c, coldAfterMonths, s.exportedUntil, nowMs, m);
    }
  }

  /** A finished month of the archive at or below a month of the pass is behind the watermark or earlier in the pass. */
  lemma EarlierMonth(s: Cold, archive: Table, main: Table, c: Config, coldAfterMonths: int, nowMs: int, i: nat, k: int)
    requires 0 <= coldAfterMonths <= 0x7000_0000 && MonthIndex(k) && MonthRows(archive, k) != []
    requires i < |PassMonths(s, archive, main, c, coldAfterMonths, nowMs)|
    requires StrAtMost(Name(k), PassMonths(s, archive, main, c, coldAfterMonths, nowMs)[i])
    ensures (s.exportedUntil.Some? && StrAtMost(Name(k), s.exportedUntil.value))
            || Name(k) in PassMonths(s, archive, main, c, coldAfterMonths, nowMs)[..i + 1]
  {
    var months := PassMonths(s, archive, main, c, coldAfterMonths, nowMs);
    var all := ExportableMonths(MonthsPresent(archive), c, coldAfterMonths, s.exportedUntil, nowMs);
    PassMonthsArePrefix(s, archive, main, c, coldAfterMonths, nowMs);
    assert months[i] == all[i];
    EarlierCandidate(archive, c, coldAfterMonths, s.exportedUntil, nowMs, i, k);
    hide *;
    if Name(k) in all[..i + 1] {
      assert months[..i + 1] == all[..i + 1];
    }
  }

  lemma EarlierCandidate(archive: Table, c: Config, coldAfterMonths: int, exportedUntil: Option<string>, nowMs: int, i: nat,
                         k: int)
    requires 0 <= coldAfterMonths <= 0x7000_0000 && MonthIndex(k) && MonthRows(archive, k) != []
    requires i < |ExportableMonths(MonthsPresent(archive), c, coldAfterMonths, exportedUntil, nowMs)|
    requires StrAtMost(Name(k), ExportableMonths(MonthsPresent(archive), c, coldAfterMonths, exportedUntil, nowMs)[i])
    ensures (exportedUntil.Some? && StrAtMost(Name(k), exportedUntil.value))
            || Name(k) in ExportableMonths(MonthsPresent(archive), c, coldAfterMonths, exportedUntil, nowMs)[..i + 1]
  {
    var present := MonthsPresent(archive);
    var all := ExportableMonths(present, c, coldAfterMonths, exportedUntil, nowMs);
    hide ExportableMonths;
    CandidateIs(archive, c, coldAfterMonths, exportedUntil, nowMs, all[i]);
    var j := IndexOf(all[i]);
    assert MonthIndex(j) && all[i] == Name(j);
    AtMostNames(k, j);
    hide Name, IndexOf, MonthIndex, MonthRows, StartMs, IsName;
    FinishedIsDownwardClosed(k, j, c, coldAfterMonths, nowMs);
    PresentBelow(archive, LAST_MONTH, k);
    ExportableExactly(present, c, coldAfterMonths, exportedUntil, nowMs, k);
    LastIsMost(k);
    hide Finished, PresentUpTo, StrAtMost;
    if !(exportedUntil.Some? && StrAtMost(Name(k), exportedUntil.value)) {
      NotAtMost(exportedUntil, Name(k));
      assert Name(k) in all;
      FoundBy(all, i, Name(k));
    }
  }

  lemma LastIsMost(k: int)
    requires MonthIndex(k)
    ensures k <= LAST_MONTH
  {
  }

  lemma AtMostNames(k: int, j: int)
    requires MonthIndex(k) && MonthIndex(j) && StrAtMost(Name(k), Name(j))
    ensures k <= j
  {
    NameOrder(k, j);
    hide Name, StrLess;
  }

  lemma NotAtMost(exportedUntil: Option<string>, m: string)
    requires !(exportedUntil.Some? && StrAtMost(m, exportedUntil.value))
    ensures exportedUntil.None? || StrLess(exportedUntil.value, m)
  {
    if exportedUntil.Some? {
      StrTotal(m, exportedUntil.value);
    }
  }

  /** In a strictly ascending list a member at most `all[i]` stands at `i` or before. */
  lemma FoundBy(all: seq<string>, i: nat, m: string)
    requires StrictlyAscending(all) && i < |all| && m in all && StrAtMost(m, all[i])
    ensures m in all[..i + 1]
  {
    var p :| 0 <= p < |all| && all[p] == m;
    if p <= i {
      assert all[..i + 1][p] == m;
    } else {
      StrTotal(all[i], m);
      assert false;
    }
  }

  lemma PassIsReady(s: Cold, archive: Table, main: Table, c: Config, coldAfterMonths: int, nowMs: int, show: real -> string,
                    exact: bool)
    requires 0 <= coldAfterMonths <= 0x7000_0000 && NoGaps(s, archive, show, exact) && ManifestBacked(s)
    ensures PassReady(s, PassMonths(s, archive, main, c, coldAfterMonths, nowMs), archive, show, exact)
  {
    PassMonthsQueue(s, archive, main, c, coldAfterMonths, nowMs);
    var months := PassMonths(s, archive, main, c, coldAfterMonths, nowMs);
    hide PassMonths, Queue, MonthKept, MonthRows, Name, StrAtMost, MonthIndex, ManifestBacked;
    forall i, k | 0 <= i < |months| && MonthIndex(k) && MonthRows(archive, k) != [] && StrAtMost(Name(k), months[i])
      ensures MonthKept(s, archive, show, exact, k) || Name(k) in months[..i + 1]
    {
      EarlierMonth(s, archive, main, c, coldAfterMonths, nowMs, i, k);
    }
  }

  /** A pass, wherever it stops, leaves no gap and never takes the watermark back. */
  lemma PassKeeps(s: Cold, archive: Table, main: Table, c: Config, coldAfterMonths: int, nowMs: int, show: real -> string,
                  exact: bool, stop: nat)
    requires 0 <= coldAfterMonths <= 0x7000_0000 && NoGaps(s, archive, show, exact) && ManifestBacked(s)
    ensures PassDone(s, ExportPass(s, archive, main, c, coldAfterMonths, nowMs, show, stop), archive, show, exact)
  {
    PassIsReady(s, archive, main, c, coldAfterMonths, nowMs, show, exact);
    var months := PassMonths(s, archive, main, c, coldAfterMonths, nowMs);
    var writes := PassWrites(months, archive, nowMs, show);
    assert writes == AllWrites(s, archive, main, c, coldAfterMonths, nowMs, show);
    hide PassMonths, PassReady, PassDone, PassWrites, AllWrites, ApplyAll;
    QueueKeeps(s, months, archive, nowMs, show, exact, Min(stop, |writes|));
  }

  // ---------- Runs ----------

  datatype World = World(archive: Table, cold: Cold)

  datatype Step =
    | ExportStep(main: Table, nowMs: int, stop: nat)
    | ArchiveStep(archive: Table)

  const NOTHING_EXPORTED := Cold(map[], map[], None)

  /** The archive puts rows in no month at or below the watermark that had none; if `exact`, it leaves those months alone. */
  ghost predicate Allowed(w: World, step: Step, exact: bool) {
    step.ArchiveStep? ==>
      forall k :: MonthIndex(k) && MonthRows(step.archive, k) != []
                  && w.cold.exportedUntil.Some? && StrAtMost(Name(k), w.cold.exportedUntil.value)
        ==> MonthRows(w.archive, k) != [] && (exact ==> MonthRows(step.archive, k) == MonthRows(w.archive, k))
  }

  function Do(w: World, step: Step, c: Config, coldAfterMonths: int, show: real -> string): World {
    match step
    case ExportStep(main, nowMs, stop) =>
      w.(cold := ExportPass(w.cold, w.archive, main, c, coldAfterMonths, nowMs, show, stop))
    case ArchiveStep(archive) => w.(archive := archive)
  }

  function Run(w: World, steps: seq<Step>, c: Config, coldAfterMonths: int, show: real -> string): World {
    if steps == [] then w
    else Do(Run(w, steps[..|steps| - 1], c, coldAfterMonths, show), steps[|steps| - 1], c, coldAfterMonths, show)
  }

  ghost predicate AllAllowed(w: World, steps: seq<Step>, c: Config, coldAfterMonths: int, show: real -> string, exact: bool) {
    forall i :: 0 <= i < |steps| ==> Allowed(Run(w, steps[..i], c, coldAfterMonths, show), steps[i], exact)
  }

  lemma ArchiveStepKeeps(w: World, archive: Table, show: real -> string, exact: bool)
    requires NoGaps(w.cold, w.archive, show, exact) && Allowed(w, ArchiveStep(archive), exact)
    ensures NoGaps(w.cold, archive, show, exact)
  {
    hide MonthRows, Name, StrAtMost, MonthIndex, ColdText;
  }

  lemma StepKeeps(w: World, step: Step, c: Config, coldAfterMonths: int, show: real -> string, exact: bool)
    requires 0 <= coldAfterMonths <= 0x7000_0000 && Allowed(w, step, exact)
    requires NoGaps(w.cold, w.archive, show, exact) && ManifestBacked(w.cold)
    ensures var after := Do(w, step, c, coldAfterMonths, show);
            && NoGaps(after.cold, after.archive, show, exact) && ManifestBacked(after.cold)
            && MarkAtMost(w.cold.exportedUntil, after.cold.exportedUntil)
  {
    match step
    case ExportStep(main, nowMs, stop) =>
      PassKeeps(w.cold, w.archive, main, c, coldAfterMonths, nowMs, show, exact, stop);
      hide NoGaps, ManifestBacked, MarkAtMost, ExportPass;
    case ArchiveStep(archive) =>
      ArchiveStepKeeps(w, archive, show, exact);
      SameMark(w.cold);
      hide NoGaps, ManifestBacked, MarkAtMost;
  }

  lemma NothingMissing(archive: Table, show: real -> string, exact: bool)
    ensures NoGaps(NOTHING_EXPORTED, archive, show, exact) && ManifestBacked(NOTHING_EXPORTED)
  {
    hide MonthRows, Name, MonthIndex;
  }

  /** In every run of passes that may stop anywhere and archive changes past the watermark, each archive month at or below
    * the watermark has its manifest row, and every manifest row has its file. When the months behind the watermark are
    * left alone altogether (`exact`), that file holds exactly the rows the archive has, and the manifest counts them. */
  lemma {:induction false} NoGapsEver(archive: Table, steps: seq<Step>, c: Config, coldAfterMonths: int, show: real -> string,
                                      exact: bool)
    requires 0 <= coldAfterMonths <= 0x7000_0000
    requires AllAllowed(World(archive, NOTHING_EXPORTED), steps, c, coldAfterMonths, show, exact)
    ensures var w := Run(World(archive, NOTHING_EXPORTED), steps, c, coldAfterMonths, show);
            NoGaps(w.cold, w.archive, show, exact) && ManifestBacked(w.cold)
    decreases |steps|
  {
    if steps == [] {
      NothingMissing(archive, show, exact);
    } else {
      hide Allowed, NoGaps, ManifestBacked, Do;
      var init := steps[..|steps| - 1];
      assert forall i :: 0 <= i < |init| ==> steps[..i] == init[..i] && steps[i] == init[i];
      var before := Run(World(archive, NOTHING_EXPORTED), init, c, coldAfterMonths, show);
      NoGapsEver(archive, init, c, coldAfterMonths, show, exact);
      StepKeeps(before, steps[|steps| - 1], c, coldAfterMonths, show, exact);
    }
  }

  /** The watermark never goes back between two moments of a run. */
  lemma {:induction false} MarkNeverGoesBack(archive: Table, steps: seq<Step>, c: Config, coldAfterMonths: int,
                                             show: real -> string, i: nat)
    requires 0 <= coldAfterMonths <= 0x7000_0000 && i <= |steps|
    requires AllAllowed(World(archive, NOTHING_EXPORTED), steps, c, coldAfterMonths, show, false)
    ensures MarkAtMost(Run(World(archive, NOTHING_EXPORTED), steps[..i], c, coldAfterMonths, show).cold.exportedUntil,
                       Run(World(archive, NOTHING_EXPORTED), steps, c, coldAfterMonths, show).cold.exportedUntil)
    decreases |steps|
  {
    var start := World(archive, NOTHING_EXPORTED);
    hide Allowed, NoGaps, ManifestBacked, Do, MarkAtMost;
    if i == |steps| {
      assert steps[..i] == steps;
      SameMark(Run(start, steps, c, coldAfterMonths, show).cold);
    } else {
      var init := steps[..|steps| - 1];
      assert forall j :: 0 <= j < |init| ==> steps[..j] == init[..j] && steps[j] == init[j];
      assert steps[..i] == init[..i];
      var before := Run(start, init, c, coldAfterMonths, show);
      hide AllAllowed, Run;
      NoGapsEver(archive, init, c, coldAfterMonths, show, false);
      MarkNeverGoesBack(archive, init, c, coldAfterMonths, show, i);
      StepKeeps(before, steps[|steps| - 1], c, coldAfterMonths, show, false);
      MarksTrans(Run(start, steps[..i], c, coldAfterMonths, show).cold.exportedUntil, before.cold.exportedUntil,
                 Run(start, steps, c, coldAfterMonths, show).cold.exportedUntil);
    }
  }

  lemma MarksTrans(a: Option<string>, b: Option<string>, c: Option<string>)
    requires MarkAtMost(a, b) && MarkAtMost(b, c)
    ensures MarkAtMost(a, c)
  {
    if a.Some? {
      AtMostTrans(a.value, b.value, c.value);
    }
  }
}

/** When the cold archive gets a gap: exactly when rows arrive in a month at or below the watermark that had none, which
  * no later pass will look at again (`archive.rs`). */
module ColdGaps {
  import opened Prelude
  import opened TierFold
  import opened LadderModel
  import opened LadderTables
  import opened Months
  import opened ColdMonths
  import opened ColdFile
  import opened ColdExport
  import opened ColdRuns

  // ---------- Manifest rows stand for archived months ----------

  ghost predicate HasRows(archive: Table, month: string) { IsName(month) && MonthRows(archive, IndexOf(month)) != [] }

  /** Every month of the manifest has rows in the archive. */
  ghost predicate ManifestHasRows(s: Cold, archive: Table) {
    forall m :: m in s.manifest ==> HasRows(archive, m)
  }

  lemma {:induction false} AppliedManifest(s: Cold, writes: seq<Write>, m: string)
    requires m in ApplyAll(s, writes).manifest
    ensures m in s.manifest || exists row :: ManifestWrite(m, row) in writes
    decreases |writes|
  {
    if writes != [] {
      AppliedManifest(Apply(s, writes[0]), writes[1..], m);
      if m !in Apply(s, writes[0]).manifest {
        var row :| ManifestWrite(m, row) in writes[1..];
        assert ManifestWrite(m, row) in writes;
      } else if m !in s.manifest {
        assert writes[0].ManifestWrite? && writes[0] == ManifestWrite(m, writes[0].row);
      }
    }
  }

  lemma {:induction false} WritesHaveRows(months: seq<string>, archive: Table, nowMs: int, show: real -> string,
                                          m: string, row: ManifestRow)
    requires forall month :: month in months ==> IsName(month)
    requires ManifestWrite(m, row) in PassWrites(months, archive, nowMs, show)
    ensures HasRows(archive, m)
    decreases |months|
  {
    hide IsName, MonthRows, MonthWrites, ColdText;
    var head := MonthWrites(months[0], archive, nowMs, show);
    assert PassWrites(months, archive, nowMs, show) == head + PassWrites(months[1..], archive, nowMs, show);
    assert months[0] in months;
    if ManifestWrite(m, row) in head {
      HeadHasRows(months[0], archive, nowMs, show, m, row);
    } else {
      WritesHaveRows(months[1..], archive, nowMs, show, m, row);
    }
  }

  lemma HeadHasRows(month: string, archive: Table, nowMs: int, show: real -> string, m: string, row: ManifestRow)
    requires IsName(month) && ManifestWrite(m, row) in MonthWrites(month, archive, nowMs, show)
    ensures HasRows(archive, m)
  {
    NamedWrites(IndexOf(month), archive, nowMs, show);
    hide MonthWrites, Name, ColdText, MonthRows, MonthIndex, IndexOf;
  }

  lemma PassKeepsRows(s: Cold, archive: Table, main: Table, c: Config, coldAfterMonths: int, nowMs: int, show: real -> string,
                      stop: nat)
    requires 0 <= coldAfterMonths <= 0x7000_0000 && ManifestHasRows(s, archive)
    ensures ManifestHasRows(ExportPass(s, archive, main, c, coldAfterMonths, nowMs, show, stop), archive)
  {
    PassMonthsArePrefix(s, archive, main, c, coldAfterMonths, nowMs);
    hide HasRows, IsName, LeftNothing, PassWrites, ApplyAll, ReadyMonths, Candidates, ExportableMonths, MonthsPresent;
    var t := ExportPass(s, archive, main, c, coldAfterMonths, nowMs, show, stop);
    var writes := AllWrites(s, archive, main, c, coldAfterMonths, nowMs, show);
    var done := writes[..Min(stop, |writes|)];
    forall m | m in t.manifest
      ensures HasRows(archive, m)
    {
      AppliedManifest(s, done, m);
      if m !in s.manifest {
        var row :| ManifestWrite(m, row) in done;
        assert ManifestWrite(m, row) in writes;
        WritesHaveRows(PassMonths(s, archive, main, c, coldAfterMonths, nowMs), archive, nowMs, show, m, row);
      }
    }
  }

  // ---------- One archive step ----------

  /** A change of the archive leaves no gap if and only if it puts no row in a month at or below the watermark that had
    * none. */
  lemma ArchiveStepExactly(w: World, archive: Table, show: real -> string)
    requires NoGaps(w.cold, w.archive, show, false) && ManifestHasRows(w.cold, w.archive)
    ensures NoGaps(w.cold, archive, show, false) <==> Allowed(w, ArchiveStep(archive), false)
  {
    if Allowed(w, ArchiveStep(archive), false) {
      ArchiveStepKeeps(w, archive, show, false);
    }
    if NoGaps(w.cold, archive, show, false) {
      hide Name, MonthRows, MonthIndex, StrAtMost, ColdText, HasRows;
      forall k | MonthIndex(k) && MonthRows(archive, k) != []
                 && w.cold.exportedUntil.Some? && StrAtMost(Name(k), w.cold.exportedUntil.value)
        ensures MonthRows(w.archive, k) != []
      {
        assert MonthKept(w.cold, archive, show, false, k);
        NamedRows(w.archive, k);
      }
    }
  }

  lemma NamedRows(archive: Table, k: int)
    requires MonthIndex(k) && HasRows(archive, Name(k))
    ensures MonthRows(archive, k) != []
  {
    hide MonthRows, Name, MonthIndex, IndexOf;
    IndexOfName(k);
  }

  // ---------- Whole runs ----------

  /** The archive only grows, as upserts of the mover make it. */
  ghost predicate Grows(w: World, step: Step) {
    step.ArchiveStep? ==> w.archive.Keys <= step.archive.Keys
  }

  lemma RowsStay(a: Table, b: Table, month: string)
    requires a.Keys <= b.Keys && HasRows(a, month)
    ensures HasRows(b, month)
  {
    hide IsName, IndexOf, StartMs;
    var lo, hi := StartMs(IndexOf(month)), StartMs(IndexOf(month) + 1);
    RowsNone(a, lo, hi);
    RowsNone(b, lo, hi);
  }

  lemma StepKeepsRows(w: World, step: Step, c: Config, coldAfterMonths: int, show: real -> string)
    requires 0 <= coldAfterMonths <= 0x7000_0000 && Grows(w, step) && ManifestHasRows(w.cold, w.archive)
    ensures var after := Do(w, step, c, coldAfterMonths, show); ManifestHasRows(after.cold, after.archive)
  {
    hide HasRows, ExportPass;
    match step
    case ExportStep(main, nowMs, stop) => PassKeepsRows(w.cold, w.archive, main, c, coldAfterMonths, nowMs, show, stop);
    case ArchiveStep(archive) =>
      forall m | m in w.cold.manifest
        ensures HasRows(archive, m)
      {
        RowsStay(w.archive, archive, m);
      }
  }

  ghost predicate AllGrow(w: World, steps: seq<Step>, c: Config, coldAfterMonths: int, show: real -> string) {
    forall i :: 0 <= i < |steps| ==> Grows(Run(w, steps[..i], c, coldAfterMonths, show), steps[i])
  }

  ghost predicate NeverGaps(w: World, steps: seq<Step>, c: Config, coldAfterMonths: int, show: real -> string) {
    forall i :: 0 <= i <= |steps| ==>
      var v := Run(w, steps[..i], c, coldAfterMonths, show);
      NoGaps(v.cold, v.archive, show, false)
  }

  lemma GapsStep(w: World, steps: seq<Step>, c: Config, coldAfterMonths: int, show: real -> string)
    requires steps != []
    ensures var init, last := steps[..|steps| - 1], steps[|steps| - 1];
            var before, after := Run(w, init, c, coldAfterMonths, show), Run(w, steps, c, coldAfterMonths, show);
            && after == Do(before, last, c, coldAfterMonths, show)
            && (AllGrow(w, steps, c, coldAfterMonths, show) <==>
                  AllGrow(w, init, c, coldAfterMonths, show) && Grows(before, last))
            && (AllAllowed(w, steps, c, coldAfterMonths, show, false) <==>
                  AllAllowed(w, init, c, coldAfterMonths, show, false) && Allowed(before, last, false))
            && (NeverGaps(w, steps, c, coldAfterMonths, show) <==>
                  NeverGaps(w, init, c, coldAfterMonths, show) && NoGaps(after.cold, after.archive, show, false))
  {
    hide Do, Allowed, Grows, NoGaps;
    var n := |steps| - 1;
    var init := steps[..n];
    assert forall i :: 0 <= i < n ==> init[i] == steps[i];
    assert forall i :: 0 <= i <= n ==> init[..i] == steps[..i];
    assert steps[..|steps|] == steps;
    GrowStep(w, steps, init, c, coldAfterMonths, show);
    AllowStep(w, steps, init, c, coldAfterMonths, show);
    assert Run(w, steps, c, coldAfterMonths, show) ==
           Do(Run(w, init, c, coldAfterMonths, show), steps[n], c, coldAfterMonths, show);
  }

  lemma GrowStep(w: World, steps: seq<Step>, init: seq<Step>, c: Config, coldAfterMonths: int, show: real -> string)
    requires steps != [] && init == steps[..|steps| - 1]
    ensures AllGrow(w, steps, c, coldAfterMonths, show) <==>
            AllGrow(w, init, c, coldAfterMonths, show) && Grows(Run(w, init, c, coldAfterMonths, show), steps[|steps| - 1])
  {
    hide Run, Grows;
    assert forall i :: 0 <= i < |init| ==> init[i] == steps[i] && init[..i] == steps[..i];
  }

  lemma AllowStep(w: World, steps: seq<Step>, init: seq<Step>, c: Config, coldAfterMonths: int, show: real -> string)
    requires steps != [] && init == steps[..|steps| - 1]
    ensures AllAllowed(w, steps, c, coldAfterMonths, show, false) <==>
            AllAllowed(w, init, c, coldAfterMonths, show, false)
            && Allowed(Run(w, init, c, coldAfterMonths, show), steps[|steps| - 1], false)
  {
    hide Run, Allowed;
    assert forall i :: 0 <= i < |init| ==> init[i] == steps[i] && init[..i] == steps[..i];
  }

  lemma EmptyRun(w: World, c: Config, coldAfterMonths: int, show: real -> string)
    requires w.cold == NOTHING_EXPORTED
    ensures NeverGaps(w, [], c, coldAfterMonths, show) && AllAllowed(w, [], c, coldAfterMonths, show, false)
    ensures ManifestHasRows(w.cold, w.archive)
  {
  }

  /** Over a whole run in which passes may stop anywhere and the archive only grows, no moment has a gap if and only if no
    * archive change puts rows in a month at or below the watermark that had none. */
  lemma {:induction false} NoGapsExactly(archive: Table, steps: seq<Step>, c: Config, coldAfterMonths: int, show: real -> string)
    requires 0 <= coldAfterMonths <= 0x7000_0000
    requires AllGrow(World(archive, NOTHING_EXPORTED), steps, c, coldAfterMonths, show)
    ensures var w := World(archive, NOTHING_EXPORTED);
            && ManifestHasRows(Run(w, steps, c, coldAfterMonths, show).cold, Run(w, steps, c, coldAfterMonths, show).archive)
            && (NeverGaps(w, steps, c, coldAfterMonths, show) <==> AllAllowed(w, steps, c, coldAfterMonths, show, false))
    decreases |steps|
  {
    hide Allowed, Grows, NoGaps, Do, ManifestHasRows, AllGrow, AllAllowed, NeverGaps;
    var w := World(archive, NOTHING_EXPORTED);
    if steps == [] {
      EmptyRun(w, c, coldAfterMonths, show);
    } else {
      var init, last := steps[..|steps| - 1], steps[|steps| - 1];
      GapsStep(w, steps, c, coldAfterMonths, show);
      NoGapsExactly(archive, init, c, coldAfterMonths, show);
      var before := Run(w, init, c, coldAfterMonths, show);
      StepKeepsRows(before, last, c, coldAfterMonths, show);
      if AllAllowed(w, init, c, coldAfterMonths, show, false) {
        NoGapsEver(archive, init, c, coldAfterMonths, show, false);
        LastStepExactly(before, last, c, coldAfterMonths, show);
      }
    }
  }

  lemma LastStepExactly(w: World, step: Step, c: Config, coldAfterMonths: int, show: real -> string)
    requires 0 <= coldAfterMonths <= 0x7000_0000
    requires NoGaps(w.cold, w.archive, show, false) && ManifestBacked(w.cold) && ManifestHasRows(w.cold, w.archive)
    ensures var after := Do(w, step, c, coldAfterMonths, show);
            NoGaps(after.cold, after.archive, show, false) <==> Allowed(w, step, false)
  {
    hide NoGaps, ManifestBacked, ManifestHasRows, ExportPass;
    match step
    case ExportStep(main, nowMs, stop) => StepKeeps(w, step, c, coldAfterMonths, show, false);
    case ArchiveStep(archive) => ArchiveStepExactly(w, archive, show);
  }

  // ---------- A run with a gap ----------

  lemma StartsApart(k: int, i: int)
    ensures StartMs(i) <= StartMs(k) < StartMs(i + 1) <==> i == k
  {
    hide StartMs;
    StartsIncrease(i, i + 1);
    if i < k {
      if i + 1 < k {
        StartsIncrease(i + 1, k);
      }
    } else if k < i {
      StartsIncrease(k, i);
    }
  }

  lemma OneMonth(k: int, b: TierBucket, i: int)
    ensures MonthRows(map[StartMs(k) := b], i) == (if i == k then [b] else [])
  {
    hide StartMs, RowsIn;
    StartsApart(k, i);
    var table := map[StartMs(k) := b];
    if i == k {
      RowsSingle(table, StartMs(k), StartMs(k + 1), StartMs(k));
    } else {
      RowsNone(table, StartMs(i), StartMs(i + 1));
    }
  }

  lemma {:induction false} OnlyPresent(k: int, b: TierBucket, n: int)
    requires MonthIndex(k) && n <= LAST_MONTH
    ensures PresentUpTo(map[StartMs(k) := b], n) == if n >= k then [Name(k)] else []
    decreases n + 1
  {
    hide MonthRows, Name, StartMs;
    if n >= 0 {
      OnlyPresent(k, b, n - 1);
      OneMonth(k, b, n);
    }
  }

  /** A finished month that is alone in the archive is what a pass exports. */
  lemma OneCandidate(k: int, b: TierBucket, c: Config, coldAfterMonths: int, nowMs: int)
    requires MonthIndex(k) && 0 <= coldAfterMonths <= 0x7000_0000 && Finished(k, c, coldAfterMonths, nowMs)
    ensures Candidates(map[StartMs(k) := b], c, coldAfterMonths, None, nowMs) == [Name(k)]
  {
    hide Name, StartMs, PresentUpTo, Eligible, CalendarMonthBefore, KeepMs, MonthAt;
    OnlyPresent(k, b, LAST_MONTH);
    EligibleIsFinished(k, c, coldAfterMonths, None, nowMs);
    OneFiltered(Name(k), CalendarMonthBefore(nowMs, coldAfterMonths).value, KeepMs(c.l4.keepDays), nowMs);
  }

  lemma OneFiltered(month: string, ageLimit: string, l4KeepMs: int, nowMs: int)
    requires Eligible(month, ageLimit, None, l4KeepMs, nowMs)
    ensures Dedup(Sort(Filter([month], ageLimit, None, l4KeepMs, nowMs))) == [month]
  {
    hide Eligible;
    assert [month][1..] == [];
    assert Filter([], ageLimit, None, l4KeepMs, nowMs) == [];
    assert Filter([month], ageLimit, None, l4KeepMs, nowMs) == [month];
    assert Sort([]) == [];
  }

  /** The archive holds one finished month, a pass exports it, and a late row of any earlier month arrives: that month is
    * below the watermark and has no manifest row. */
  lemma LateMonthIsLeftOut(k: int, j: int, b: TierBucket, late: TierBucket, c: Config, coldAfterMonths: int, nowMs: int,
                           show: real -> string)
    requires 0 <= j < k && MonthIndex(k) && 0 <= coldAfterMonths <= 0x7000_0000 && Finished(k, c, coldAfterMonths, nowMs)
    ensures var archive := map[StartMs(k) := b];
            var first := ExportStep(map[], nowMs, 3);
            var second := ArchiveStep(archive[StartMs(j) := late]);
            var before := Run(World(archive, NOTHING_EXPORTED), [first], c, coldAfterMonths, show);
            var after := Run(World(archive, NOTHING_EXPORTED), [first, second], c, coldAfterMonths, show);
            && NoGaps(before.cold, before.archive, show, true)
            && after.cold.exportedUntil == Some(Name(k)) && MonthIndex(j) && MonthRows(after.archive, j) != []
            && Name(j) !in after.cold.manifest
            && !NoGaps(after.cold, after.archive, show, false)
  {
    hide *;
    var archive := map[StartMs(k) := b];
    var w := World(archive, NOTHING_EXPORTED);
    var first, second := ExportStep(map[], nowMs, 3), ArchiveStep(archive[StartMs(j) := late]);
    EarlierIndex(j, k);
    TwoSteps(w, first, second, c, coldAfterMonths, show);
    StepsAre(w, map[], nowMs, 3, archive[StartMs(j) := late], c, coldAfterMonths, show);
    OnePass(k, b, c, coldAfterMonths, nowMs, show);
    FirstPassKeeps(w, first, c, coldAfterMonths, show);
    LateRowThere(archive, j, late);
    EarlierMissed(j, k, ExportPass(NOTHING_EXPORTED, archive, map[], c, coldAfterMonths, nowMs, show, 3),
                  archive[StartMs(j) := late], show);
  }

  lemma StepsAre(w: World, main: Table, nowMs: int, stop: nat, archive: Table, c: Config, coldAfterMonths: int,
                 show: real -> string)
    ensures var v := Do(w, ExportStep(main, nowMs, stop), c, coldAfterMonths, show);
            && v == World(w.archive, ExportPass(w.cold, w.archive, main, c, coldAfterMonths, nowMs, show, stop))
            && Do(v, ArchiveStep(archive), c, coldAfterMonths, show) == World(archive, v.cold)
  {
    hide ExportPass;
  }

  /** A month before the only exported one has no manifest row. */
  lemma EarlierMissed(j: int, k: int, s: Cold, archive: Table, show: real -> string)
    requires 0 <= j < k && MonthIndex(j) && MonthIndex(k) && MonthRows(archive, j) != []
    requires s.exportedUntil == Some(Name(k)) && s.manifest.Keys == {Name(k)}
    ensures Name(j) !in s.manifest && !NoGaps(s, archive, show, false)
  {
    hide MonthRows, Name, NoGaps, MonthIndex, StrLess;
    NamesDiffer(k);
    NameOrder(j, k);
    GapShows(s, archive, show, j);
  }

  lemma EarlierIndex(j: int, k: int)
    requires 0 <= j < k && MonthIndex(k)
    ensures MonthIndex(j)
  {
  }

  lemma TwoSteps(w: World, first: Step, second: Step, c: Config, coldAfterMonths: int, show: real -> string)
    ensures Run(w, [first], c, coldAfterMonths, show) == Do(w, first, c, coldAfterMonths, show)
    ensures Run(w, [first, second], c, coldAfterMonths, show) ==
            Do(Do(w, first, c, coldAfterMonths, show), second, c, coldAfterMonths, show)
  {
    hide Do;
    assert [first][..0] == [] && [first, second][..1] == [first];
  }

  /** All the writes of the pass are those of the one month. */
  lemma OneMonthWrites(k: int, b: TierBucket, c: Config, coldAfterMonths: int, nowMs: int, show: real -> string)
    requires MonthIndex(k) && 0 <= coldAfterMonths <= 0x7000_0000 && Finished(k, c, coldAfterMonths, nowMs)
    ensures var archive := map[StartMs(k) := b];
            var writes := AllWrites(NOTHING_EXPORTED, archive, map[], c, coldAfterMonths, nowMs, show);
            writes == [FileWrite(Name(k), ColdText([b], show)), ManifestWrite(Name(k), ManifestRow(nowMs, 1)), MarkWrite(Name(k))]
  {
    assert MonthIndex(k + 1);
    hide Name, StartMs, MonthRows, MonthIndex, Finished, Candidates, MonthWrites, ColdText, PassWrites, ReadyMonths;
    OneCandidate(k, b, c, coldAfterMonths, nowMs);
    ReadyAlone(Name(k), k);
    OneMonth(k, b, k);
    NamedWrites(k, map[StartMs(k) := b], nowMs, show);
    OneMonthPass(Name(k), map[StartMs(k) := b], nowMs, show);
  }

  lemma OnePass(k: int, b: TierBucket, c: Config, coldAfterMonths: int, nowMs: int, show: real -> string)
    requires MonthIndex(k) && 0 <= coldAfterMonths <= 0x7000_0000 && Finished(k, c, coldAfterMonths, nowMs)
    ensures var t := ExportPass(NOTHING_EXPORTED, map[StartMs(k) := b], map[], c, coldAfterMonths, nowMs, show, 3);
            t.exportedUntil == Some(Name(k)) && t.manifest.Keys == {Name(k)}
  {
    hide Name, StartMs, MonthIndex, Finished, ColdText, AllWrites, ApplyAll;
    OneMonthWrites(k, b, c, coldAfterMonths, nowMs, show);
    ThreeWrites(NOTHING_EXPORTED, AllWrites(NOTHING_EXPORTED, map[StartMs(k) := b], map[], c, coldAfterMonths, nowMs, show), 3);
  }

  lemma OneMonthPass(month: string, archive: Table, nowMs: int, show: real -> string)
    ensures PassWrites([month], archive, nowMs, show) == MonthWrites(month, archive, nowMs, show)
  {
    hide MonthWrites;
    assert [month][1..] == [];
  }

  lemma ReadyAlone(month: string, k: int)
    requires MonthIndex(k) && MonthIndex(k + 1) && month == Name(k)
    ensures ReadyMonths([month], map[]) == Some([month])
  {
    hide Name, StartMs, MonthBounds, MonthIndex;
    BoundsOfName(k);
    RowsNone(map[], StartMs(k), StartMs(k + 1));
    assert [month][1..] == [];
    assert ReadyMonths([], map[]) == Some([]);
    assert [month] + [] == [month];
  }

  lemma FirstPassKeeps(w: World, first: Step, c: Config, coldAfterMonths: int, show: real -> string)
    requires 0 <= coldAfterMonths <= 0x7000_0000 && first.ExportStep? && w.cold == NOTHING_EXPORTED
    ensures var v := Do(w, first, c, coldAfterMonths, show); NoGaps(v.cold, v.archive, show, true)
  {
    hide ExportPass, MonthRows, Name, StrAtMost;
    StepKeeps(w, first, c, coldAfterMonths, show, true);
  }

  lemma LateRowThere(archive: Table, j: int, late: TierBucket)
    ensures MonthRows(archive[StartMs(j) := late], j) != []
  {
    StartsIncrease(j, j + 1);
    hide StartMs;
    RowsNone(archive[StartMs(j) := late], StartMs(j), StartMs(j + 1));
    assert StartMs(j) in archive[StartMs(j) := late];
  }

  lemma GapShows(s: Cold, archive: Table, show: real -> string, j: int)
    requires MonthIndex(j) && MonthRows(archive, j) != [] && Name(j) !in s.manifest
    requires s.exportedUntil.Some? && StrAtMost(Name(j), s.exportedUntil.value)
    ensures !NoGaps(s, archive, show, false)
  {
    hide Name, MonthRows, StrAtMost, MonthIndex;
    assert !MonthKept(s, archive, show, false, j);
  }
}

/** What one cold export pass leaves when nothing stops it: proofs about `ColdExport` and `ColdRuns`. */
module ColdPass {
  import opened Prelude
  import opened TierFold
  import opened LadderModel
  import opened LadderTables
  import opened Months
  import opened ColdMonths
  import opened ColdFile
  import opened ColdExport
  import opened ColdRuns

  // ---------- The rows of a month ----------

  ghost predicate Rising(xs: seq<int>) { forall i, j :: 0 <= i < j < |xs| ==> xs[i] < xs[j] }

  /** `rows` are the rows of `table` at `starts`. */
  ghost predicate RowsAt(table: Table, starts: seq<int>, rows: seq<TierBucket>) {
    && |rows| == |starts|
    && forall i :: 0 <= i < |rows| ==> starts[i] in table && rows[i] == table[starts[i]]
  }

  /** The rows of a range are all rows of the table that start in it, in the order of their starts. */
  lemma {:induction false} RowsInOrder(table: Table, lo: int, hi: int) returns (starts: seq<int>)
    ensures Rising(starts) && forall k :: k in starts <==> lo <= k < hi && k in table
    ensures RowsAt(table, starts, RowsIn(table, lo, hi))
    decreases hi - lo
  {
    if lo >= hi {
      starts := [];
    } else {
      var init := RowsInOrder(table, lo, hi - 1);
      starts := if hi - 1 in table then init + [hi - 1] else init;
      assert forall i :: 0 <= i < |init| ==> init[i] in init;
      assert RowsIn(table, lo, hi - 1) + [] == RowsIn(table, lo, hi - 1);
    }
  }

  predicate HasRow(table: Table, k: int) { exists h :: h in table && StartMs(k) <= h < StartMs(k + 1) }

  lemma HasRowIs(table: Table, k: int)
    ensures HasRow(table, k) <==> MonthRows(table, k) != []
  {
    hide StartMs;
    RowsNone(table, StartMs(k), StartMs(k + 1));
  }

  // ---------- Which months ----------

  /** Month `k` waits for its export: it has archived hours, it is finished, and the watermark is before it. */
  ghost predicate Waits(s: Cold, archive: Table, c: Config, coldAfterMonths: int, nowMs: int, k: int) {
    && MonthIndex(k) && HasRow(archive, k) && Finished(k, c, coldAfterMonths, nowMs)
    && (s.exportedUntil.None? || StrLess(s.exportedUntil.value, Name(k)))
  }

  ghost function WaitsBefore(s: Cold, archive: Table, c: Config, coldAfterMonths: int, nowMs: int, k: int): set<int> {
    set j: int | 0 <= j < k && Waits(s, archive, c, coldAfterMonths, nowMs, j)
  }

  /** A pass takes month `k`: it is among the twelve oldest that wait, and no hour of it or of an older one that waits is
    * left in the main database. */
  ghost predicate Takes(s: Cold, archive: Table, main: Table, c: Config, coldAfterMonths: int, nowMs: int, k: int) {
    && Waits(s, archive, c, coldAfterMonths, nowMs, k)
    && |WaitsBefore(s, archive, c, coldAfterMonths, nowMs, k)| < 12
    && forall j :: j <= k && Waits(s, archive, c, coldAfterMonths, nowMs, j) ==> !HasRow(main, j)
  }

  function Exportable(s: Cold, archive: Table, c: Config, coldAfterMonths: int, nowMs: int): seq<string> {
    ExportableMonths(MonthsPresent(archive), c, coldAfterMonths, s.exportedUntil, nowMs)
  }

  lemma ExportableWaits(s: Cold, archive: Table, c: Config, coldAfterMonths: int, nowMs: int, k: int)
    requires 0 <= coldAfterMonths <= 0x7000_0000 && MonthIndex(k)
    ensures Name(k) in Exportable(s, archive, c, coldAfterMonths, nowMs) <==> Waits(s, archive, c, coldAfterMonths, nowMs, k)
  {
    hide ExportableMonths, StrLess, Name, MonthRows, PresentUpTo, Finished, StartMs, HasRow;
    ExportableExactly(MonthsPresent(archive), c, coldAfterMonths, s.exportedUntil, nowMs, k);
    PresentBelow(archive, LAST_MONTH, k);
    LastIsMost(k);
    HasRowIs(archive, k);
  }

  /** In a rising sequence a member stands behind as many others as are smaller. */
  lemma {:induction false} PlaceInRising(xs: seq<int>, p: nat)
    requires Rising(xs) && p < |xs|
    ensures |set x | x in xs && x < xs[p]| == p
  {
    if p == 0 {
      assert (set x | x in xs && x < xs[p]) == {};
    } else {
      PlaceInRising(xs, p - 1);
      var before := set x | x in xs && x < xs[p - 1];
      forall x | x in xs && x < xs[p]
        ensures x in before + {xs[p - 1]}
      {
        var q :| 0 <= q < |xs| && xs[q] == x;
        assert q < p;
      }
      assert (set x | x in xs && x < xs[p]) == before + {xs[p - 1]};
    }
  }

  /** The months of the exportable names. */
  ghost function MonthsOf(names: seq<string>): seq<int> { seq(|names|, i requires 0 <= i < |names| => IndexOf(names[i])) }

  lemma MonthsRise(names: seq<string>)
    requires StrictlyAscending(names) && forall m :: m in names ==> IsName(m)
    ensures Rising(MonthsOf(names))
  {
    hide Name, IndexOf, StrLess, MonthIndex;
    forall i, j | 0 <= i < j < |names|
      ensures IndexOf(names[i]) < IndexOf(names[j])
    {
      assert names[i] in names && names[j] in names;
      assert IsName(names[i]) && IsName(names[j]) && StrLess(names[i], names[j]);
      NameOrder(IndexOf(names[i]), IndexOf(names[j]));
    }
  }

  lemma ExportableShape(s: Cold, archive: Table, c: Config, coldAfterMonths: int, nowMs: int)
    requires 0 <= coldAfterMonths <= 0x7000_0000
    ensures var all := Exportable(s, archive, c, coldAfterMonths, nowMs);
            && StrictlyAscending(all) && (forall m :: m in all ==> IsName(m)) && Rising(MonthsOf(all))
            && forall k :: k in MonthsOf(all) <==> Waits(s, archive, c, coldAfterMonths, nowMs, k)
  {
    hide ExportableMonths, StrLess, Name, IndexOf, MonthRows, Finished, StartMs, Waits, MonthIndex, MonthsPresent, IsName;
    var all := Exportable(s, archive, c, coldAfterMonths, nowMs);
    ExportableAscends(MonthsPresent(archive), c, coldAfterMonths, s.exportedUntil, nowMs);
    forall m | m in all
      ensures IsName(m)
    {
      CandidateIs(archive, c, coldAfterMonths, s.exportedUntil, nowMs, m);
    }
    MonthsRise(all);
    forall k
      ensures k in MonthsOf(all) <==> Waits(s, archive, c, coldAfterMonths, nowMs, k)
    {
      if k in MonthsOf(all) {
        var i :| 0 <= i < |all| && MonthsOf(all)[i] == k;
        assert IsName(all[i]);
        NamedBack(all[i]);
        ExportableWaits(s, archive, c, coldAfterMonths, nowMs, k);
      }
      if Waits(s, archive, c, coldAfterMonths, nowMs, k) {
        WaitsIsIndex(s, archive, c, coldAfterMonths, nowMs, k);
        ExportableWaits(s, archive, c, coldAfterMonths, nowMs, k);
        IndexOfName(k);
        var i :| 0 <= i < |all| && all[i] == Name(k);
        assert MonthsOf(all)[i] == k;
      }
    }
  }

  lemma WaitsIsIndex(s: Cold, archive: Table, c: Config, coldAfterMonths: int, nowMs: int, k: int)
    requires Waits(s, archive, c, coldAfterMonths, nowMs, k)
    ensures MonthIndex(k) && 0 <= k
  {
  }

  lemma NamedBack(m: string)
    requires IsName(m)
    ensures MonthIndex(IndexOf(m)) && m == Name(IndexOf(m))
  {
  }

  /** The place of a waiting month among those exportable. */
  lemma WaitingPlace(s: Cold, archive: Table, c: Config, coldAfterMonths: int, nowMs: int, p: nat)
    requires 0 <= coldAfterMonths <= 0x7000_0000
    requires p < |Exportable(s, archive, c, coldAfterMonths, nowMs)|
    ensures |WaitsBefore(s, archive, c, coldAfterMonths, nowMs, MonthsOf(Exportable(s, archive, c, coldAfterMonths, nowMs))[p])| == p
  {
    hide Exportable, Waits, MonthsOf;
    var xs := MonthsOf(Exportable(s, archive, c, coldAfterMonths, nowMs));
    MonthsLength(Exportable(s, archive, c, coldAfterMonths, nowMs));
    ExportableShape(s, archive, c, coldAfterMonths, nowMs);
    PlaceInRising(xs, p);
    forall j | Waits(s, archive, c, coldAfterMonths, nowMs, j)
      ensures 0 <= j
    {
      WaitsIsIndex(s, archive, c, coldAfterMonths, nowMs, j);
    }
    assert WaitsBefore(s, archive, c, coldAfterMonths, nowMs, xs[p]) == set x | x in xs && x < xs[p];
  }

  lemma MonthsLength(names: seq<string>)
    ensures |MonthsOf(names)| == |names|
  {
  }

  /** The months of a pass as a prefix of those exportable. */
  lemma PassLength(s: Cold, archive: Table, main: Table, c: Config, coldAfterMonths: int, nowMs: int)
    requires 0 <= coldAfterMonths <= 0x7000_0000
    ensures var all, months := Exportable(s, archive, c, coldAfterMonths, nowMs), PassMonths(s, archive, main, c, coldAfterMonths, nowMs);
            var n := |months|;
            && n <= |all| && n <= 12 && months == all[..n]
            && (forall i :: 0 <= i < n ==> LeftNothing(main, all[i]))
            && (n < |all| && n < 12 ==> !LeftNothing(main, all[n]))
  {
    hide ExportableMonths, MonthsPresent, LeftNothing, ReadyMonths, IsName;
    var all := Exportable(s, archive, c, coldAfterMonths, nowMs);
    ExportableShape(s, archive, c, coldAfterMonths, nowMs);
    var candidates := all[..Min(|all|, MAX_COLD_MONTHS_PER_PASS)];
    assert candidates == Candidates(archive, c, coldAfterMonths, s.exportedUntil, nowMs);
    assert forall m :: m in candidates ==> m in all;
    ReadyIsPrefix(candidates, main);
  }

  lemma LeftIs(main: Table, names: seq<string>, i: nat)
    requires i < |names|
    ensures LeftNothing(main, names[i]) <==> !HasRow(main, MonthsOf(names)[i])
  {
    HasRowIs(main, IndexOf(names[i]));
    hide MonthRows, HasRow, IndexOf;
  }

  /** The months a pass takes, in figures. */
  lemma PassTakes(s: Cold, archive: Table, main: Table, c: Config, coldAfterMonths: int, nowMs: int, k: int)
    requires 0 <= coldAfterMonths <= 0x7000_0000
    ensures k in MonthsOf(PassMonths(s, archive, main, c, coldAfterMonths, nowMs))
       <==> Takes(s, archive, main, c, coldAfterMonths, nowMs, k)
  {
    hide Exportable, PassMonths, MonthsOf, Waits, WaitsBefore, HasRow, LeftNothing;
    var all, months := Exportable(s, archive, c, coldAfterMonths, nowMs), PassMonths(s, archive, main, c, coldAfterMonths, nowMs);
    var xs := MonthsOf(all);
    var n := |months|;
    PassLength(s, archive, main, c, coldAfterMonths, nowMs);
    ExportableShape(s, archive, c, coldAfterMonths, nowMs);
    MonthsLength(all);
    MonthsPrefix(all, n);
    forall i: nat | i < |all|
      ensures LeftNothing(main, all[i]) <==> !HasRow(main, xs[i])
      ensures |WaitsBefore(s, archive, c, coldAfterMonths, nowMs, xs[i])| == i
    {
      LeftIs(main, all, i);
      WaitingPlace(s, archive, c, coldAfterMonths, nowMs, i);
    }
    if k in xs {
      var p :| 0 <= p < |xs| && xs[p] == k;
      PrefixMember(xs, n, p);
      if p < n {
        forall j | j <= k && Waits(s, archive, c, coldAfterMonths, nowMs, j)
          ensures !HasRow(main, j)
        {
          var q :| 0 <= q < |xs| && xs[q] == j;
        }
      } else if p < 12 {
        assert xs[n] <= xs[p];
        assert HasRow(main, xs[n]);
        assert xs[n] in xs;
      }
    } else {
      assert forall i :: 0 <= i < n ==> xs[..n][i] in xs;
    }
  }

  lemma MonthsPrefix(names: seq<string>, n: nat)
    requires n <= |names|
    ensures |MonthsOf(names)| == |names| && MonthsOf(names[..n]) == MonthsOf(names)[..n]
  {
  }

  lemma PrefixMember(xs: seq<int>, n: nat, p: nat)
    requires Rising(xs) && n <= |xs| && p < |xs|
    ensures xs[p] in xs[..n] <==> p < n
  {
    if p < n {
      assert xs[..n][p] == xs[p];
    }
  }

  // ---------- What is left behind ----------

  /** What month `m` of a pass leaves. */
  ghost predicate Written(t: Cold, m: string, archive: Table, nowMs: int, show: real -> string) {
    && m in t.files && t.files[m] == ColdText(MonthRows(archive, IndexOf(m)), show)
    && m in t.manifest && t.manifest[m] == ManifestRow(nowMs, |MonthRows(archive, IndexOf(m))|)
  }

  ghost predicate Untouched(s: Cold, t: Cold, m: string) {
    && (m in t.files <==> m in s.files) && (m in s.files ==> t.files[m] == s.files[m])
    && (m in t.manifest <==> m in s.manifest) && (m in s.manifest ==> t.manifest[m] == s.manifest[m])
  }

  ghost predicate Exportables(months: seq<string>, archive: Table) {
    forall i :: 0 <= i < |months| ==> IsName(months[i]) && MonthRows(archive, IndexOf(months[i])) != []
  }

  lemma OneMonth(s: Cold, m: string, archive: Table, nowMs: int, show: real -> string)
    requires IsName(m) && MonthRows(archive, IndexOf(m)) != []
    ensures var t := ApplyAll(s, MonthWrites(m, archive, nowMs, show));
            && Written(t, m, archive, nowMs, show) && t.exportedUntil == Some(m)
            && (forall x :: x != m ==> Untouched(s, t, x))
            && |MonthWrites(m, archive, nowMs, show)| == 3
  {
    hide MonthWrites, Name, IndexOf, MonthRows, ColdText, Written, Untouched, MonthIndex, ApplyAll, Apply;
    var rows := MonthRows(archive, IndexOf(m));
    NamedBack(m);
    NamedWrites(IndexOf(m), archive, nowMs, show);
    var text, row := ColdText(rows, show), ManifestRow(nowMs, |rows|);
    ThreeApplied(s, FileWrite(m, text), ManifestWrite(m, row), MarkWrite(m));
    ThreeLeave(s, m, text, row);
    WrittenBy(Apply(Apply(Apply(s, FileWrite(m, text)), ManifestWrite(m, row)), MarkWrite(m)), m, archive, nowMs, show);
  }

  lemma ThreeLeave(s: Cold, m: string, text: string, row: ManifestRow)
    ensures var t := Apply(Apply(Apply(s, FileWrite(m, text)), ManifestWrite(m, row)), MarkWrite(m));
            && m in t.files && t.files[m] == text && m in t.manifest && t.manifest[m] == row
            && t.exportedUntil == Some(m)
            && forall x :: x != m ==> Untouched(s, t, x)
  {
  }

  lemma WrittenBy(t: Cold, m: string, archive: Table, nowMs: int, show: real -> string)
    requires m in t.files && t.files[m] == ColdText(MonthRows(archive, IndexOf(m)), show)
    requires m in t.manifest && t.manifest[m] == ManifestRow(nowMs, |MonthRows(archive, IndexOf(m))|)
    ensures Written(t, m, archive, nowMs, show)
  {
    hide ColdText, MonthRows, IndexOf;
  }

  lemma ThreeApplied(s: Cold, a: Write, b: Write, c: Write)
    ensures ApplyAll(s, [a, b, c]) == Apply(Apply(Apply(s, a), b), c)
  {
    hide ApplyAll, Apply;
    assert [a] + [b, c] == [a, b, c] && [b] + [c] == [b, c] && [c] + [] == [c];
    ApplyCons(s, a, [b, c]);
    ApplyCons(Apply(s, a), b, [c]);
    ApplyCons(Apply(Apply(s, a), b), c, []);
    ApplyNone(Apply(Apply(Apply(s, a), b), c), []);
  }

  lemma {:induction false} AllMonths(s: Cold, months: seq<string>, archive: Table, nowMs: int, show: real -> string)
    requires Exportables(months, archive)
    ensures var writes := PassWrites(months, archive, nowMs, show);
            var t := ApplyAll(s, writes);
            && |writes| == 3 * |months|
            && t.exportedUntil == (if months == [] then s.exportedUntil else Some(months[|months| - 1]))
            && forall x :: if x in months then Written(t, x, archive, nowMs, show) else Untouched(s, t, x)
    decreases |months|
  {
    hide MonthWrites, IsName, MonthRows, ColdText, IndexOf, Apply;
    if months == [] {
      ApplyNone(s, PassWrites(months, archive, nowMs, show));
    } else {
      var head, rest := MonthWrites(months[0], archive, nowMs, show), PassWrites(months[1..], archive, nowMs, show);
      var t := ApplyAll(s, head);
      OneMonth(s, months[0], archive, nowMs, show);
      assert forall i :: 0 <= i < |months[1..]| ==> months[1..][i] == months[i + 1];
      AllMonths(t, months[1..], archive, nowMs, show);
      ApplySplit(s, head, rest);
      HeadAndTail(s, t, ApplyAll(t, rest), months, archive, nowMs, show);
    }
  }

  lemma HeadAndTail(s: Cold, t: Cold, u: Cold, months: seq<string>, archive: Table, nowMs: int, show: real -> string)
    requires months != [] && Written(t, months[0], archive, nowMs, show)
    requires forall x :: x != months[0] ==> Untouched(s, t, x)
    requires forall x :: if x in months[1..] then Written(u, x, archive, nowMs, show) else Untouched(t, u, x)
    ensures forall x :: if x in months then Written(u, x, archive, nowMs, show) else Untouched(s, u, x)
  {
    hide ColdText, IndexOf, MonthRows;
    assert months == [months[0]] + months[1..];
    forall x
      ensures if x in months then Written(u, x, archive, nowMs, show) else Untouched(s, u, x)
    {
      assert x in months <==> x == months[0] || x in months[1..];
      if x !in months[1..] {
        assert Untouched(t, u, x);
        if x == months[0] {
          assert Written(t, x, archive, nowMs, show);
        } else {
          assert Untouched(s, t, x);
        }
      }
    }
  }

  lemma PassExportables(s: Cold, archive: Table, main: Table, c: Config, coldAfterMonths: int, nowMs: int)
    requires 0 <= coldAfterMonths <= 0x7000_0000
    ensures Exportables(PassMonths(s, archive, main, c, coldAfterMonths, nowMs), archive)
    ensures |PassMonths(s, archive, main, c, coldAfterMonths, nowMs)| <= 12
  {
    hide PassMonths, ExportableMonths, MonthsPresent, IsName, MonthRows, IndexOf, Finished, StrLess, LeftNothing;
    PassLength(s, archive, main, c, coldAfterMonths, nowMs);
    var all, months := Exportable(s, archive, c, coldAfterMonths, nowMs), PassMonths(s, archive, main, c, coldAfterMonths, nowMs);
    forall i | 0 <= i < |months|
      ensures IsName(months[i]) && MonthRows(archive, IndexOf(months[i])) != []
    {
      assert months[i] == all[i] && all[i] in all;
      CandidateIs(archive, c, coldAfterMonths, s.exportedUntil, nowMs, all[i]);
    }
  }

  /** What the pass leaves under the name `m`, and the watermark. */
  ghost predicate PassLeaves(s: Cold, t: Cold, months: seq<string>, archive: Table, nowMs: int, show: real -> string) {
    && t.exportedUntil == (if months == [] then s.exportedUntil else Some(months[|months| - 1]))
    && forall x :: if x in months then Written(t, x, archive, nowMs, show) else Untouched(s, t, x)
  }

  lemma WritesOfPass(s: Cold, archive: Table, main: Table, c: Config, coldAfterMonths: int, nowMs: int, show: real -> string)
    ensures AllWrites(s, archive, main, c, coldAfterMonths, nowMs, show)
         == PassWrites(PassMonths(s, archive, main, c, coldAfterMonths, nowMs), archive, nowMs, show)
  {
    hide PassWrites, ReadyMonths, Candidates;
  }

  lemma PassApplies(s: Cold, archive: Table, main: Table, c: Config, coldAfterMonths: int, nowMs: int, show: real -> string,
                    stop: nat)
    requires 0 <= coldAfterMonths <= 0x7000_0000 && stop >= 36
    ensures PassLeaves(s, ExportPass(s, archive, main, c, coldAfterMonths, nowMs, show, stop),
                       PassMonths(s, archive, main, c, coldAfterMonths, nowMs), archive, nowMs, show)
  {
    hide PassMonths, AllWrites, ApplyAll, PassWrites, Written, Untouched, Exportables;
    var months := PassMonths(s, archive, main, c, coldAfterMonths, nowMs);
    var writes := PassWrites(months, archive, nowMs, show);
    WritesOfPass(s, archive, main, c, coldAfterMonths, nowMs, show);
    PassExportables(s, archive, main, c, coldAfterMonths, nowMs);
    AllMonths(s, months, archive, nowMs, show);
    assert writes[..Min(stop, |writes|)] == writes;
  }

  /** A pass that nothing stops exports exactly the months it takes: each gets its file with all its archived rows and its
    * manifest row with their number; under every other name, file and manifest stay; and the watermark stands at the
    * last month taken, or where it was if there is none. */
  lemma PassExactly(s: Cold, archive: Table, main: Table, c: Config, coldAfterMonths: int, nowMs: int, show: real -> string,
                    stop: nat)
    requires 0 <= coldAfterMonths <= 0x7000_0000 && stop >= 36
    ensures var t := ExportPass(s, archive, main, c, coldAfterMonths, nowMs, show, stop);
            && (forall k :: Takes(s, archive, main, c, coldAfterMonths, nowMs, k) ==>
                  && MonthIndex(k) && Written(t, Name(k), archive, nowMs, show)
                  && ((forall j :: Takes(s, archive, main, c, coldAfterMonths, nowMs, j) ==> j <= k) ==>
                        t.exportedUntil == Some(Name(k))))
            && (forall m :: !(exists k :: MonthIndex(k) && Takes(s, archive, main, c, coldAfterMonths, nowMs, k) && m == Name(k))
                  ==> Untouched(s, t, m))
            && ((forall k :: !Takes(s, archive, main, c, coldAfterMonths, nowMs, k)) ==> t.exportedUntil == s.exportedUntil)
  {
    hide PassMonths, ExportPass, Takes, Name, IndexOf, Written, Untouched, Exportables;
    var months := PassMonths(s, archive, main, c, coldAfterMonths, nowMs);
    var t := ExportPass(s, archive, main, c, coldAfterMonths, nowMs, show, stop);
    PassApplies(s, archive, main, c, coldAfterMonths, nowMs, show, stop);
    forall k
      ensures Takes(s, archive, main, c, coldAfterMonths, nowMs, k) <==> MonthIndex(k) && Name(k) in months
    {
      TakenNames(s, archive, main, c, coldAfterMonths, nowMs, k);
    }
    forall m | m in months
      ensures exists k :: MonthIndex(k) && Takes(s, archive, main, c, coldAfterMonths, nowMs, k) && m == Name(k)
    {
      TakenName(s, archive, main, c, coldAfterMonths, nowMs, m);
      assert Takes(s, archive, main, c, coldAfterMonths, nowMs, IndexOf(m));
    }
    if months != [] {
      TakenLast(s, archive, main, c, coldAfterMonths, nowMs);
    }
  }

  lemma TakenName(s: Cold, archive: Table, main: Table, c: Config, coldAfterMonths: int, nowMs: int, m: string)
    requires 0 <= coldAfterMonths <= 0x7000_0000 && m in PassMonths(s, archive, main, c, coldAfterMonths, nowMs)
    ensures MonthIndex(IndexOf(m)) && m == Name(IndexOf(m))
    ensures Takes(s, archive, main, c, coldAfterMonths, nowMs, IndexOf(m))
  {
    hide PassMonths, Takes, Name, IndexOf, MonthIndex, MonthRows;
    var months := PassMonths(s, archive, main, c, coldAfterMonths, nowMs);
    PassExportables(s, archive, main, c, coldAfterMonths, nowMs);
    var i :| 0 <= i < |months| && months[i] == m;
    assert IsName(months[i]);
    assert MonthsOf(months)[i] == IndexOf(m);
    PassTakes(s, archive, main, c, coldAfterMonths, nowMs, IndexOf(m));
  }

  lemma TakenNames(s: Cold, archive: Table, main: Table, c: Config, coldAfterMonths: int, nowMs: int, k: int)
    requires 0 <= coldAfterMonths <= 0x7000_0000
    ensures Takes(s, archive, main, c, coldAfterMonths, nowMs, k)
       <==> MonthIndex(k) && Name(k) in PassMonths(s, archive, main, c, coldAfterMonths, nowMs)
  {
    hide PassMonths, Waits, WaitsBefore, HasRow, Name, IndexOf, MonthIndex;
    var months := PassMonths(s, archive, main, c, coldAfterMonths, nowMs);
    PassTakes(s, archive, main, c, coldAfterMonths, nowMs, k);
    if Takes(s, archive, main, c, coldAfterMonths, nowMs, k) {
      var i :| 0 <= i < |MonthsOf(months)| && MonthsOf(months)[i] == k;
      TakenName(s, archive, main, c, coldAfterMonths, nowMs, months[i]);
    } else if MonthIndex(k) && Name(k) in months {
      TakenName(s, archive, main, c, coldAfterMonths, nowMs, Name(k));
      IndexOfName(k);
    }
  }

  /** The last month of a pass is the greatest taken. */
  lemma TakenLast(s: Cold, archive: Table, main: Table, c: Config, coldAfterMonths: int, nowMs: int)
    requires 0 <= coldAfterMonths <= 0x7000_0000 && PassMonths(s, archive, main, c, coldAfterMonths, nowMs) != []
    ensures var months := PassMonths(s, archive, main, c, coldAfterMonths, nowMs);
            var last := IndexOf(months[|months| - 1]);
            && MonthIndex(last) && months[|months| - 1] == Name(last)
            && Takes(s, archive, main, c, coldAfterMonths, nowMs, last)
            && forall k :: Takes(s, archive, main, c, coldAfterMonths, nowMs, k) ==> k <= last
  {
    hide PassMonths, Takes, Name, IndexOf, MonthIndex, MonthsOf, Rising;
    var months := PassMonths(s, archive, main, c, coldAfterMonths, nowMs);
    assert forall m :: m in months ==> IsName(m) by { PassMonthsQueue(s, archive, main, c, coldAfterMonths, nowMs); }
    TakenName(s, archive, main, c, coldAfterMonths, nowMs, months[|months| - 1]);
    PassMonthsQueue(s, archive, main, c, coldAfterMonths, nowMs);
    MonthsRise(months);
    forall k | Takes(s, archive, main, c, coldAfterMonths, nowMs, k)
      ensures k <= IndexOf(months[|months| - 1])
    {
      PassTakes(s, archive, main, c, coldAfterMonths, nowMs, k);
      LastIsGreatest(months, k);
    }
  }

  lemma LastIsGreatest(months: seq<string>, k: int)
    requires months != [] && Rising(MonthsOf(months)) && k in MonthsOf(months)
    ensures k <= IndexOf(months[|months| - 1])
  {
    hide IndexOf;
    var i :| 0 <= i < |months| && MonthsOf(months)[i] == k;
    assert MonthsOf(months)[|months| - 1] == IndexOf(months[|months| - 1]);
  }
}

/** The exporter that performs a cold export pass, write by write (`export_cold_months` of `archive.rs`). */
module ColdExporter {
  import opened Prelude
  import opened TierFold
  import opened LadderModel
  import opened LadderTables
  import opened Months
  import opened ColdMonths
  import opened ColdFile
  import opened ColdExport
  import opened ColdRuns
  import opened ColdPass
  import Csv

  /** Rows are stored under their own start, an `i64`. */
  ghost predicate Stored(archive: Table) {
    forall k :: k in archive ==> I64_MIN <= k <= I64_MAX && archive[k].bucketStartMs == k
  }

  lemma {:induction false} StoredStarts(archive: Table, lo: int, hi: int)
    requires Stored(archive)
    ensures forall b :: b in RowsIn(archive, lo, hi) ==> I64_MIN <= b.bucketStartMs <= I64_MAX
    decreases hi - lo
  {
    if lo < hi {
      StoredStarts(archive, lo, hi - 1);
    }
  }

  /** What is left to do of `rest` with `left` writes to go. */
  function Remaining(s: Cold, rest: seq<Write>, left: nat): Cold { ApplyAll(s, rest[..Min(left, |rest|)]) }

  lemma RemainingNone(s: Cold, rest: seq<Write>)
    ensures Remaining(s, rest, 0) == s
  {
    ApplyNone(s, rest[..0]);
  }

  lemma NothingRemains(s: Cold, left: nat)
    ensures Remaining(s, [], left) == s
  {
    ApplyNone(s, [][..0]);
  }

  lemma RemainingStep(s: Cold, w: Write, rest: seq<Write>, left: nat)
    requires left > 0
    ensures Remaining(s, [w] + rest, left) == Remaining(Apply(s, w), rest, left - 1)
  {
    hide ApplyAll, Apply;
    var n := Min(left - 1, |rest|);
    assert ([w] + rest)[..n + 1] == [w] + rest[..n];
    ApplyCons(s, w, rest[..n]);
  }

  /** The months of `months` that have rows to export. */
  function WithRows(months: seq<string>, archive: Table): seq<string> {
    if months == [] then []
    else (if MonthRows(archive, IndexOf(months[0])) == [] then [] else [months[0]]) + WithRows(months[1..], archive)
  }

  lemma {:induction false} AllHaveRows(months: seq<string>, archive: Table)
    requires Exportables(months, archive)
    ensures WithRows(months, archive) == months
  {
    hide MonthRows, IndexOf, IsName;
    if months != [] {
      assert forall i :: 0 <= i < |months[1..]| ==> months[1..][i] == months[i + 1];
      AllHaveRows(months[1..], archive);
    }
  }

  lemma NoMonths(archive: Table, nowMs: int, show: real -> string)
    ensures PassWrites([], archive, nowMs, show) == [] && WithRows([], archive) == []
  {
  }

  lemma RowsOfName(month: string, archive: Table)
    requires IsName(month)
    ensures MonthBounds(month).Some?
    ensures var bounds := MonthBounds(month).value;
            RowsIn(archive, bounds.0, bounds.1) == MonthRows(archive, IndexOf(month))
  {
    hide Name, IndexOf, MonthIndex, MonthBounds, RowsIn, MonthRows, StartMs;
    assert month == Name(IndexOf(month)) && MonthIndex(IndexOf(month)) && MonthIndex(IndexOf(month) + 1);
    BoundsOfName(IndexOf(month));
    RowsOfMonth(IndexOf(month), archive);
  }

  lemma RowsOfMonth(k: int, archive: Table)
    ensures MonthRows(archive, k) == RowsIn(archive, StartMs(k), StartMs(k + 1))
  {
  }

  lemma WritesOfName(month: string, archive: Table, nowMs: int, show: real -> string)
    requires IsName(month)
    ensures var rows := MonthRows(archive, IndexOf(month));
            MonthWrites(month, archive, nowMs, show)
            == if rows == [] then []
               else [FileWrite(month, ColdText(rows, show)), ManifestWrite(month, ManifestRow(nowMs, |rows|)), MarkWrite(month)]
  {
    RowsOfName(month, archive);
    hide IsName, MonthBounds, RowsIn, MonthRows, ColdText;
  }

  lemma ThreeInFront(a: Write, b: Write, c: Write, tail: seq<Write>)
    ensures [a, b, c] + tail == [a] + ([b] + ([c] + tail))
  {
  }

  lemma NextMonth(months: seq<string>, i: nat, archive: Table, nowMs: int, show: real -> string)
    requires AllNames(months) && i < |months|
    ensures MonthBounds(months[i]).Some?
    ensures var bounds := MonthBounds(months[i]).value;
            RowsIn(archive, bounds.0, bounds.1) == MonthRows(archive, IndexOf(months[i]))
    ensures var rows := MonthRows(archive, IndexOf(months[i]));
            var tail := PassWrites(months[i + 1..], archive, nowMs, show);
            PassWrites(months[i..], archive, nowMs, show)
            == if rows == [] then tail
               else [FileWrite(months[i], ColdText(rows, show))]
                    + ([ManifestWrite(months[i], ManifestRow(nowMs, |rows|))] + ([MarkWrite(months[i])] + tail))
    ensures WithRows(months[i..], archive)
         == (if MonthRows(archive, IndexOf(months[i])) == [] then [] else [months[i]]) + WithRows(months[i + 1..], archive)
  {
    assert months[i] in months;
    assert IsName(months[i]);
    RowsOfName(months[i], archive);
    WritesOfName(months[i], archive, nowMs, show);
    Unroll(months, i, archive, nowMs, show);
    var rows := MonthRows(archive, IndexOf(months[i]));
    ThreeInFront(FileWrite(months[i], ColdText(rows, show)), ManifestWrite(months[i], ManifestRow(nowMs, |rows|)),
                 MarkWrite(months[i]), PassWrites(months[i + 1..], archive, nowMs, show));
    hide *;
  }

  lemma Unroll(months: seq<string>, i: nat, archive: Table, nowMs: int, show: real -> string)
    requires i < |months|
    ensures PassWrites(months[i..], archive, nowMs, show)
         == MonthWrites(months[i], archive, nowMs, show) + PassWrites(months[i + 1..], archive, nowMs, show)
    ensures WithRows(months[i..], archive)
         == (if MonthRows(archive, IndexOf(months[i])) == [] then [] else [months[i]]) + WithRows(months[i + 1..], archive)
  {
    hide MonthWrites, IndexOf, MonthRows;
    assert months[i..][0] == months[i] && months[i..][1..] == months[i + 1..];
  }

  /** Having taken `taken`, the loop gives `taken` followed by what `months` gives. */
  ghost predicate TakenSoFar(whole: Option<seq<string>>, taken: seq<string>, months: seq<string>, main: Table) {
    var rest := ReadyMonths(months, main);
    whole == if rest.None? then None else Some(taken + rest.value)
  }

  lemma TakeNext(whole: Option<seq<string>>, taken: seq<string>, months: seq<string>, i: nat, main: Table)
    requires i < |months| && TakenSoFar(whole, taken, months[i..], main)
    ensures var bounds := MonthBounds(months[i]);
            if bounds.None? then whole == None
            else if RowsIn(main, bounds.value.0, bounds.value.1) != [] then whole == Some(taken)
            else TakenSoFar(whole, taken + [months[i]], months[i + 1..], main)
  {
    hide MonthBounds, RowsIn;
    assert months[i..][0] == months[i] && months[i..][1..] == months[i + 1..];
    assert taken + [] == taken;
    var rest := ReadyMonths(months[i + 1..], main);
    if rest.Some? {
      assert taken + ([months[i]] + rest.value) == taken + [months[i]] + rest.value;
    }
  }

  lemma TakenAll(whole: Option<seq<string>>, taken: seq<string>, main: Table)
    requires TakenSoFar(whole, taken, [], main)
    ensures whole == Some(taken)
  {
    assert taken + [] == taken;
  }

  lemma TakenNothing(months: seq<string>, main: Table)
    ensures TakenSoFar(ReadyMonths(months, main), [], months, main)
  {
    if ReadyMonths(months, main).Some? {
      assert [] + ReadyMonths(months, main).value == ReadyMonths(months, main).value;
    }
  }

  /** The loop that takes months until one still has hourly rows in the main database. */
  method MonthsReadyToExport(months: seq<string>, main: Table) returns (ready: Option<seq<string>>)
    ensures ready == ReadyMonths(months, main)
  {
    hide MonthBounds, RowsIn, ReadyMonths, TakenSoFar;
    var taken: seq<string> := [];
    TakenNothing(months, main);
    assert months[0..] == months;
    for i := 0 to |months|
      invariant TakenSoFar(ReadyMonths(months, main), taken, months[i..], main)
    {
      TakeNext(ReadyMonths(months, main), taken, months, i, main);
      var bounds := MonthBounds(months[i]);
      if bounds.None? {
        return None;
      }
      if RowsIn(main, bounds.value.0, bounds.value.1) != [] {
        return Some(taken);
      }
      taken := taken + [months[i]];
    }
    assert months[|months|..] == [];
    TakenAll(ReadyMonths(months, main), taken, main);
    return Some(taken);
  }

  class Exporter {
    var files: map<string, string>
    var manifest: map<string, ManifestRow>
    var exportedUntil: Option<string>

    constructor ()
      ensures Value() == NOTHING_EXPORTED
    {
      files := map[];
      manifest := map[];
      exportedUntil := None;
    }

    ghost function Value(): Cold
      reads this
    {
      Cold(files, manifest, exportedUntil)
    }

    /** A pass that can make `stop` durable writes before it fails. `finished` tells whether it got through; then
      * `written` lists the months it exported. */
    method ExportColdMonths(archive: Table, main: Table, c: Config, coldAfterMonths: int, nowMs: int, show: real -> string,
                            stop: nat) returns (finished: bool, written: seq<string>)
      requires 0 <= coldAfterMonths <= 0x7000_0000 && Stored(archive)
      modifies this
      ensures Value() == ExportPass(old(Value()), archive, main, c, coldAfterMonths, nowMs, show, stop)
      ensures finished <==> stop >= |AllWrites(old(Value()), archive, main, c, coldAfterMonths, nowMs, show)|
      ensures finished ==> written == PassMonths(old(Value()), archive, main, c, coldAfterMonths, nowMs)
    {
      var candidates := Candidates(archive, c, coldAfterMonths, exportedUntil, nowMs);
      var months := MonthsReadyToExport(candidates, main);
      PassMonthsArePrefix(Value(), archive, main, c, coldAfterMonths, nowMs);
      var ready := months.value;
      ghost var all := PassWrites(ready, archive, nowMs, show);
      assert all == AllWrites(Value(), archive, main, c, coldAfterMonths, nowMs, show);
      assert ready[0..] == ready;
      PassExportables(Value(), archive, main, c, coldAfterMonths, nowMs);
      AllHaveRows(ready, archive);
      hide *;
      finished, written := WriteMonths(ready, archive, nowMs, show, stop);
    }

    /** The loop over the ready months. */
    method WriteMonths(ready: seq<string>, archive: Table, nowMs: int, show: real -> string, stop: nat)
      returns (finished: bool, written: seq<string>)
      requires AllNames(ready) && Stored(archive)
      modifies this
      ensures Value() == Remaining(old(Value()), PassWrites(ready, archive, nowMs, show), stop)
      ensures finished <==> stop >= |PassWrites(ready, archive, nowMs, show)|
      ensures finished ==> written == WithRows(ready, archive)
    {
      hide AllNames, Stored, PassWrites, WithRows, Remaining, MonthRows, ColdText, MonthBounds, RowsIn, VerifyColdFile;
      var left := stop;
      written := [];
      assert ready[0..] == ready;
      for i := 0 to |ready|
        invariant Remaining(old(Value()), PassWrites(ready, archive, nowMs, show), stop)
               == Remaining(Value(), PassWrites(ready[i..], archive, nowMs, show), left)
        invariant |PassWrites(ready, archive, nowMs, show)| - stop == |PassWrites(ready[i..], archive, nowMs, show)| - left
        invariant WithRows(ready, archive) == written + WithRows(ready[i..], archive)
      {
        NextMonth(ready, i, archive, nowMs, show);
        ghost var tail := PassWrites(ready[i + 1..], archive, nowMs, show);
        var month := ready[i];
        var bounds := MonthBounds(month).value;
        var rows := RowsIn(archive, bounds.0, bounds.1);
        if rows == [] {
          continue;
        }
        var text := ColdText(rows, show);
        var verdict := VerifyColdFile(text, |rows|, rows[0].bucketStartMs, rows[|rows| - 1].bucketStartMs);
        StoredStarts(archive, bounds.0, bounds.1);
        VerifyAcceptsExactly(rows, show, |rows|, rows[0].bucketStartMs, rows[|rows| - 1].bucketStartMs);
        assert verdict == Ok(());
        var done;
        done, left := WriteMonth(month, text, ManifestRow(nowMs, |rows|), left, tail);
        if !done {
          return false, written;
        }
        written := written + [month];
      }
      finished := true;
      assert ready[|ready|..] == [];
      NoMonths(archive, nowMs, show);
      NothingRemains(Value(), left);
    }

    /** The three durable writes of one month, with `tail` to come after them. */
    method WriteMonth(month: string, text: string, row: ManifestRow, left: nat, ghost tail: seq<Write>)
      returns (done: bool, after: nat)
      modifies this
      ensures Remaining(old(Value()), [FileWrite(month, text)] + ([ManifestWrite(month, row)] + ([MarkWrite(month)] + tail)), left)
           == if done then Remaining(Value(), tail, after) else Value()
      ensures done <==> left >= 3
      ensures done ==> after == left - 3
    {
      after := left;
      ghost var third := [MarkWrite(month)] + tail;
      ghost var second := [ManifestWrite(month, row)] + third;
      hide Remaining;
      if after == 0 {
        RemainingNone(Value(), [FileWrite(month, text)] + second);
        return false, 0;
      }
      RemainingStep(Value(), FileWrite(month, text), second, after);
      files := files[month := text];
      after := after - 1;
      if after == 0 {
        RemainingNone(Value(), second);
        return false, 0;
      }
      RemainingStep(Value(), ManifestWrite(month, row), third, after);
      manifest := manifest[month := row];
      after := after - 1;
      if after == 0 {
        RemainingNone(Value(), third);
        return false, 0;
      }
      RemainingStep(Value(), MarkWrite(month), tail, after);
      exportedUntil := Some(month);
      after := after - 1;
      done := true;
    }
  }
}

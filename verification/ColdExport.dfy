/** A cold export pass over the finished months, stopping anywhere (`export_cold_months` of `archive.rs`). */
module ColdExport {
  import opened Prelude
  import opened TierFold
  import opened LadderModel
  import opened LadderTables
  import opened Months
  import opened ColdMonths
  import opened ColdFile

  const MAX_COLD_MONTHS_PER_PASS: nat := 12

  datatype ManifestRow = ManifestRow(exportedAtMs: int, rowCount: int)

  /** What an export leaves behind: the files and the manifest by month, and the persisted watermark. */
  datatype Cold = Cold(files: map<string, string>, manifest: map<string, ManifestRow>, exportedUntil: Option<string>)

  /** One durable write. */
  datatype Write =
    | FileWrite(month: string, text: string)
    | ManifestWrite(month: string, row: ManifestRow)
    | MarkWrite(month: string)

  function Apply(s: Cold, w: Write): Cold {
    match w
    case FileWrite(month, text) => s.(files := s.files[month := text])
    case ManifestWrite(month, row) => s.(manifest := s.manifest[month := row])
    case MarkWrite(month) => s.(exportedUntil := Some(month))
  }

  function ApplyAll(s: Cold, writes: seq<Write>): Cold
    decreases |writes|
  {
    if writes == [] then s else ApplyAll(Apply(s, writes[0]), writes[1..])
  }

  // ---------- Choosing the months ----------

  function MonthRows(table: Table, k: int): seq<TierBucket> { RowsIn(table, StartMs(k), StartMs(k + 1)) }

  function PresentUpTo(archive: Table, k: int): seq<string>
    requires k <= LAST_MONTH
    decreases k + 1
  {
    if k < 0 then []
    else PresentUpTo(archive, k - 1) + (if MonthRows(archive, k) == [] then [] else [Name(k)])
  }

  /** `SELECT DISTINCT strftime('%Y-%m') ... ORDER BY 1`. */
  function MonthsPresent(archive: Table): seq<string> { PresentUpTo(archive, LAST_MONTH) }

  /** The months before the first one with hourly rows left in the main database; `None` is an unusable name. */
  function ReadyMonths(months: seq<string>, main: Table): Option<seq<string>> {
    if months == [] then Some([])
    else
      var bounds := MonthBounds(months[0]);
      if bounds.None? then None
      else if RowsIn(main, bounds.value.0, bounds.value.1) != [] then Some([])
      else
        var rest := ReadyMonths(months[1..], main);
        if rest.None? then None else Some([months[0]] + rest.value)
  }

  function Candidates(archive: Table, c: Config, coldAfterMonths: int, exportedUntil: Option<string>, nowMs: int): seq<string> {
    var all := ExportableMonths(MonthsPresent(archive), c, coldAfterMonths, exportedUntil, nowMs);
    all[..Min(|all|, MAX_COLD_MONTHS_PER_PASS)]
  }

  // ---------- The pass ----------

  /** The writes for one month: its file in place of any old one, its manifest row, the watermark. */
  function MonthWrites(month: string, archive: Table, nowMs: int, show: real -> string): seq<Write> {
    var bounds := MonthBounds(month);
    var rows := if bounds.None? then [] else RowsIn(archive, bounds.value.0, bounds.value.1);
    if rows == [] then []
    else [FileWrite(month, ColdText(rows, show)), ManifestWrite(month, ManifestRow(nowMs, |rows|)), MarkWrite(month)]
  }

  function PassWrites(months: seq<string>, archive: Table, nowMs: int, show: real -> string): seq<Write> {
    if months == [] then [] else MonthWrites(months[0], archive, nowMs, show) + PassWrites(months[1..], archive, nowMs, show)
  }

  function AllWrites(s: Cold, archive: Table, main: Table, c: Config, coldAfterMonths: int, nowMs: int, show: real -> string)
    : seq<Write>
  {
    PassWrites(ReadyMonths(Candidates(archive, c, coldAfterMonths, s.exportedUntil, nowMs), main).UnwrapOr([]),
               archive, nowMs, show)
  }

  /** A pass that ends, by an error or a crash, after `stop` durable writes. */
  function ExportPass(s: Cold, archive: Table, main: Table, c: Config, coldAfterMonths: int, nowMs: int, show: real -> string,
                stop: nat): Cold
  {
    var writes := AllWrites(s, archive, main, c, coldAfterMonths, nowMs, show);
    ApplyAll(s, writes[..Min(stop, |writes|)])
  }

  // ---------- What a pass keeps ----------

  /** A name with bounds. */
  ghost predicate IsName(month: string) {
    MonthIndex(IndexOf(month)) && MonthIndex(IndexOf(month) + 1) && month == Name(IndexOf(month))
  }

  /** The months may still be written in this order, all of them past the watermark. */
  ghost predicate Queue(months: seq<string>, exportedUntil: Option<string>) {
    && (forall m :: m in months ==> IsName(m))
    && StrictlyAscending(months)
    && (exportedUntil.None? || forall m :: m in months ==> StrLess(exportedUntil.value, m))
  }

  /** Month `k` has its manifest row; if `exact`, also a file that holds exactly the archive's rows, counted right. */
  ghost predicate MonthKept(s: Cold, archive: Table, show: real -> string, exact: bool, k: int)
    requires MonthIndex(k)
  {
    && Name(k) in s.manifest
    && (exact ==>
          && Name(k) in s.files
          && s.files[Name(k)] == ColdText(MonthRows(archive, k), show)
          && s.manifest[Name(k)].rowCount == |MonthRows(archive, k)|)
  }

  /** Every month of the archive at or below the watermark is kept: there is no gap. */
  ghost predicate NoGaps(s: Cold, archive: Table, show: real -> string, exact: bool) {
    forall k :: MonthIndex(k) && MonthRows(archive, k) != []
                && s.exportedUntil.Some? && StrAtMost(Name(k), s.exportedUntil.value)
      ==> MonthKept(s, archive, show, exact, k)
  }

  ghost predicate ManifestBacked(s: Cold) { s.manifest.Keys <= s.files.Keys }

  /** The months up to each of the queue are kept or come earlier in the queue. */
  ghost predicate Reaches(s: Cold, months: seq<string>, archive: Table, show: real -> string, exact: bool) {
    forall i, k :: 0 <= i < |months| && MonthIndex(k) && MonthRows(archive, k) != [] && StrAtMost(Name(k), months[i])
      ==> MonthKept(s, archive, show, exact, k) || Name(k) in months[..i + 1]
  }

  ghost predicate MarkAtMost(a: Option<string>, b: Option<string>) {
    a.None? || (b.Some? && StrAtMost(a.value, b.value))
  }

  /** Nothing kept is lost. */
  ghost predicate KeepsKept(s: Cold, t: Cold, archive: Table, show: real -> string, exact: bool) {
    forall j :: MonthIndex(j) && MonthKept(s, archive, show, exact, j) ==> MonthKept(t, archive, show, exact, j)
  }

  lemma NamesDiffer(k: int)
    requires MonthIndex(k)
    ensures forall j :: MonthIndex(j) ==> (Name(j) == Name(k) <==> j == k)
  {
    hide Name, StrLess;
    forall j | MonthIndex(j)
      ensures Name(j) == Name(k) <==> j == k
    {
      NameOrder(j, k);
    }
  }

  lemma FileKeeps(s: Cold, k: int, archive: Table, show: real -> string, exact: bool)
    requires MonthIndex(k) && ManifestBacked(s)
    ensures var t := Apply(s, FileWrite(Name(k), ColdText(MonthRows(archive, k), show)));
            KeepsKept(s, t, archive, show, exact) && ManifestBacked(t)
  {
    hide Name, ColdText, MonthRows, MonthIndex;
    NamesDiffer(k);
  }

  lemma ManifestKeeps(s: Cold, k: int, archive: Table, nowMs: int, show: real -> string, exact: bool)
    requires MonthIndex(k) && ManifestBacked(s)
    requires Name(k) in s.files && s.files[Name(k)] == ColdText(MonthRows(archive, k), show)
    ensures var t := Apply(s, ManifestWrite(Name(k), ManifestRow(nowMs, |MonthRows(archive, k)|)));
            KeepsKept(s, t, archive, show, exact) && ManifestBacked(t) && MonthKept(t, archive, show, exact, k)
  {
    hide Name, ColdText, MonthRows, MonthIndex;
    NamesDiffer(k);
  }

  /** The watermark may pass month `k` once all months up to it are kept. */
  lemma MarkKeeps(s: Cold, k: int, archive: Table, show: real -> string, exact: bool)
    requires MonthIndex(k)
    requires forall j :: MonthIndex(j) && MonthRows(archive, j) != [] && StrAtMost(Name(j), Name(k))
               ==> MonthKept(s, archive, show, exact, j)
    ensures NoGaps(Apply(s, MarkWrite(Name(k))), archive, show, exact)
  {
    hide Name, ColdText, MonthRows, MonthIndex, StrAtMost;
  }

  lemma KeptKeepsNoGaps(s: Cold, t: Cold, archive: Table, show: real -> string, exact: bool)
    requires NoGaps(s, archive, show, exact) && KeepsKept(s, t, archive, show, exact)
    requires t.exportedUntil == s.exportedUntil
    ensures NoGaps(t, archive, show, exact)
  {
    hide Name, MonthKept, MonthRows, MonthIndex, StrAtMost;
  }

  /** What a month cut after `n` of its writes leaves. */
  ghost predicate MonthDone(s: Cold, t: Cold, k: int, archive: Table, show: real -> string, exact: bool) {
    && NoGaps(t, archive, show, exact) && ManifestBacked(t)
    && (t.exportedUntil == s.exportedUntil || (MonthIndex(k) && t.exportedUntil == Some(Name(k))))
    && KeepsKept(s, t, archive, show, exact)
  }

  lemma NamedWrites(k: int, archive: Table, nowMs: int, show: real -> string)
    requires MonthIndex(k) && MonthIndex(k + 1)
    ensures MonthWrites(Name(k), archive, nowMs, show)
         == var rows := MonthRows(archive, k);
            if rows == [] then []
            else [FileWrite(Name(k), ColdText(rows, show)), ManifestWrite(Name(k), ManifestRow(nowMs, |rows|)), MarkWrite(Name(k))]
  {
    BoundsOfName(k);
    hide MonthBounds, StartMs, Name, ColdText, RowsIn, MonthIndex;
  }

  lemma KeepsKeptTrans(s: Cold, t: Cold, u: Cold, archive: Table, show: real -> string, exact: bool)
    requires KeepsKept(s, t, archive, show, exact) && KeepsKept(t, u, archive, show, exact)
    ensures KeepsKept(s, u, archive, show, exact)
  {
    hide MonthKept, MonthIndex;
  }

  /** Months up to `k`, itself apart, are kept. */
  ghost predicate KeptBefore(s: Cold, k: int, archive: Table, show: real -> string, exact: bool)
    requires MonthIndex(k)
  {
    forall j :: MonthIndex(j) && MonthRows(archive, j) != [] && StrAtMost(Name(j), Name(k))
      ==> MonthKept(s, archive, show, exact, j) || j == k
  }

  lemma FirstWrite(s: Cold, k: int, archive: Table, show: real -> string, exact: bool)
    requires MonthIndex(k) && NoGaps(s, archive, show, exact) && ManifestBacked(s)
    ensures var t := Apply(s, FileWrite(Name(k), ColdText(MonthRows(archive, k), show)));
            MonthDone(s, t, k, archive, show, exact)
  {
    FileKeeps(s, k, archive, show, exact);
    var t := Apply(s, FileWrite(Name(k), ColdText(MonthRows(archive, k), show)));
    hide Name, ColdText, MonthRows, MonthIndex, MonthKept, NoGaps, ManifestBacked, KeepsKept;
    KeptKeepsNoGaps(s, t, archive, show, exact);
  }

  lemma SecondWrite(s: Cold, k: int, archive: Table, nowMs: int, show: real -> string, exact: bool)
    requires MonthIndex(k) && NoGaps(s, archive, show, exact) && ManifestBacked(s)
    requires Name(k) in s.files && s.files[Name(k)] == ColdText(MonthRows(archive, k), show)
    ensures var t := Apply(s, ManifestWrite(Name(k), ManifestRow(nowMs, |MonthRows(archive, k)|)));
            MonthDone(s, t, k, archive, show, exact) && MonthKept(t, archive, show, exact, k)
  {
    ManifestKeeps(s, k, archive, nowMs, show, exact);
    var t := Apply(s, ManifestWrite(Name(k), ManifestRow(nowMs, |MonthRows(archive, k)|)));
    hide Name, ColdText, MonthRows, MonthIndex, MonthKept, NoGaps, ManifestBacked, KeepsKept;
    KeptKeepsNoGaps(s, t, archive, show, exact);
  }

  lemma ThirdWrite(s: Cold, k: int, archive: Table, show: real -> string, exact: bool)
    requires MonthIndex(k) && ManifestBacked(s) && MonthKept(s, archive, show, exact, k)
    requires KeptBefore(s, k, archive, show, exact)
    ensures var t := Apply(s, MarkWrite(Name(k)));
            MonthDone(s, t, k, archive, show, exact) && MonthKept(t, archive, show, exact, k)
  {
    KeptIgnoresMark(s, k, archive, show, exact);
    var t := Apply(s, MarkWrite(Name(k)));
    hide Name, ColdText, MonthRows, MonthKept, ManifestBacked, NoGaps, StrAtMost, MonthIndex;
    MarkKeeps(s, k, archive, show, exact);
  }

  lemma KeptBeforeStays(s: Cold, t: Cold, k: int, archive: Table, show: real -> string, exact: bool)
    requires MonthIndex(k) && KeptBefore(s, k, archive, show, exact) && KeepsKept(s, t, archive, show, exact)
    ensures KeptBefore(t, k, archive, show, exact)
  {
    hide MonthKept, MonthRows, Name, StrAtMost, MonthIndex;
  }

  lemma DoneTrans(s: Cold, t: Cold, u: Cold, k: int, archive: Table, show: real -> string, exact: bool)
    requires MonthDone(s, t, k, archive, show, exact) && MonthDone(t, u, k, archive, show, exact)
    ensures MonthDone(s, u, k, archive, show, exact)
  {
    hide NoGaps, ManifestBacked, KeepsKept, MonthIndex, Name;
    KeepsKeptTrans(s, t, u, archive, show, exact);
  }

  lemma NothingDone(s: Cold, k: int, archive: Table, show: real -> string, exact: bool)
    requires NoGaps(s, archive, show, exact) && ManifestBacked(s)
    ensures MonthDone(s, s, k, archive, show, exact)
  {
    hide NoGaps, ManifestBacked, MonthKept, Name, MonthIndex;
  }

  /** The states after the first, second and third write of month `k`. */
  lemma EachWrite(s: Cold, k: int, archive: Table, nowMs: int, show: real -> string, exact: bool, s1: Cold, s2: Cold, s3: Cold)
    requires MonthIndex(k) && NoGaps(s, archive, show, exact) && ManifestBacked(s)
    requires KeptBefore(s, k, archive, show, exact)
    requires s1 == Apply(s, FileWrite(Name(k), ColdText(MonthRows(archive, k), show)))
    requires s2 == Apply(s1, ManifestWrite(Name(k), ManifestRow(nowMs, |MonthRows(archive, k)|)))
    requires s3 == Apply(s2, MarkWrite(Name(k)))
    ensures MonthDone(s, s1, k, archive, show, exact)
    ensures MonthDone(s, s2, k, archive, show, exact)
    ensures MonthDone(s, s3, k, archive, show, exact) && MonthKept(s3, archive, show, exact, k)
  {
    hide Name, ColdText, MonthRows, MonthIndex, MonthKept, NoGaps, ManifestBacked, KeptBefore, KeepsKept;
    FirstWrite(s, k, archive, show, exact);
    SecondWrite(s1, k, archive, nowMs, show, exact);
    DoneTrans(s, s1, s2, k, archive, show, exact);
    KeptBeforeStays(s, s2, k, archive, show, exact);
    ThirdWrite(s2, k, archive, show, exact);
    DoneTrans(s, s2, s3, k, archive, show, exact);
  }

  /** One month, cut after `n` of its writes. */
  lemma MonthKeeps(s: Cold, k: int, archive: Table, nowMs: int, show: real -> string, exact: bool, n: nat)
    requires MonthIndex(k) && MonthIndex(k + 1) && NoGaps(s, archive, show, exact) && ManifestBacked(s)
    requires KeptBefore(s, k, archive, show, exact)
    requires n <= |MonthWrites(Name(k), archive, nowMs, show)|
    ensures var t := ApplyAll(s, MonthWrites(Name(k), archive, nowMs, show)[..n]);
            MonthDone(s, t, k, archive, show, exact)
            && (n == |MonthWrites(Name(k), archive, nowMs, show)| && MonthRows(archive, k) != []
                ==> MonthKept(t, archive, show, exact, k))
  {
    NamedWrites(k, archive, nowMs, show);
    var writes := MonthWrites(Name(k), archive, nowMs, show);
    if n == 0 {
      assert writes[..n] == [];
      NothingDone(s, k, archive, show, exact);
    } else {
      hide MonthWrites, Name, ColdText, MonthRows, MonthIndex, MonthKept, NoGaps, ManifestBacked, KeptBefore, MonthDone, Apply;
      ThreeWrites(s, writes, n);
      var s1 := Apply(s, writes[0]);
      var s2 := Apply(s1, writes[1]);
      EachWrite(s, k, archive, nowMs, show, exact, s1, s2, Apply(s2, writes[2]));
    }
  }

  lemma KeptIgnoresMark(s: Cold, k: int, archive: Table, show: real -> string, exact: bool)
    requires MonthIndex(k)
    ensures var t := Apply(s, MarkWrite(Name(k)));
            KeepsKept(s, t, archive, show, exact) && (ManifestBacked(t) <==> ManifestBacked(s))
  {
    hide Name, ColdText, MonthRows, MonthIndex;
  }

  lemma ThreeWrites(s: Cold, writes: seq<Write>, n: nat)
    requires |writes| == 3 && n <= 3
    ensures ApplyAll(s, writes[..n])
         == if n == 0 then s
            else if n == 1 then Apply(s, writes[0])
            else if n == 2 then Apply(Apply(s, writes[0]), writes[1])
            else Apply(Apply(Apply(s, writes[0]), writes[1]), writes[2])
  {
    hide ApplyAll, Apply;
    assert writes[..1] == [writes[0]] + [] && writes[..2] == [writes[0]] + [writes[1]];
    assert writes[..3] == [writes[0]] + ([writes[1]] + [writes[2]]);
    if n > 0 {
      ApplyCons(s, writes[0], writes[1..n]);
      assert writes[..n] == [writes[0]] + writes[1..n];
    }
    if n > 1 {
      ApplyCons(Apply(s, writes[0]), writes[1], writes[2..n]);
      assert writes[1..n] == [writes[1]] + writes[2..n];
    }
    if n > 2 {
      ApplyCons(Apply(Apply(s, writes[0]), writes[1]), writes[2], []);
      assert writes[2..n] == [writes[2]] + [];
    }
    ApplyNone(s, writes[n..n]);
    ApplyNone(Apply(s, writes[0]), writes[n..n]);
    ApplyNone(Apply(Apply(s, writes[0]), writes[1]), writes[n..n]);
    ApplyNone(Apply(Apply(Apply(s, writes[0]), writes[1]), writes[2]), []);
  }

  lemma ApplyNone(s: Cold, writes: seq<Write>)
    requires writes == []
    ensures ApplyAll(s, writes) == s
  {
  }

  lemma ApplyCons(s: Cold, w: Write, rest: seq<Write>)
    ensures ApplyAll(s, [w] + rest) == ApplyAll(Apply(s, w), rest)
  {
    assert ([w] + rest)[1..] == rest;
  }

  lemma {:induction false} ApplySplit(s: Cold, a: seq<Write>, b: seq<Write>)
    ensures ApplyAll(s, a + b) == ApplyAll(ApplyAll(s, a), b)
    decreases |a|
  {
    if a == [] {
      assert a + b == b;
    } else {
      assert (a + b)[1..] == a[1..] + b;
      ApplySplit(Apply(s, a[0]), a[1..], b);
    }
  }

  /** What a pass over `months` leaves. */
  ghost predicate PassDone(s: Cold, t: Cold, archive: Table, show: real -> string, exact: bool) {
    NoGaps(t, archive, show, exact) && ManifestBacked(t) && MarkAtMost(s.exportedUntil, t.exportedUntil)
  }

  lemma QueueTail(months: seq<string>, was: Option<string>, mark: Option<string>)
    requires months != [] && Queue(months, was) && (mark == was || mark == Some(months[0]))
    ensures Queue(months[1..], mark)
  {
    hide StrLess, IsName;
    var rest := months[1..];
    assert forall i :: 0 <= i < |rest| ==> rest[i] == months[i + 1];
    assert forall m :: m in rest ==> m in months;
  }

  /** After the head of the queue is done, the rest still reaches down to what is kept. */
  lemma ReachesTail(s: Cold, t: Cold, months: seq<string>, archive: Table, show: real -> string, exact: bool, k: int)
    requires months != [] && MonthIndex(k) && months[0] == Name(k)
    requires Reaches(s, months, archive, show, exact) && KeepsKept(s, t, archive, show, exact)
    requires MonthRows(archive, k) != [] ==> MonthKept(t, archive, show, exact, k)
    ensures Reaches(t, months[1..], archive, show, exact)
  {
    NamesDiffer(k);
    var rest := months[1..];
    hide MonthKept, MonthRows, Name, StrAtMost, MonthIndex;
    forall i, j | 0 <= i < |rest| && MonthIndex(j) && MonthRows(archive, j) != [] && StrAtMost(Name(j), rest[i])
      ensures MonthKept(t, archive, show, exact, j) || Name(j) in rest[..i + 1]
    {
      assert rest[i] == months[i + 1];
      assert MonthKept(s, archive, show, exact, j) || Name(j) in months[..i + 2];
      if Name(j) in months[..i + 2] && Name(j) != Name(k) {
        LaterIn(months, i + 2, Name(j));
      }
    }
  }

  lemma LaterIn(months: seq<string>, n: nat, m: string)
    requires 1 <= n <= |months| && m in months[..n] && m != months[0]
    ensures m in months[1..][..n - 1]
  {
    var p :| 0 <= p < n && months[p] == m;
    assert months[1..][..n - 1][p - 1] == m;
  }

  lemma HeadReach(s: Cold, months: seq<string>, archive: Table, show: real -> string, exact: bool, k: int)
    requires months != [] && MonthIndex(k) && months[0] == Name(k) && Reaches(s, months, archive, show, exact)
    ensures KeptBefore(s, k, archive, show, exact)
  {
    NamesDiffer(k);
    assert months[..1] == [Name(k)];
    hide MonthKept, MonthRows, Name, StrAtMost, MonthIndex;
  }

  lemma MarkStepUp(s: Cold, t: Cold, u: Cold, months: seq<string>)
    requires months != [] && Queue(months, s.exportedUntil)
    requires t.exportedUntil == s.exportedUntil || t.exportedUntil == Some(months[0])
    requires MarkAtMost(t.exportedUntil, u.exportedUntil)
    ensures MarkAtMost(s.exportedUntil, u.exportedUntil)
  {
    hide StrAtMost, StrLess, IsName;
    if s.exportedUntil.Some? && t.exportedUntil == Some(months[0]) {
      assert StrAtMost(s.exportedUntil.value, months[0]) by {
        assert months[0] in months;
        LessIsAtMost(s.exportedUntil.value, months[0]);
      }
      AtMostTrans(s.exportedUntil.value, months[0], u.exportedUntil.value);
    }
  }

  lemma LessIsAtMost(a: string, b: string)
    requires StrLess(a, b)
    ensures StrAtMost(a, b)
  {
  }

  /** What a pass needs of the months still before it. */
  ghost predicate PassReady(s: Cold, months: seq<string>, archive: Table, show: real -> string, exact: bool) {
    && Queue(months, s.exportedUntil) && Reaches(s, months, archive, show, exact)
    && NoGaps(s, archive, show, exact) && ManifestBacked(s)
  }

  lemma HeadKeeps(s: Cold, months: seq<string>, archive: Table, nowMs: int, show: real -> string, exact: bool, n: nat)
    requires months != [] && PassReady(s, months, archive, show, exact)
    requires n <= |MonthWrites(months[0], archive, nowMs, show)|
    ensures var t := ApplyAll(s, MonthWrites(months[0], archive, nowMs, show)[..n]);
            && NoGaps(t, archive, show, exact) && ManifestBacked(t)
            && (t.exportedUntil == s.exportedUntil || t.exportedUntil == Some(months[0]))
            && (n == |MonthWrites(months[0], archive, nowMs, show)| ==> PassReady(t, months[1..], archive, show, exact))
  {
    assert months[0] in months && IsName(months[0]);
    var k := IndexOf(months[0]);
    hide MonthWrites, Name, IsName, IndexOf, MonthIndex, MonthRows, MonthKept, NoGaps, ManifestBacked, KeepsKept, Reaches,
         KeptBefore, Queue, ApplyAll;
    HeadReach(s, months, archive, show, exact, k);
    MonthKeeps(s, k, archive, nowMs, show, exact, n);
    var t := ApplyAll(s, MonthWrites(months[0], archive, nowMs, show)[..n]);
    if n == |MonthWrites(months[0], archive, nowMs, show)| {
      QueueTail(months, s.exportedUntil, t.exportedUntil);
      ReachesTail(s, t, months, archive, show, exact, k);
    }
  }

  lemma CutOf(head: seq<Write>, tail: seq<Write>, n: nat)
    requires n <= |head| + |tail|
    ensures (head + tail)[..n] == if n <= |head| then head[..n] else head + tail[..n - |head|]
  {
  }

  /** A pass that stops within the head of the queue. */
  lemma StopsInHead(s: Cold, months: seq<string>, archive: Table, nowMs: int, show: real -> string, exact: bool, n: nat)
    requires months != [] && PassReady(s, months, archive, show, exact)
    requires n <= |MonthWrites(months[0], archive, nowMs, show)|
    ensures PassDone(s, ApplyAll(s, MonthWrites(months[0], archive, nowMs, show)[..n]), archive, show, exact)
  {
    HeadKeeps(s, months, archive, nowMs, show, exact, n);
    var t := ApplyAll(s, MonthWrites(months[0], archive, nowMs, show)[..n]);
    SameMark(t);
    hide MonthWrites, NoGaps, ManifestBacked, Reaches, Queue, MarkAtMost, ApplyAll;
    MarkStepUp(s, t, t, months);
  }

  /** A pass that gets past the head of the queue. */
  lemma PassesHead(s: Cold, months: seq<string>, archive: Table, nowMs: int, show: real -> string, exact: bool, t: Cold, u: Cold)
    requires months != [] && PassReady(s, months, archive, show, exact)
    requires t == ApplyAll(s, MonthWrites(months[0], archive, nowMs, show))
    ensures PassReady(t, months[1..], archive, show, exact)
    ensures PassDone(t, u, archive, show, exact) ==> PassDone(s, u, archive, show, exact)
  {
    var head := MonthWrites(months[0], archive, nowMs, show);
    assert head[..|head|] == head;
    HeadKeeps(s, months, archive, nowMs, show, exact, |head|);
    hide MonthWrites, NoGaps, ManifestBacked, Reaches, Queue, MarkAtMost, ApplyAll;
    if PassDone(t, u, archive, show, exact) {
      MarkStepUp(s, t, u, months);
    }
  }

  /** Whatever the step a pass stops after, there is no gap and the watermark has not gone back. */
  lemma {:induction false} QueueKeeps(s: Cold, months: seq<string>, archive: Table, nowMs: int, show: real -> string,
                                      exact: bool, n: nat)
    requires PassReady(s, months, archive, show, exact)
    requires n <= |PassWrites(months, archive, nowMs, show)|
    ensures PassDone(s, ApplyAll(s, PassWrites(months, archive, nowMs, show)[..n]), archive, show, exact)
    decreases |months|
  {
    hide *;
    if months == [] {
      NothingToWrite(months, archive, nowMs, show, s, n);
      PassOfNothing(s, months, archive, show, exact);
    } else {
      var head := MonthWrites(months[0], archive, nowMs, show);
      var tail := PassWrites(months[1..], archive, nowMs, show);
      WritesOfHead(months, archive, nowMs, show);
      CutOf(head, tail, n);
      if n <= |head| {
        StopsInHead(s, months, archive, nowMs, show, exact, n);
      } else {
        var t := ApplyAll(s, head);
        var rest := tail[..n - |head|];
        ApplySplit(s, head, rest);
        PassesHead(s, months, archive, nowMs, show, exact, t, ApplyAll(t, rest));
        QueueKeeps(t, months[1..], archive, nowMs, show, exact, n - |head|);
      }
    }
  }

  lemma NothingToWrite(months: seq<string>, archive: Table, nowMs: int, show: real -> string, s: Cold, n: nat)
    requires months == [] && n <= |PassWrites(months, archive, nowMs, show)|
    ensures ApplyAll(s, PassWrites(months, archive, nowMs, show)[..n]) == s
  {
  }

  lemma PassOfNothing(s: Cold, months: seq<string>, archive: Table, show: real -> string, exact: bool)
    requires PassReady(s, months, archive, show, exact)
    ensures PassDone(s, s, archive, show, exact)
  {
    hide NoGaps, ManifestBacked, Queue, Reaches;
    SameMark(s);
  }

  lemma WritesOfHead(months: seq<string>, archive: Table, nowMs: int, show: real -> string)
    requires months != []
    ensures PassWrites(months, archive, nowMs, show)
         == MonthWrites(months[0], archive, nowMs, show) + PassWrites(months[1..], archive, nowMs, show)
  {
  }

  lemma SameMark(s: Cold)
    ensures MarkAtMost(s.exportedUntil, s.exportedUntil)
  {
  }
}

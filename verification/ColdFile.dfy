/** What a cold export writes for a month and how it checks the file before trusting it (`archive.rs`). */
module ColdFile {
  import opened Prelude
  import opened TierFold
  import opened Csv
  import Decimal

  /** The columns of the hourly table, in order. */
  function Columns(): seq<string> {
    ["bucket_start_ms", "first_captured_at_ms", "newest_captured_at_ms", "sample_count",
    "avg_cpu_usage_percent", "min_cpu_usage_percent", "max_cpu_usage_percent",
    "avg_memory_used_percent", "min_memory_used_percent", "max_memory_used_percent",
    "avg_swap_used_percent", "min_swap_used_percent", "max_swap_used_percent",
    "avg_load_percent", "min_load_percent", "max_load_percent",
    "avg_root_used_percent", "min_root_used_percent", "max_root_used_percent"]
  }

  /** The fields of one row; `show` prints a float. */
  function CsvFields(b: TierBucket, show: real -> string): (r: Record)
    ensures |r| == |Columns()|
  {
    var root := (get: Stat -> real) => if b.rootUsed.Some? then show(get(b.rootUsed.value)) else "";
    [Decimal.PrintInt(b.bucketStartMs), Decimal.PrintInt(b.firstCapturedAtMs),
     Decimal.PrintInt(b.newestCapturedAtMs), Decimal.PrintInt(b.sampleCount),
     show(b.cpu.avg), show(b.cpu.min), show(b.cpu.max),
     show(b.memory.avg), show(b.memory.min), show(b.memory.max),
     show(b.swap.avg), show(b.swap.min), show(b.swap.max),
     show(b.load.avg), show(b.load.min), show(b.load.max),
     root((s: Stat) => s.avg), root((s: Stat) => s.min), root((s: Stat) => s.max)]
  }

  /** What a column holds: a field of the row, or one statistic of one figure. */
  datatype Column = StartColumn | FirstColumn | NewestColumn | CountColumn | StatColumn(kind: StatKind, figure: Figure)

  datatype StatKind = AvgOf | MinOf | MaxOf

  datatype Figure = CpuFigure | MemoryFigure | SwapFigure | LoadFigure | RootFigure

  function NameOfKind(kind: StatKind, avg: string, min: string, max: string): string {
    match kind
    case AvgOf => avg
    case MinOf => min
    case MaxOf => max
  }

  function ColumnName(column: Column): string {
    match column
    case StartColumn => "bucket_start_ms"
    case FirstColumn => "first_captured_at_ms"
    case NewestColumn => "newest_captured_at_ms"
    case CountColumn => "sample_count"
    case StatColumn(kind, figure) =>
      match figure
      case CpuFigure => NameOfKind(kind, "avg_cpu_usage_percent", "min_cpu_usage_percent", "max_cpu_usage_percent")
      case MemoryFigure => NameOfKind(kind, "avg_memory_used_percent", "min_memory_used_percent", "max_memory_used_percent")
      case SwapFigure => NameOfKind(kind, "avg_swap_used_percent", "min_swap_used_percent", "max_swap_used_percent")
      case LoadFigure => NameOfKind(kind, "avg_load_percent", "min_load_percent", "max_load_percent")
      case RootFigure => NameOfKind(kind, "avg_root_used_percent", "min_root_used_percent", "max_root_used_percent")
  }

  function FigureOf(b: TierBucket, figure: Figure): Option<Stat> {
    match figure
    case CpuFigure => Some(b.cpu)
    case MemoryFigure => Some(b.memory)
    case SwapFigure => Some(b.swap)
    case LoadFigure => Some(b.load)
    case RootFigure => b.rootUsed
  }

  /** The text of a column; the root figures are blank where there are none. */
  function ColumnText(b: TierBucket, column: Column, show: real -> string): string {
    match column
    case StartColumn => Decimal.PrintInt(b.bucketStartMs)
    case FirstColumn => Decimal.PrintInt(b.firstCapturedAtMs)
    case NewestColumn => Decimal.PrintInt(b.newestCapturedAtMs)
    case CountColumn => Decimal.PrintInt(b.sampleCount)
    case StatColumn(kind, figure) =>
      var stat := FigureOf(b, figure);
      if stat.None? then ""
      else
        match kind
        case AvgOf => show(stat.value.avg)
        case MinOf => show(stat.value.min)
        case MaxOf => show(stat.value.max)
  }

  /** The column at a place of the header. */
  function ColumnAt(i: nat): Column {
    if i == 0 then StartColumn else if i == 1 then FirstColumn else if i == 2 then NewestColumn
    else if i == 3 then CountColumn
    else
      var kind := if i % 3 == 1 then AvgOf else if i % 3 == 2 then MinOf else MaxOf;
      var figure := if i < 7 then CpuFigure else if i < 10 then MemoryFigure else if i < 13 then SwapFigure
                    else if i < 16 then LoadFigure else RootFigure;
      StatColumn(kind, figure)
  }

  lemma ColumnCount()
    ensures |Columns()| == 19
  {
  }

  lemma FieldIs(b: TierBucket, show: real -> string, i: nat)
    requires i < |Columns()|
    ensures CsvFields(b, show)[i] == ColumnText(b, ColumnAt(i), show)
  {
    hide Decimal.PrintInt;
  }

  lemma FirstNames(i: nat)
    requires i < 7
    ensures i < |Columns()| && Columns()[i] == ColumnName(ColumnAt(i))
  {
  }

  lemma MiddleNames(i: nat)
    requires 7 <= i < 13
    ensures i < |Columns()| && Columns()[i] == ColumnName(ColumnAt(i))
  {
  }

  lemma LastNames(i: nat)
    requires 13 <= i < |Columns()|
    ensures Columns()[i] == ColumnName(ColumnAt(i))
  {
  }

  /** Each figure of a row stands under its own name. */
  lemma FieldsMatchColumns(b: TierBucket, show: real -> string, i: nat)
    requires i < |Columns()|
    ensures Columns()[i] == ColumnName(ColumnAt(i))
    ensures CsvFields(b, show)[i] == ColumnText(b, ColumnAt(i), show)
  {
    hide *;
    FieldIs(b, show, i);
    if i < 7 {
      FirstNames(i);
    } else if i < 13 {
      MiddleNames(i);
    } else {
      LastNames(i);
    }
  }

  function Lines(rows: seq<TierBucket>, show: real -> string): (r: seq<Record>)
    ensures |r| == |rows|
    ensures forall i :: 0 <= i < |rows| ==> r[i] == CsvFields(rows[i], show)
  {
    if rows == [] then [] else [CsvFields(rows[0], show)] + Lines(rows[1..], show)
  }

  /** The text of a month's file. */
  function ColdText(rows: seq<TierBucket>, show: real -> string): string {
    FileText([Columns()] + Lines(rows, show))
  }

  datatype VerifyError =
    | Unparsable(error: CsvError)
    | NoHeader
    | WrongHeader
    | WrongWidth(record: nat)
    | WrongRowCount(observed: nat)
    | NoData
    | BadBucket
    | WrongEnds(first: int, last: int)

  function CommaJoin(fields: Record): string {
    if fields == [] then [] else if |fields| == 1 then fields[0] else fields[0] + "," + CommaJoin(fields[1..])
  }

  function FirstBadWidth(data: seq<Record>, width: nat, index: nat): Option<nat>
    decreases |data|
  {
    if data == [] then None
    else if |data[0]| != width then Some(index + 1)
    else FirstBadWidth(data[1..], width, index + 1)
  }

  function FirstField(record: Record): Option<int> {
    if record == [] then None else Decimal.ParseI64(record[0])
  }

  /** Widths, row count, and the first and last bucket of the data records. */
  function VerifyData(data: seq<Record>, width: nat, expectedRows: int, expectedFirst: int, expectedLast: int)
    : Result<(), VerifyError>
  {
    var bad := FirstBadWidth(data, width, 0);
    if bad.Some? then Err(WrongWidth(bad.value))
    else if |data| != expectedRows then Err(WrongRowCount(|data|))
    else if data == [] then Err(NoData)
    else
      var first, last := FirstField(data[0]), FirstField(data[|data| - 1]);
      if first.None? || last.None? then Err(BadBucket)
      else if first.value != expectedFirst || last.value != expectedLast then Err(WrongEnds(first.value, last.value))
      else Ok(())
  }

  /** The whole check of a file: it parses, its header is the column list, and its data fits. */
  function VerifyColdFile(csv: string, expectedRows: int, expectedFirst: int, expectedLast: int): Result<(), VerifyError> {
    match Parse(csv, START)
    case Err(error) => Err(Unparsable(error))
    case Ok(records) =>
      if records == [] then Err(NoHeader)
      else if CommaJoin(records[0]) != CommaJoin(Columns()) then Err(WrongHeader)
      else VerifyData(records[1..], |records[0]|, expectedRows, expectedFirst, expectedLast)
  }

  lemma {:induction false} WidthsFit(data: seq<Record>, width: nat, index: nat)
    requires forall r :: r in data ==> |r| == width
    ensures FirstBadWidth(data, width, index) == None
    decreases |data|
  {
    if data != [] {
      WidthsFit(data[1..], width, index + 1);
    }
  }

  lemma PrintedStart(b: TierBucket, show: real -> string)
    requires I64_MIN <= b.bucketStartMs <= I64_MAX
    ensures FirstField(CsvFields(b, show)) == Some(b.bucketStartMs)
  {
    Decimal.ParseOfPrint(b.bucketStartMs, I64_MIN, I64_MAX);
  }

  /** What parsing a month's file gives back. */
  lemma ColdTextParses(rows: seq<TierBucket>, show: real -> string)
    ensures Parse(ColdText(rows, show), START) == Ok([Columns()] + Lines(rows, show))
  {
    ParseOfPrint([Columns()] + Lines(rows, show));
  }

  /** Printing tells numbers apart, and never gives nothing. */
  ghost predicate Faithful(show: real -> string) {
    (forall x, y :: show(x) == show(y) ==> x == y) && forall x :: show(x) != ""
  }

  /** The fields of a row determine it. */
  lemma FieldsDetermine(a: TierBucket, b: TierBucket, show: real -> string)
    requires Faithful(show) && CsvFields(a, show) == CsvFields(b, show)
    ensures a == b
  {
    hide CsvFields, Columns, Faithful;
    ColumnCount();
    SameNumbers(a, b, show);
    SameFigure(a, b, show, CpuFigure, 4);
    SameFigure(a, b, show, MemoryFigure, 7);
    SameFigure(a, b, show, SwapFigure, 10);
    SameFigure(a, b, show, LoadFigure, 13);
    SameFigure(a, b, show, RootFigure, 16);
  }

  lemma SameFigure(a: TierBucket, b: TierBucket, show: real -> string, figure: Figure, i: nat)
    requires Faithful(show) && CsvFields(a, show) == CsvFields(b, show) && i + 2 < |Columns()|
    requires ColumnAt(i) == StatColumn(AvgOf, figure)
    requires ColumnAt(i + 1) == StatColumn(MinOf, figure) && ColumnAt(i + 2) == StatColumn(MaxOf, figure)
    ensures FigureOf(a, figure) == FigureOf(b, figure)
  {
    hide CsvFields, Columns, ColumnAt, FigureOf, ColumnName;
    FieldsMatchColumns(a, show, i);
    FieldsMatchColumns(a, show, i + 1);
    FieldsMatchColumns(a, show, i + 2);
    FieldsMatchColumns(b, show, i);
    FieldsMatchColumns(b, show, i + 1);
    FieldsMatchColumns(b, show, i + 2);
  }

  lemma SameNumbers(a: TierBucket, b: TierBucket, show: real -> string)
    requires CsvFields(a, show) == CsvFields(b, show)
    ensures a.bucketStartMs == b.bucketStartMs && a.firstCapturedAtMs == b.firstCapturedAtMs
    ensures a.newestCapturedAtMs == b.newestCapturedAtMs && a.sampleCount == b.sampleCount
  {
    var f, g := CsvFields(a, show), CsvFields(b, show);
    hide Decimal.PrintInt;
    assert f[0] == g[0] && f[1] == g[1] && f[2] == g[2] && f[3] == g[3];
    Decimal.PrintInjective(a.bucketStartMs, b.bucketStartMs);
    Decimal.PrintInjective(a.firstCapturedAtMs, b.firstCapturedAtMs);
    Decimal.PrintInjective(a.newestCapturedAtMs, b.newestCapturedAtMs);
    Decimal.PrintInjective(a.sampleCount, b.sampleCount);
  }

  /** The export loses nothing: two months with the same file text have the same rows. */
  lemma ColdTextIsLossless(a: seq<TierBucket>, b: seq<TierBucket>, show: real -> string)
    requires Faithful(show) && ColdText(a, show) == ColdText(b, show)
    ensures a == b
  {
    hide Parse, ColdText, CsvFields, Columns, Faithful;
    ColdTextParses(a, show);
    ColdTextParses(b, show);
    SameLines(a, b, show);
    forall i | 0 <= i < |a|
      ensures a[i] == b[i]
    {
      assert Lines(a, show)[i] == CsvFields(a[i], show) && Lines(b, show)[i] == CsvFields(b[i], show);
      FieldsDetermine(a[i], b[i], show);
    }
  }

  lemma SameLines(a: seq<TierBucket>, b: seq<TierBucket>, show: real -> string)
    requires [Columns()] + Lines(a, show) == [Columns()] + Lines(b, show)
    ensures Lines(a, show) == Lines(b, show) && |a| == |b|
  {
    hide Lines, CsvFields, Columns;
    assert ([Columns()] + Lines(a, show))[1..] == Lines(a, show);
    assert ([Columns()] + Lines(b, show))[1..] == Lines(b, show);
  }

  lemma DataVerdict(data: seq<Record>, width: nat, expectedRows: int, expectedFirst: int, expectedLast: int, first: int,
                    last: int)
    requires FirstBadWidth(data, width, 0) == None
    requires data != [] ==> FirstField(data[0]) == Some(first) && FirstField(data[|data| - 1]) == Some(last)
    ensures VerifyData(data, width, expectedRows, expectedFirst, expectedLast) == Ok(())
       <==> data != [] && expectedRows == |data| && expectedFirst == first && expectedLast == last
  {
    hide FirstBadWidth, FirstField;
  }

  lemma DataAcceptedExactly(rows: seq<TierBucket>, show: real -> string, expectedRows: int, expectedFirst: int,
                            expectedLast: int)
    requires forall b :: b in rows ==> I64_MIN <= b.bucketStartMs <= I64_MAX
    ensures VerifyData(Lines(rows, show), |Columns()|, expectedRows, expectedFirst, expectedLast) == Ok(())
       <==> rows != [] && expectedRows == |rows|
            && expectedFirst == rows[0].bucketStartMs && expectedLast == rows[|rows| - 1].bucketStartMs
  {
    hide *;
    var lines := Lines(rows, show);
    WidthsFit(lines, |Columns()|, 0);
    if rows == [] {
      DataVerdict(lines, |Columns()|, expectedRows, expectedFirst, expectedLast, 0, 0);
    } else {
      PrintedStart(rows[0], show);
      PrintedStart(rows[|rows| - 1], show);
      DataVerdict(lines, |Columns()|, expectedRows, expectedFirst, expectedLast,
                  rows[0].bucketStartMs, rows[|rows| - 1].bucketStartMs);
    }
  }

  /** The check accepts the file of `rows` exactly for the count and the ends of a nonempty `rows`: every correctly
    * written nonempty month passes, and the file of any other row count or other ends does not. */
  lemma VerifyAcceptsExactly(rows: seq<TierBucket>, show: real -> string, expectedRows: int, expectedFirst: int,
                             expectedLast: int)
    requires forall b :: b in rows ==> I64_MIN <= b.bucketStartMs <= I64_MAX
    ensures VerifyColdFile(ColdText(rows, show), expectedRows, expectedFirst, expectedLast) == Ok(())
       <==> rows != [] && expectedRows == |rows|
            && expectedFirst == rows[0].bucketStartMs && expectedLast == rows[|rows| - 1].bucketStartMs
  {
    ColdTextParses(rows, show);
    var lines := Lines(rows, show);
    DataAcceptedExactly(rows, show, expectedRows, expectedFirst, expectedLast);
    hide Parse, Lines, CsvFields, VerifyData, CommaJoin, ColdText, Columns;
    assert ([Columns()] + lines)[1..] == lines;
  }
}

/** The CSV printer and parser of the cold export (`archive.rs`; section 2 of RFC 4180). */
module Csv {
  import opened Prelude

  type Record = seq<string>

  // ---------- The printer ----------

  predicate Special(c: char) { c == ',' || c == '"' || c == '\r' || c == '\n' }

  predicate NeedsQuotes(raw: string) { exists c :: c in raw && Special(c) }

  /** Every quote doubled. */
  function Doubled(raw: string): string {
    if raw == [] then []
    else (if raw[0] == '"' then "\"\"" else [raw[0]]) + Doubled(raw[1..])
  }

  function CsvField(raw: string): string {
    if NeedsQuotes(raw) then "\"" + Doubled(raw) + "\"" else raw
  }

  /** The fields joined by commas, without the line end. */
  function Joined(fields: Record): string {
    if fields == [] then []
    else if |fields| == 1 then CsvField(fields[0])
    else CsvField(fields[0]) + "," + Joined(fields[1..])
  }

  function RecordText(fields: Record): string { Joined(fields) + "\r\n" }

  function FileText(records: seq<Record>): string {
    if records == [] then [] else RecordText(records[0]) + FileText(records[1..])
  }

  lemma {:induction false} JoinedSnoc(fields: Record, last: string)
    requires fields != []
    ensures Joined(fields + [last]) == Joined(fields) + "," + CsvField(last)
  {
    if |fields| == 1 {
      assert (fields + [last])[1..] == [last];
    } else {
      assert (fields + [last])[1..] == fields[1..] + [last];
      JoinedSnoc(fields[1..], last);
    }
  }

  /** The writer: a comma before every field but the first, then the line end. */
  method WriteCsvRecord(fields: Record) returns (text: string)
    ensures text == RecordText(fields)
  {
    text := [];
    var first := true;
    for i := 0 to |fields|
      invariant first <==> i == 0
      invariant text == Joined(fields[..i])
    {
      assert fields[..i + 1] == fields[..i] + [fields[i]];
      if i > 0 {
        JoinedSnoc(fields[..i], fields[i]);
      }
      if !first {
        text := text + ",";
      }
      first := false;
      text := text + CsvField(fields[i]);
    }
    assert fields[..|fields|] == fields;
    text := text + "\r\n";
  }

  // ---------- The parser ----------

  datatype CsvError =
    | AfterClosingQuote(record: nat, found: char)
    | QuoteInsideField(record: nat)
    | CrWithoutLf
    | BareLf
    | Incomplete

  /** What the parser has read so far. */
  datatype Reader = Reader(rows: seq<Record>, row: Record, field: string, quoted: bool, afterClosingQuote: bool)

  const START := Reader([], [], [], false, false)

  function EndField(s: Reader): Reader {
    s.(row := s.row + [s.field], field := [], afterClosingQuote := false)
  }

  function EndRecord(s: Reader): Reader {
    s.(rows := s.rows + [s.row + [s.field]], row := [], field := [], afterClosingQuote := false)
  }

  /** The parser on the text that is left. */
  function Parse(rest: string, s: Reader): Result<seq<Record>, CsvError>
    decreases |rest|
  {
    if rest == [] then
      if s.quoted || s.field != [] || s.row != [] then Err(Incomplete) else Ok(s.rows)
    else
      var ch, tail := rest[0], rest[1..];
      if s.quoted then
        if ch != '"' then Parse(tail, s.(field := s.field + [ch]))
        else if tail != [] && tail[0] == '"' then Parse(tail[1..], s.(field := s.field + ['"']))
        else Parse(tail, s.(quoted := false, afterClosingQuote := true))
      else if s.afterClosingQuote && ch != ',' && ch != '\r' then Err(AfterClosingQuote(|s.rows| + 1, ch))
      else if ch == '"' then
        if s.field == [] then Parse(tail, s.(quoted := true)) else Err(QuoteInsideField(|s.rows| + 1))
      else if ch == ',' then Parse(tail, EndField(s))
      else if ch == '\r' then
        if tail == [] || tail[0] != '\n' then Err(CrWithoutLf) else Parse(tail[1..], EndRecord(s))
      else if ch == '\n' then Err(BareLf)
      else Parse(tail, s.(field := s.field + [ch]))
  }

  /** The parser's loop over the characters, with one character of look-ahead. */
  method ParseRfc4180(csv: string) returns (result: Result<seq<Record>, CsvError>)
    ensures result == Parse(csv, START)
  {
    var rows: seq<Record> := [];
    var row: Record := [];
    var field: string := [];
    var quoted, afterClosingQuote := false, false;
    var i := 0;
    assert csv[0..] == csv;
    while i < |csv|
      invariant 0 <= i <= |csv|
      invariant Parse(csv[i..], Reader(rows, row, field, quoted, afterClosingQuote)) == Parse(csv, START)
      decreases |csv| - i
    {
      var ch := csv[i];
      assert csv[i..][1..] == csv[i + 1..];
      if i + 1 < |csv| {
        assert csv[i + 1..][1..] == csv[i + 2..];
      }
      i := i + 1;
      if quoted {
        if ch == '"' {
          if i < |csv| && csv[i] == '"' {
            i := i + 1;
            field := field + ['"'];
          } else {
            quoted := false;
            afterClosingQuote := true;
          }
        } else {
          field := field + [ch];
        }
        continue;
      }
      var recordNumber := |rows| + 1;
      if afterClosingQuote && ch != ',' && ch != '\r' {
        return Err(AfterClosingQuote(recordNumber, ch));
      }
      if ch == '"' && field == [] {
        quoted := true;
      } else if ch == '"' {
        return Err(QuoteInsideField(recordNumber));
      } else if ch == ',' {
        row := row + [field];
        field := [];
        afterClosingQuote := false;
      } else if ch == '\r' {
        if i == |csv| || csv[i] != '\n' {
          return Err(CrWithoutLf);
        }
        i := i + 1;
        row := row + [field];
        field := [];
        rows := rows + [row];
        row := [];
        afterClosingQuote := false;
      } else if ch == '\n' {
        return Err(BareLf);
      } else {
        field := field + [ch];
      }
    }
    if quoted || field != [] || row != [] {
      return Err(Incomplete);
    }
    return Ok(rows);
  }

  // ---------- Parsing what was printed ----------

  lemma {:induction false} ReadPlain(raw: string, rest: string, s: Reader)
    requires !NeedsQuotes(raw) && !s.quoted && !s.afterClosingQuote
    ensures Parse(raw + rest, s) == Parse(rest, s.(field := s.field + raw))
    decreases |raw|
  {
    if raw == [] {
      assert raw + rest == rest && s.field + raw == s.field;
    } else {
      assert raw[0] in raw && !Special(raw[0]);
      assert (raw + rest)[1..] == raw[1..] + rest;
      assert forall c :: c in raw[1..] ==> c in raw;
      var next := s.(field := s.field + [raw[0]]);
      ReadPlain(raw[1..], rest, next);
      assert next.field + raw[1..] == s.field + raw;
    }
  }

  /** One character inside quotes, as it is printed. */
  function Escaped(c: char): string { if c == '"' then "\"\"" else [c] }

  lemma DoubledStep(raw: string, rest: string)
    requires raw != []
    ensures Doubled(raw) + "\"" + rest == Escaped(raw[0]) + (Doubled(raw[1..]) + "\"" + rest)
  {
  }

  lemma DoubledNothing(rest: string)
    ensures Doubled([]) + "\"" + rest == "\"" + rest
  {
  }

  lemma FieldGrows(field: string, raw: string)
    requires raw != []
    ensures field + [raw[0]] + raw[1..] == field + raw
  {
  }

  lemma ReadEscaped(c: char, rest: string, s: Reader)
    requires s.quoted
    ensures Parse(Escaped(c) + rest, s) == Parse(rest, s.(field := s.field + [c]))
  {
    if c == '"' {
      assert ("\"\"" + rest)[1..] == "\"" + rest && ("\"" + rest)[1..] == rest;
    } else {
      assert ([c] + rest)[1..] == rest;
    }
  }

  lemma ReadClosing(rest: string, s: Reader)
    requires s.quoted && (rest == [] || rest[0] != '"')
    ensures Parse("\"" + rest, s) == Parse(rest, s.(quoted := false, afterClosingQuote := true))
  {
    assert ("\"" + rest)[1..] == rest;
  }

  lemma {:induction false} ReadQuoted(raw: string, rest: string, s: Reader)
    requires s.quoted && (rest == [] || rest[0] != '"')
    ensures Parse(Doubled(raw) + "\"" + rest, s)
         == Parse(rest, s.(field := s.field + raw, quoted := false, afterClosingQuote := true))
    decreases |raw|
  {
    hide Parse, Escaped, Doubled;
    if raw == [] {
      DoubledNothing(rest);
      ReadClosing(rest, s);
      assert s.field + raw == s.field;
    } else {
      var next := s.(field := s.field + [raw[0]]);
      DoubledStep(raw, rest);
      ReadEscaped(raw[0], Doubled(raw[1..]) + "\"" + rest, s);
      ReadQuoted(raw[1..], rest, next);
      FieldGrows(s.field, raw);
    }
  }

  lemma ReadOpening(body: string, s: Reader)
    requires !s.quoted && !s.afterClosingQuote && s.field == []
    ensures Parse("\"" + body, s) == Parse(body, s.(quoted := true))
  {
    assert ("\"" + body)[1..] == body;
  }

  /** A printed field, before a comma or a line end, is read back. */
  lemma ReadField(raw: string, rest: string, s: Reader)
    requires !s.quoted && !s.afterClosingQuote && s.field == []
    requires rest != [] && rest[0] != '"'
    ensures Parse(CsvField(raw) + rest, s) == Parse(rest, s.(field := raw, afterClosingQuote := NeedsQuotes(raw)))
  {
    hide Parse, Doubled;
    if NeedsQuotes(raw) {
      var body := Doubled(raw) + "\"" + rest;
      assert CsvField(raw) + rest == "\"" + body;
      ReadOpening(body, s);
      ReadQuoted(raw, rest, s.(quoted := true));
      assert [] + raw == raw;
    } else {
      ReadPlain(raw, rest, s);
      assert [] + raw == raw;
    }
  }

  /** Between two records or two fields of one. */
  predicate Ready(s: Reader) { !s.quoted && !s.afterClosingQuote && s.field == [] }

  lemma EndOfField(more: string, s: Reader)
    requires !s.quoted
    ensures Parse("," + more, s) == Parse(more, EndField(s))
  {
    assert ("," + more)[1..] == more;
  }

  lemma FieldThenComma(raw: string, more: string, s: Reader)
    requires Ready(s)
    ensures Parse(CsvField(raw) + ("," + more), s) == Parse(more, s.(row := s.row + [raw]))
  {
    hide CsvField, Parse, NeedsQuotes;
    ReadField(raw, "," + more, s);
    EndOfField(more, s.(field := raw, afterClosingQuote := NeedsQuotes(raw)));
  }

  lemma EndOfLine(rest: string, s: Reader)
    requires !s.quoted
    ensures Parse("\r\n" + rest, s) == Parse(rest, EndRecord(s))
  {
    assert ("\r\n" + rest)[1..] == "\n" + rest && ("\n" + rest)[1..] == rest;
  }

  lemma FieldThenEnd(raw: string, rest: string, s: Reader)
    requires Ready(s)
    ensures Parse(CsvField(raw) + ("\r\n" + rest), s) == Parse(rest, s.(rows := s.rows + [s.row + [raw]], row := []))
  {
    hide CsvField, Parse, NeedsQuotes;
    ReadField(raw, "\r\n" + rest, s);
    EndOfLine(rest, s.(field := raw, afterClosingQuote := NeedsQuotes(raw)));
  }

  /** The text of a record from its first field on. */
  lemma RecordTextStep(fields: Record, rest: string)
    requires fields != []
    ensures RecordText(fields) + rest ==
              if |fields| == 1 then CsvField(fields[0]) + ("\r\n" + rest)
              else CsvField(fields[0]) + ("," + (RecordText(fields[1..]) + rest))
  {
    hide CsvField;
  }

  lemma {:induction false} ReadRecord(fields: Record, rest: string, s: Reader)
    requires fields != [] && Ready(s)
    ensures Parse(RecordText(fields) + rest, s) == Parse(rest, s.(rows := s.rows + [s.row + fields], row := []))
    decreases |fields|
  {
    hide Parse, RecordText, CsvField;
    RecordTextStep(fields, rest);
    if |fields| == 1 {
      FieldThenEnd(fields[0], rest, s);
      assert fields == [fields[0]];
    } else {
      FieldThenComma(fields[0], RecordText(fields[1..]) + rest, s);
      var next := s.(row := s.row + [fields[0]]);
      ReadRecord(fields[1..], rest, next);
      assert next.row + fields[1..] == s.row + fields;
    }
  }

  /** What comes back: a record of no fields prints like one empty field. */
  function Shown(records: seq<Record>): seq<Record> {
    if records == [] then []
    else [ShownRecord(records[0])] + Shown(records[1..])
  }

  function ShownRecord(fields: Record): Record { if fields == [] then [""] else fields }

  lemma FileStep(records: seq<Record>)
    requires records != []
    ensures FileText(records) == RecordText(ShownRecord(records[0])) + FileText(records[1..])
    ensures Shown(records) == [ShownRecord(records[0])] + Shown(records[1..])
  {
    assert CsvField("") == "";
  }

  /** A record read right after another one. */
  lemma NextRecord(fields: Record, rest: string, s: Reader)
    requires fields != [] && Ready(s) && s.row == []
    ensures Parse(RecordText(fields) + rest, s) == Parse(rest, s.(rows := s.rows + [fields]))
  {
    hide *;
    ReadRecord(fields, rest, s);
    assert s.row + fields == fields;
    assert s.(rows := s.rows + [s.row + fields], row := []) == s.(rows := s.rows + [fields]);
  }

  lemma ShownNotEmpty(fields: Record)
    ensures ShownRecord(fields) != []
  {
  }

  lemma FirstRecord(records: seq<Record>, s: Reader)
    requires records != [] && Ready(s) && s.row == []
    ensures Parse(FileText(records), s) ==
            Parse(FileText(records[1..]), s.(rows := s.rows + [ShownRecord(records[0])]))
  {
    hide *;
    ShownNotEmpty(records[0]);
    FileStep(records);
    NextRecord(ShownRecord(records[0]), FileText(records[1..]), s);
  }

  lemma RowsRegroup(rows: seq<Record>, head: Record, tail: seq<Record>)
    ensures (rows + [head]) + tail == rows + ([head] + tail)
  {
  }

  lemma {:induction false} ReadFile(records: seq<Record>, s: Reader)
    requires Ready(s) && s.row == []
    ensures Parse(FileText(records), s) == Ok(s.rows + Shown(records))
    decreases |records|
  {
    if records == [] {
      assert s.rows + [] == s.rows;
    } else {
      hide Parse, FileText, ShownRecord;
      var head := ShownRecord(records[0]);
      FirstRecord(records, s);
      ReadFile(records[1..], s.(rows := s.rows + [head]));
      RowsRegroup(s.rows, head, Shown(records[1..]));
    }
  }

  ghost predicate NoneEmpty(records: seq<Record>) {
    forall i :: 0 <= i < |records| ==> records[i] != []
  }

  lemma {:induction false} ShownIsSame(records: seq<Record>)
    ensures |Shown(records)| == |records|
    ensures Shown(records) == records <==> NoneEmpty(records)
  {
    if records != [] {
      ShownIsSame(records[1..]);
      var head := ShownRecord(records[0]);
      assert Shown(records) == [head] + Shown(records[1..]);
      assert records == [records[0]] + records[1..];
      assert Shown(records) == records <==> head == records[0] && Shown(records[1..]) == records[1..] by {
        assert ([head] + Shown(records[1..]))[1..] == Shown(records[1..]);
      }
      assert NoneEmpty(records) <==> records[0] != [] && NoneEmpty(records[1..]) by {
        assert forall i :: 0 < i < |records| ==> records[i] == records[1..][i - 1];
      }
    }
  }

  /** Printer and parser undo each other: parsing a printed file gives back its records, whatever characters their
    * fields hold, exactly when no record is empty. */
  lemma ParseOfPrint(records: seq<Record>)
    ensures Parse(FileText(records), START) == Ok(records) <==> NoneEmpty(records)
  {
    ReadFile(records, START);
    assert [] + Shown(records) == Shown(records);
    ShownIsSame(records);
  }

  /** The converse does not hold: the parser accepts an unterminated empty quoted field that no printer writes. */
  lemma AcceptsDanglingQuotes()
    ensures Parse("\"\"", START) == Ok([])
    ensures forall records :: FileText(records) != "\"\""
  {
    assert "\"\""[1..] == "\"" && "\""[1..] == "";
    forall records: seq<Record>
      ensures FileText(records) != "\"\""
    {
      ReadFile(records, START);
      assert [] + Shown(records) == Shown(records);
    }
  }
}

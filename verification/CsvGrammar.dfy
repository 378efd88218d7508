/** Which texts the CSV parser accepts, and why it refuses the others: proofs about `Csv.Parse`. */
module CsvGrammar {
  import opened Prelude
  import opened Csv

  /** A field as it may be written: as it is, or between quotes with every quote doubled. */
  datatype Form = Plain(value: string) | Quoted(value: string)

  predicate WellFormed(form: Form) {
    form.Plain? ==> forall c :: c in form.value ==> c != ',' && c != '"' && c != '\r' && c != '\n'
  }

  function FormText(form: Form): string {
    match form
    case Plain(value) => value
    case Quoted(value) => "\"" + Doubled(value) + "\""
  }

  predicate AllWellFormed(forms: seq<Form>) { forall f :: f in forms ==> WellFormed(f) }

  function Values(forms: seq<Form>): Record {
    seq(|forms|, i requires 0 <= i < |forms| => forms[i].value)
  }

  /** Fields, each with its comma. */
  function FieldsText(forms: seq<Form>): string {
    if forms == [] then [] else FieldsText(forms[..|forms| - 1]) + (FormText(forms[|forms| - 1]) + ",")
  }

  /** A record: commas between its fields, and the line end after the last. */
  function LineText(line: seq<Form>): string
    requires line != []
  {
    FieldsText(line[..|line| - 1]) + (FormText(line[|line| - 1]) + "\r\n")
  }

  predicate GoodLines(lines: seq<seq<Form>>) {
    forall line :: line in lines ==> line != [] && AllWellFormed(line)
  }

  function LinesText(lines: seq<seq<Form>>): string
    requires GoodLines(lines)
  {
    if lines == [] then []
    else
      assert lines[|lines| - 1] in lines;
      LinesText(lines[..|lines| - 1]) + LineText(lines[|lines| - 1])
  }

  function Rows(lines: seq<seq<Form>>): seq<Record> {
    seq(|lines|, i requires 0 <= i < |lines| => Values(lines[i]))
  }

  lemma ValuesSnoc(forms: seq<Form>, last: Form)
    ensures Values(forms + [last]) == Values(forms) + [last.value]
    ensures FieldsText(forms + [last]) == FieldsText(forms) + (FormText(last) + ",")
  {
    assert (forms + [last])[..|forms|] == forms;
  }

  lemma LinesSnoc(lines: seq<seq<Form>>, line: seq<Form>)
    requires GoodLines(lines) && line != [] && AllWellFormed(line)
    ensures GoodLines(lines + [line])
    ensures Rows(lines + [line]) == Rows(lines) + [Values(line)]
    ensures LinesText(lines + [line]) == LinesText(lines) + LineText(line)
  {
    assert (lines + [line])[..|lines|] == lines;
  }

  // ---------- What is written so is accepted ----------

  /** A written field is read, whatever ends it. */
  lemma ReadForm(form: Form, rest: string, s: Reader)
    requires Ready(s) && WellFormed(form) && rest != [] && rest[0] != '"'
    ensures Parse(FormText(form) + rest, s) == Parse(rest, s.(field := form.value, afterClosingQuote := form.Quoted?))
  {
    hide Parse, Doubled;
    assert [] + form.value == form.value;
    match form
    case Plain(value) =>
      ReadPlain(value, rest, s);
    case Quoted(value) =>
      var body := Doubled(value) + "\"" + rest;
      assert FormText(form) + rest == "\"" + body;
      ReadOpening(body, s);
      ReadQuoted(value, rest, s.(quoted := true));
  }

  lemma FormThenComma(form: Form, rest: string, s: Reader)
    requires Ready(s) && WellFormed(form)
    ensures Parse((FormText(form) + ",") + rest, s) == Parse(rest, s.(row := s.row + [form.value]))
  {
    hide FormText, Parse, WellFormed;
    assert (FormText(form) + ",") + rest == FormText(form) + ("," + rest);
    ReadForm(form, "," + rest, s);
    EndOfField(rest, s.(field := form.value, afterClosingQuote := form.Quoted?));
  }

  lemma FormThenEnd(form: Form, rest: string, s: Reader)
    requires Ready(s) && WellFormed(form)
    ensures Parse((FormText(form) + "\r\n") + rest, s) == Parse(rest, s.(rows := s.rows + [s.row + [form.value]], row := []))
  {
    hide FormText, Parse, WellFormed;
    assert (FormText(form) + "\r\n") + rest == FormText(form) + ("\r\n" + rest);
    ReadForm(form, "\r\n" + rest, s);
    EndOfLine(rest, s.(field := form.value, afterClosingQuote := form.Quoted?));
  }

  lemma {:induction false} ReadFields(forms: seq<Form>, rest: string, s: Reader)
    requires Ready(s) && AllWellFormed(forms) && s.row == []
    ensures Parse(FieldsText(forms) + rest, s) == Parse(rest, s.(row := Values(forms)))
    decreases |forms|
  {
    hide Parse, FormText;
    if forms == [] {
      assert FieldsText(forms) + rest == rest;
      assert s.(row := Values(forms)) == s;
    } else {
      var init, last := forms[..|forms| - 1], forms[|forms| - 1];
      assert forms == init + [last];
      ValuesSnoc(init, last);
      assert FieldsText(forms) + rest == FieldsText(init) + ((FormText(last) + ",") + rest);
      ReadFields(init, (FormText(last) + ",") + rest, s);
      FormThenComma(last, rest, s.(row := Values(init)));
    }
  }

  lemma ReadLine(line: seq<Form>, rest: string, s: Reader)
    requires Ready(s) && line != [] && AllWellFormed(line) && s.row == []
    ensures Parse(LineText(line) + rest, s) == Parse(rest, s.(rows := s.rows + [Values(line)]))
  {
    hide Parse, FormText, FieldsText;
    var init, last := line[..|line| - 1], line[|line| - 1];
    assert line == init + [last];
    ValuesSnoc(init, last);
    assert LineText(line) + rest == FieldsText(init) + ((FormText(last) + "\r\n") + rest);
    ReadFields(init, (FormText(last) + "\r\n") + rest, s);
    FormThenEnd(last, rest, s.(row := Values(init)));
  }

  lemma {:induction false} ReadLines(lines: seq<seq<Form>>, rest: string)
    requires GoodLines(lines)
    ensures Parse(LinesText(lines) + rest, START) == Parse(rest, START.(rows := Rows(lines)))
    decreases |lines|
  {
    hide Parse, LineText, AllWellFormed;
    if lines == [] {
      assert LinesText(lines) + rest == rest;
      assert START.(rows := Rows(lines)) == START;
    } else {
      var init, last := lines[..|lines| - 1], lines[|lines| - 1];
      assert lines == init + [last] && last in lines;
      LinesSnoc(init, last);
      assert LinesText(lines) + rest == LinesText(init) + (LineText(last) + rest);
      ReadLines(init, LineText(last) + rest);
      ReadLine(last, rest, START.(rows := Rows(init)));
    }
  }

  lemma DanglingQuotes(s: Reader)
    requires Ready(s) && s.row == []
    ensures Parse("", s) == Ok(s.rows) && Parse("\"\"", s) == Ok(s.rows)
  {
    ReadOpening("\"", s);
    assert ("\"" + "\"") == "\"\"" && "\"" + "" == "\"";
    ReadClosing("", s.(quoted := true));
  }

  // ---------- What is accepted is written so ----------

  /** The field being read, as it stands in the text. */
  function OpenText(s: Reader): string {
    if s.quoted then "\"" + Doubled(s.field)
    else if s.afterClosingQuote then "\"" + Doubled(s.field) + "\""
    else s.field
  }

  /** The text behind the reader is `lines`, then the fields `row` of the next one, then the field being read. */
  ghost predicate Behind(prefix: string, s: Reader, lines: seq<seq<Form>>, row: seq<Form>) {
    && GoodLines(lines) && AllWellFormed(row)
    && prefix == LinesText(lines) + (FieldsText(row) + OpenText(s))
    && s.rows == Rows(lines) && s.row == Values(row)
    && (s.quoted ==> !s.afterClosingQuote)
    && (!s.quoted && !s.afterClosingQuote ==> WellFormed(Plain(s.field)))
  }

  /** The form of a field that has been read. */
  function FormOf(s: Reader): Form { if s.afterClosingQuote then Quoted(s.field) else Plain(s.field) }

  lemma {:induction false} DoubledSnoc(raw: string, c: char)
    ensures Doubled(raw + [c]) == Doubled(raw) + Escaped(c)
  {
    if raw != [] {
      assert (raw + [c])[1..] == raw[1..] + [c];
      DoubledSnoc(raw[1..], c);
    }
  }

  lemma BehindQuotedChar(prefix: string, s: Reader, lines: seq<seq<Form>>, row: seq<Form>, c: char)
    requires Behind(prefix, s, lines, row) && s.quoted
    ensures Behind(prefix + Escaped(c), s.(field := s.field + [c]), lines, row)
  {
    hide Doubled, FieldsText, LinesText, Rows, Values, GoodLines, AllWellFormed, Escaped, OpenText;
    DoubledSnoc(s.field, c);
    QuotedText(s, c);
    Regroup(LinesText(lines), FieldsText(row), OpenText(s), Escaped(c));
  }

  lemma QuotedText(s: Reader, c: char)
    requires s.quoted && Doubled(s.field + [c]) == Doubled(s.field) + Escaped(c)
    ensures OpenText(s.(field := s.field + [c])) == OpenText(s) + Escaped(c)
  {
    hide Doubled, Escaped;
  }

  lemma Regroup(a: string, b: string, c: string, d: string)
    ensures (a + (b + c)) + d == a + (b + (c + d))
  {
  }

  lemma BehindClosing(prefix: string, s: Reader, lines: seq<seq<Form>>, row: seq<Form>)
    requires Behind(prefix, s, lines, row) && s.quoted
    ensures Behind(prefix + "\"", s.(quoted := false, afterClosingQuote := true), lines, row)
  {
    hide Doubled, FieldsText, LinesText, Rows, Values, GoodLines, AllWellFormed;
  }

  lemma BehindOpening(prefix: string, s: Reader, lines: seq<seq<Form>>, row: seq<Form>)
    requires Behind(prefix, s, lines, row) && Ready(s)
    ensures Behind(prefix + "\"", s.(quoted := true), lines, row)
  {
    hide FieldsText, LinesText, Rows, Values, GoodLines, AllWellFormed;
  }

  lemma BehindPlainChar(prefix: string, s: Reader, lines: seq<seq<Form>>, row: seq<Form>, c: char)
    requires Behind(prefix, s, lines, row) && !s.quoted && !s.afterClosingQuote && !Special(c)
    ensures Behind(prefix + [c], s.(field := s.field + [c]), lines, row)
  {
    hide FieldsText, LinesText, Rows, Values, GoodLines, AllWellFormed;
  }

  lemma BehindForm(prefix: string, s: Reader, lines: seq<seq<Form>>, row: seq<Form>)
    requires Behind(prefix, s, lines, row) && !s.quoted
    ensures WellFormed(FormOf(s)) && FormOf(s).value == s.field && OpenText(s) == FormText(FormOf(s))
  {
    hide FieldsText, LinesText, Rows, Values, GoodLines, AllWellFormed, Doubled;
  }

  lemma BehindComma(prefix: string, s: Reader, lines: seq<seq<Form>>, row: seq<Form>)
    requires Behind(prefix, s, lines, row) && !s.quoted
    ensures Behind(prefix + ",", EndField(s), lines, row + [FormOf(s)])
  {
    hide LinesText, Rows, GoodLines, Doubled, FieldsText, OpenText, FormText, Values;
    BehindForm(prefix, s, lines, row);
    ValuesSnoc(row, FormOf(s));
    var z := EndField(s);
    NothingOpen(z);
    assert prefix + "," == LinesText(lines) + (FieldsText(row + [FormOf(s)]) + OpenText(z));
  }

  lemma NothingOpen(s: Reader)
    requires Ready(s)
    ensures OpenText(s) == ""
  {
  }

  lemma BehindLineEnd(prefix: string, s: Reader, lines: seq<seq<Form>>, row: seq<Form>)
    requires Behind(prefix, s, lines, row) && !s.quoted
    ensures Behind(prefix + "\r\n", EndRecord(s), lines + [row + [FormOf(s)]], [])
  {
    hide LinesText, Rows, GoodLines, Doubled, OpenText, FormText, FormOf, LineText, FieldsText, Values;
    var form := FormOf(s);
    var line := row + [form];
    BehindForm(prefix, s, lines, row);
    ValuesSnoc(row, form);
    LineSnoc(row, form);
    LinesSnoc(lines, line);
    var z := EndRecord(s);
    NothingOpen(z);
    NoFields();
    assert prefix + "\r\n" == LinesText(lines) + (FieldsText(row) + (FormText(form) + "\r\n"));
    assert prefix + "\r\n" == LinesText(lines + [line]) + (FieldsText([]) + OpenText(z));
  }

  lemma LineSnoc(row: seq<Form>, form: Form)
    ensures LineText(row + [form]) == FieldsText(row) + (FormText(form) + "\r\n")
  {
    hide FormText, FieldsText;
    assert (row + [form])[..|row|] == row;
  }

  lemma NoFields()
    ensures FieldsText([]) == "" && Values([]) == []
  {
  }

  /** `csv` is a writing of `records`; two quotes may dangle after the last line end. */
  ghost predicate Writing(csv: string, records: seq<Record>, lines: seq<seq<Form>>, dangling: bool) {
    && GoodLines(lines)
    && csv == LinesText(lines) + (if dangling then "\"\"" else "")
    && records == Rows(lines)
  }

  /** Why a text is refused: how far it could be read, and what stands there. */
  ghost predicate RefusedFor(csv: string, e: CsvError, prefix: string, s: Reader, lines: seq<seq<Form>>, row: seq<Form>) {
    && prefix <= csv && Behind(prefix, s, lines, row)
    && var rest := csv[|prefix|..];
    match e
    case AfterClosingQuote(record, found) =>
      s.afterClosingQuote && rest != [] && rest[0] == found && found != ',' && found != '\r' && record == |lines| + 1
    case QuoteInsideField(record) =>
      !s.quoted && !s.afterClosingQuote && s.field != [] && rest != [] && rest[0] == '"' && record == |lines| + 1
    case CrWithoutLf => !s.quoted && rest != [] && rest[0] == '\r' && (|rest| == 1 || rest[1] != '\n')
    case BareLf => !s.quoted && !s.afterClosingQuote && rest != [] && rest[0] == '\n'
    case Incomplete => rest == [] && (s.quoted || s.field != [] || row != [])
  }

  ghost predicate Outcome(csv: string, result: Result<seq<Record>, CsvError>) {
    match result
    case Ok(records) => exists lines, dangling :: Writing(csv, records, lines, dangling)
    case Err(e) => exists prefix, s, lines, row :: RefusedFor(csv, e, prefix, s, lines, row)
  }

  lemma AtEnd(csv: string, s: Reader, lines: seq<seq<Form>>, row: seq<Form>)
    requires Behind(csv, s, lines, row)
    ensures Outcome(csv, if s.quoted || s.field != [] || s.row != [] then Err(Incomplete) else Ok(s.rows))
  {
    hide LinesText, FieldsText, GoodLines, AllWellFormed;
    if s.quoted || s.field != [] || s.row != [] {
      assert RefusedFor(csv, Incomplete, csv, s, lines, row);
    } else {
      NoFields();
      assert row == [];
      assert OpenText(s) == if s.afterClosingQuote then "\"\"" else "";
      assert Writing(csv, s.rows, lines, s.afterClosingQuote);
    }
  }

  lemma {:induction false} EveryOutcome(csv: string, prefix: string, rest: string, s: Reader, lines: seq<seq<Form>>,
                                        row: seq<Form>)
    requires csv == prefix + rest && Behind(prefix, s, lines, row)
    ensures Outcome(csv, Parse(rest, s))
    decreases |rest|
  {
    hide Outcome, Behind, Escaped, RefusedFor, EndField, EndRecord, FormOf;
    if rest == [] {
      assert prefix == csv;
      AtEnd(csv, s, lines, row);
    } else {
      var ch, tail := rest[0], rest[1..];
      assert csv == (prefix + [ch]) + tail;
      if s.quoted {
        InsideQuotes(csv, prefix, rest, s, lines, row);
        if ch != '"' {
          EveryOutcome(csv, prefix + [ch], tail, s.(field := s.field + [ch]), lines, row);
        } else if tail != [] && tail[0] == '"' {
          EveryOutcome(csv, prefix + "\"\"", tail[1..], s.(field := s.field + ['"']), lines, row);
        } else {
          EveryOutcome(csv, prefix + "\"", tail, s.(quoted := false, afterClosingQuote := true), lines, row);
        }
      } else if Stops(rest, s) {
        Refusal(csv, prefix, rest, s, lines, row);
      } else {
        OutsideQuotes(csv, prefix, rest, s, lines, row);
        if ch == '"' {
          EveryOutcome(csv, prefix + "\"", tail, s.(quoted := true), lines, row);
        } else if ch == ',' {
          EveryOutcome(csv, prefix + ",", tail, EndField(s), lines, row + [FormOf(s)]);
        } else if ch == '\r' {
          EveryOutcome(csv, prefix + "\r\n", tail[1..], EndRecord(s), lines + [row + [FormOf(s)]], []);
        } else {
          EveryOutcome(csv, prefix + [ch], tail, s.(field := s.field + [ch]), lines, row);
        }
      }
    }
  }

  lemma InsideQuotes(csv: string, prefix: string, rest: string, s: Reader, lines: seq<seq<Form>>, row: seq<Form>)
    requires csv == prefix + rest && rest != [] && Behind(prefix, s, lines, row) && s.quoted
    ensures var ch, tail := rest[0], rest[1..];
            if ch != '"' then
              csv == (prefix + [ch]) + tail && Behind(prefix + [ch], s.(field := s.field + [ch]), lines, row)
            else if tail != [] && tail[0] == '"' then
              csv == (prefix + "\"\"") + tail[1..] && Behind(prefix + "\"\"", s.(field := s.field + ['"']), lines, row)
            else
              csv == (prefix + "\"") + tail
              && Behind(prefix + "\"", s.(quoted := false, afterClosingQuote := true), lines, row)
  {
    hide Behind;
    BehindQuotedChar(prefix, s, lines, row, rest[0]);
    BehindClosing(prefix, s, lines, row);
  }

  /** The next character cannot stand there. */
  predicate Stops(rest: string, s: Reader) {
    && rest != [] && !s.quoted
    && (|| (s.afterClosingQuote && rest[0] != ',' && rest[0] != '\r')
        || (rest[0] == '"' && s.field != [])
        || (rest[0] == '\r' && (|rest| == 1 || rest[1] != '\n'))
        || rest[0] == '\n')
  }

  lemma Refusal(csv: string, prefix: string, rest: string, s: Reader, lines: seq<seq<Form>>, row: seq<Form>)
    requires csv == prefix + rest && Behind(prefix, s, lines, row) && Stops(rest, s)
    ensures Outcome(csv, Parse(rest, s))
  {
    hide Behind, Parse, Stops;
    RowCount(prefix, s, lines, row);
    StopsParsing(rest, s);
    BehindShape(prefix, s, lines, row);
    assert csv[|prefix|..] == rest && prefix <= csv;
    assert RefusedFor(csv, Parse(rest, s).error, prefix, s, lines, row);
  }

  lemma StopsParsing(rest: string, s: Reader)
    requires Stops(rest, s)
    ensures Parse(rest, s) == Err(
              if s.afterClosingQuote && rest[0] != ',' && rest[0] != '\r' then AfterClosingQuote(|s.rows| + 1, rest[0])
              else if rest[0] == '"' then QuoteInsideField(|s.rows| + 1)
              else if rest[0] == '\r' then CrWithoutLf
              else BareLf)
    ensures rest != [] && !s.quoted
    ensures (s.afterClosingQuote && rest[0] != ',' && rest[0] != '\r')
            || (rest[0] == '"' && s.field != [] && !s.afterClosingQuote)
            || (rest[0] == '\r' && (|rest| == 1 || rest[1] != '\n'))
            || (rest[0] == '\n' && !s.afterClosingQuote)
  {
  }

  lemma BehindShape(prefix: string, s: Reader, lines: seq<seq<Form>>, row: seq<Form>)
    requires Behind(prefix, s, lines, row)
    ensures s.quoted ==> !s.afterClosingQuote
  {
  }

  lemma RowCount(prefix: string, s: Reader, lines: seq<seq<Form>>, row: seq<Form>)
    requires Behind(prefix, s, lines, row)
    ensures |s.rows| == |lines|
  {
    hide LinesText, FieldsText, GoodLines, AllWellFormed, OpenText;
  }

  lemma OutsideQuotes(csv: string, prefix: string, rest: string, s: Reader, lines: seq<seq<Form>>, row: seq<Form>)
    requires csv == prefix + rest && rest != [] && Behind(prefix, s, lines, row) && !s.quoted && !Stops(rest, s)
    ensures var ch, tail := rest[0], rest[1..];
            if ch == '"' then
              csv == (prefix + "\"") + tail && Behind(prefix + "\"", s.(quoted := true), lines, row)
            else if ch == ',' then
              csv == (prefix + ",") + tail && Behind(prefix + ",", EndField(s), lines, row + [FormOf(s)])
            else if ch == '\r' then
              tail != [] && csv == (prefix + "\r\n") + tail[1..]
              && Behind(prefix + "\r\n", EndRecord(s), lines + [row + [FormOf(s)]], [])
            else
              csv == (prefix + [ch]) + tail && Behind(prefix + [ch], s.(field := s.field + [ch]), lines, row)
  {
    hide Behind, EndField, EndRecord, FormOf;
    var ch := rest[0];
    if ch == '"' {
      BehindOpening(prefix, s, lines, row);
    } else if ch == ',' {
      BehindComma(prefix, s, lines, row);
    } else if ch == '\r' {
      BehindLineEnd(prefix, s, lines, row);
    } else {
      BehindPlainChar(prefix, s, lines, row, ch);
    }
  }

  lemma BehindStart()
    ensures Behind("", START, [], [])
  {
  }

  /** The parser returns `records` exactly for their writings: every field as it is, if it holds no comma, quote or line
    * end, or between quotes with its quotes doubled; commas between fields, CR LF after each record, and at most two
    * dangling quotes after the last. */
  lemma AcceptsExactly(csv: string, records: seq<Record>)
    ensures Parse(csv, START) == Ok(records) <==> exists lines, dangling :: Writing(csv, records, lines, dangling)
  {
    hide Parse, LinesText, Behind, GoodLines, Rows, RefusedFor;
    BehindStart();
    EveryOutcome(csv, "", csv, START, [], []);
    forall lines, dangling | Writing(csv, records, lines, dangling)
      ensures Parse(csv, START) == Ok(records)
    {
      ReadLines(lines, if dangling then "\"\"" else "");
      DanglingQuotes(START.(rows := Rows(lines)));
    }
  }

  /** Every refusal names what stands after the longest text that could be read, and the record it stands in. */
  lemma RefusalIsTrue(csv: string)
    ensures Parse(csv, START).Err? ==>
              exists prefix, s, lines, row :: RefusedFor(csv, Parse(csv, START).error, prefix, s, lines, row)
  {
    hide Parse, Behind, RefusedFor, Writing;
    BehindStart();
    EveryOutcome(csv, "", csv, START, [], []);
  }

  /** A field is printed as it is exactly when it holds no comma, quote or line end, and else between quotes. */
  lemma QuotedExactly(raw: string)
    ensures CsvField(raw) == raw <==> WellFormed(Plain(raw))
    ensures CsvField(raw) == raw || CsvField(raw) == "\"" + Doubled(raw) + "\""
  {
    if !WellFormed(Plain(raw)) {
      var c :| c in raw && (c == ',' || c == '"' || c == '\r' || c == '\n');
      assert Special(c);
      DoubledLonger(raw);
    }
  }

  lemma {:induction false} DoubledLonger(raw: string)
    ensures |Doubled(raw)| >= |raw|
  {
    if raw != [] {
      DoubledLonger(raw[1..]);
    }
  }
}

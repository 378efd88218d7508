/** Which texts pass the check of a cold file, and what the others are refused for: proofs about `ColdFile`. */
module ColdCheck {
  import opened Prelude
  import opened Csv
  import opened ColdFile
  import Decimal

  /** The fields with a comma before each but the first. */
  function WithCommas(fields: Record): string {
    if fields == [] then ""
    else if |fields| == 1 then fields[0]
    else WithCommas(fields[..|fields| - 1]) + "," + fields[|fields| - 1]
  }

  lemma {:induction false} CommaJoinSnoc(fields: Record, last: string)
    requires fields != []
    ensures CommaJoin(fields + [last]) == CommaJoin(fields) + "," + last
  {
    assert (fields + [last])[1..] == fields[1..] + [last];
    if |fields| > 1 {
      CommaJoinSnoc(fields[1..], last);
    }
  }

  lemma {:induction false} SameJoin(fields: Record)
    ensures CommaJoin(fields) == WithCommas(fields)
  {
    if |fields| > 1 {
      var init := fields[..|fields| - 1];
      SameJoin(init);
      CommaJoinSnoc(init, fields[|fields| - 1]);
      assert fields == init + [fields[|fields| - 1]];
    }
  }

  /** A header that reads like the column list, whatever its fields. */
  ghost predicate GoodHeader(records: seq<Record>) {
    records != [] && WithCommas(records[0]) == WithCommas(Columns())
  }

  /** Every data record has as many fields as the header. */
  ghost predicate SameWidths(records: seq<Record>)
    requires records != []
  {
    forall i :: 1 <= i < |records| ==> |records[i]| == |records[0]|
  }

  /** The first field of a record spells this start, within 64 bits. */
  ghost predicate StartsAt(record: Record, start: int) {
    record != [] && -0x8000_0000_0000_0000 <= start <= 0x7FFF_FFFF_FFFF_FFFF && Decimal.Spells(record[0], start)
  }

  lemma StartIs(record: Record, start: int)
    ensures FirstField(record) == Some(start) <==> StartsAt(record, start)
  {
    if record != [] {
      Decimal.ParsesExactly(record[0], I64_MIN, I64_MAX, start);
    }
  }

  lemma {:induction false} FirstBadIs(data: seq<Record>, width: nat, index: nat)
    ensures var bad := FirstBadWidth(data, width, index);
            if bad.None? then forall r :: r in data ==> |r| == width
            else
              && index < bad.value <= index + |data|
              && |data[bad.value - index - 1]| != width
              && forall i :: 0 <= i < bad.value - index - 1 ==> |data[i]| == width
    decreases |data|
  {
    if data != [] && |data[0]| == width {
      FirstBadIs(data[1..], width, index + 1);
    }
  }

  /** What each answer of the check says about the parsed records; there are no other answers. */
  ghost predicate AnswerIs(records: seq<Record>, expectedRows: int, expectedFirst: int, expectedLast: int,
                           answer: Result<(), VerifyError>) {
    var n := |records| - 1;
    match answer
    case Err(Unparsable(_)) => false
    case Err(NoHeader) => records == []
    case Err(WrongHeader) => records != [] && WithCommas(records[0]) != WithCommas(Columns())
    case Err(WrongWidth(i)) =>
      && GoodHeader(records) && 1 <= i <= n && |records[i]| != |records[0]|
      && forall j :: 1 <= j < i ==> |records[j]| == |records[0]|
    case Err(WrongRowCount(observed)) => GoodHeader(records) && SameWidths(records) && observed == n != expectedRows
    case Err(NoData) => GoodHeader(records) && n == 0 == expectedRows
    case Err(BadBucket) =>
      && GoodHeader(records) && SameWidths(records) && n == expectedRows && n > 0
      && ((forall v :: !StartsAt(records[1], v)) || forall v :: !StartsAt(records[n], v))
    case Err(WrongEnds(first, last)) =>
      && GoodHeader(records) && SameWidths(records) && n == expectedRows && n > 0
      && StartsAt(records[1], first) && StartsAt(records[n], last)
      && (first != expectedFirst || last != expectedLast)
    case Ok(_) =>
      && GoodHeader(records) && SameWidths(records) && n == expectedRows && n > 0
      && StartsAt(records[1], expectedFirst) && StartsAt(records[n], expectedLast)
  }

  lemma Starts(record: Record)
    ensures FirstField(record).None? ==> forall v :: !StartsAt(record, v)
    ensures FirstField(record).Some? ==> forall v :: StartsAt(record, v) <==> v == FirstField(record).value
  {
    hide FirstField, StartsAt;
    forall v
      ensures StartsAt(record, v) <==> FirstField(record) == Some(v)
    {
      StartIs(record, v);
    }
  }

  lemma AnswerOfData(records: seq<Record>, expectedRows: int, expectedFirst: int, expectedLast: int)
    requires GoodHeader(records)
    ensures AnswerIs(records, expectedRows, expectedFirst, expectedLast,
                     VerifyData(records[1..], |records[0]|, expectedRows, expectedFirst, expectedLast))
  {
    hide FirstBadWidth, FirstField, StartsAt, WithCommas, Columns;
    var data, width := records[1..], |records[0]|;
    FirstBadIs(data, width, 0);
    if FirstBadWidth(data, width, 0).None? {
      WidthsAgree(records);
      if data != [] {
        assert records[1] == data[0] && records[|records| - 1] == data[|data| - 1];
        Starts(data[0]);
        Starts(data[|data| - 1]);
      }
    } else {
      assert forall i :: 1 <= i < |records| ==> records[i] == data[i - 1];
    }
  }

  lemma WidthsAgree(records: seq<Record>)
    requires records != []
    ensures SameWidths(records) <==> forall r :: r in records[1..] ==> |r| == |records[0]|
  {
    assert forall i :: 1 <= i < |records| ==> records[i] == records[1..][i - 1];
  }

  /** The whole check of any text: it is refused as unparsable with the parser's error, or its answer says of the parsed
    * records what stands in `AnswerIs`. */
  lemma AnswerIsTrue(csv: string, expectedRows: int, expectedFirst: int, expectedLast: int)
    ensures var answer := VerifyColdFile(csv, expectedRows, expectedFirst, expectedLast);
            match Parse(csv, START)
            case Err(e) => answer == Err(Unparsable(e))
            case Ok(records) => AnswerIs(records, expectedRows, expectedFirst, expectedLast, answer)
  {
    hide Parse, VerifyData, WithCommas, CommaJoin, Columns, StartsAt, SameWidths;
    var parsed := Parse(csv, START);
    if parsed.Ok? && parsed.value != [] {
      var records := parsed.value;
      SameJoin(records[0]);
      SameJoin(Columns());
      if GoodHeader(records) {
        AnswerOfData(records, expectedRows, expectedFirst, expectedLast);
      }
    }
  }

  /** A text passes the check exactly when it parses, its first record joined by commas is the column list, every other
    * record has as many fields as the first, their number is the expected one and not zero, and the first fields of the
    * first and the last of them spell the expected ends. */
  lemma VerifyExactly(csv: string, expectedRows: int, expectedFirst: int, expectedLast: int)
    ensures VerifyColdFile(csv, expectedRows, expectedFirst, expectedLast) == Ok(())
       <==> Parse(csv, START).Ok?
            && var records := Parse(csv, START).value;
            && records != []
            && WithCommas(records[0]) == WithCommas(Columns())
            && (forall i :: 1 <= i < |records| ==> |records[i]| == |records[0]|)
            && |records| - 1 == expectedRows && expectedRows > 0
            && StartsAt(records[1], expectedFirst) && StartsAt(records[expectedRows], expectedLast)
  {
    hide Parse, VerifyColdFile, WithCommas, Columns, StartsAt;
    AnswerIsTrue(csv, expectedRows, expectedFirst, expectedLast);
    if Parse(csv, START).Ok? && GoodHeader(Parse(csv, START).value) && |Parse(csv, START).value| > 1 {
      var records := Parse(csv, START).value;
      Starts(records[1]);
      Starts(records[|records| - 1]);
    }
    var answer := VerifyColdFile(csv, expectedRows, expectedFirst, expectedLast);
    if answer.Ok? {
      assert answer.value == ();
    }
  }
}

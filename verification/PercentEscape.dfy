/** Percent-decoding of the OTLP header values and the escape that survives a second decoding (`otel.rs`; section 2.1 of
  * RFC 3986). Strings are their bytes; `utf8` tells which byte strings are text. */
module PercentEscape {
  import opened Prelude

  type Byte = c: char | c as int < 256 witness '0'
  type Bytes = seq<Byte>

  // ---------- Decoding ----------

  function HexValue(c: Byte): Option<nat> {
    if '0' <= c <= '9' then Some((c - '0') as nat)
    else if 'a' <= c <= 'f' then Some((c - 'a') as nat + 10)
    else if 'A' <= c <= 'F' then Some((c - 'A') as nat + 10)
    else None
  }

  lemma HexBelow16(c: Byte)
    ensures HexValue(c).Some? ==> HexValue(c).value < 16
  {
  }

  /** The byte that two hexadecimal digits stand for. */
  function HexPair(high: Byte, low: Byte): Option<Byte> {
    HexBelow16(high);
    HexBelow16(low);
    var h, l := HexValue(high), HexValue(low);
    if h.None? || l.None? then None else Some((16 * h.value + l.value) as char)
  }

  /** The bytes that `value` stands for, if every `%` has its two digits. */
  function Decoded(value: Bytes): Option<Bytes>
    decreases |value|
  {
    if value == [] then Some([])
    else if value[0] != '%' then
      var rest := Decoded(value[1..]);
      if rest.None? then None else Some([value[0]] + rest.value)
    else if |value| < 3 then None
    else
      var byte, rest := HexPair(value[1], value[2]), Decoded(value[3..]);
      if byte.None? || rest.None? then None else Some([byte.value] + rest.value)
  }

  /** What is left to decode, after `done`. */
  function Onto(done: Bytes, rest: Option<Bytes>): Option<Bytes> {
    if rest.None? then None else Some(done + rest.value)
  }

  function PercentDecode(value: Bytes, utf8: Bytes -> bool): Option<Bytes> {
    var bytes := Decoded(value);
    if bytes.Some? && utf8(bytes.value) then bytes else None
  }

  lemma OntoStep(done: Bytes, value: Bytes, index: nat)
    requires index < |value|
    ensures value[index] != '%' ==>
              Onto(done, Decoded(value[index..])) == Onto(done + [value[index]], Decoded(value[index + 1..]))
    ensures value[index] == '%' && (index + 2 >= |value| || HexPair(value[index + 1], value[index + 2]).None?) ==>
              Onto(done, Decoded(value[index..])) == None
    ensures value[index] == '%' && index + 2 < |value| && HexPair(value[index + 1], value[index + 2]).Some? ==>
              Onto(done, Decoded(value[index..]))
              == Onto(done + [HexPair(value[index + 1], value[index + 2]).value], Decoded(value[index + 3..]))
  {
    hide HexPair;
    var rest := value[index..];
    assert rest[0] == value[index] && rest[1..] == value[index + 1..];
    if index + 2 < |value| {
      assert rest[1] == value[index + 1] && rest[2] == value[index + 2] && rest[3..] == value[index + 3..];
    }
    Regroup(done, rest);
  }

  lemma Regroup(done: Bytes, rest: Bytes)
    ensures forall b: Byte, tail: Bytes :: done + ([b] + tail) == (done + [b]) + tail
  {
  }

  /** The decoder's loop over the bytes. */
  method PercentDecodeLoop(value: Bytes, utf8: Bytes -> bool) returns (text: Option<Bytes>)
    ensures text == PercentDecode(value, utf8)
  {
    var decoded: Bytes := [];
    var index := 0;
    assert value[0..] == value && Onto([], Decoded(value)) == Decoded(value) by {
      if Decoded(value).Some? {
        assert [] + Decoded(value).value == Decoded(value).value;
      }
    }
    hide Decoded, HexPair;
    while index < |value|
      invariant 0 <= index <= |value|
      invariant Onto(decoded, Decoded(value[index..])) == Decoded(value)
    {
      OntoStep(decoded, value, index);
      if value[index] == '%' {
        if index + 2 >= |value| {
          return None;
        }
        var byte := HexPair(value[index + 1], value[index + 2]);
        if byte.None? {
          return None;
        }
        decoded := decoded + [byte.value];
        index := index + 3;
      } else {
        decoded := decoded + [value[index]];
        index := index + 1;
      }
    }
    NothingLeft(decoded, value[index..]);
    text := if utf8(decoded) then Some(decoded) else None;
  }

  lemma NothingLeft(done: Bytes, rest: Bytes)
    requires rest == []
    ensures Onto(done, Decoded(rest)) == Some(done)
  {
    assert done + [] == done;
  }

  // ---------- What decodes to what ----------

  /** `encoded` stands for `bytes`: byte by byte as itself, unless it is `%`, or as `%` and two digits of either case. */
  predicate Encodes(encoded: Bytes, bytes: Bytes)
    decreases |bytes|
  {
    if bytes == [] then encoded == []
    else
      || (|encoded| >= 1 && encoded[0] == bytes[0] && bytes[0] != '%' && Encodes(encoded[1..], bytes[1..]))
      || (|encoded| >= 3 && encoded[0] == '%' && HexPair(encoded[1], encoded[2]) == Some(bytes[0])
          && Encodes(encoded[3..], bytes[1..]))
  }

  /** Decoding accepts exactly the encodings, and gives what they encode. */
  lemma {:induction false} DecodesExactly(encoded: Bytes, bytes: Bytes)
    ensures Decoded(encoded) == Some(bytes) <==> Encodes(encoded, bytes)
    decreases |encoded|
  {
    hide HexPair;
    if encoded != [] {
      if encoded[0] != '%' {
        var rest := Decoded(encoded[1..]);
        if bytes != [] {
          DecodesExactly(encoded[1..], bytes[1..]);
          assert bytes == [bytes[0]] + bytes[1..];
        }
        if rest.Some? {
          assert ([encoded[0]] + rest.value)[1..] == rest.value;
        }
      } else if |encoded| >= 3 {
        var rest := Decoded(encoded[3..]);
        if bytes != [] {
          DecodesExactly(encoded[3..], bytes[1..]);
          assert bytes == [bytes[0]] + bytes[1..];
        }
        if rest.Some? && HexPair(encoded[1], encoded[2]).Some? {
          assert ([HexPair(encoded[1], encoded[2]).value] + rest.value)[1..] == rest.value;
        }
      }
    }
  }

  // ---------- The escape ----------

  /** `replace('%', "%25")`. */
  function Escaped(value: Bytes): Bytes
    decreases |value|
  {
    if value == [] then [] else (if value[0] == '%' then "%25" else [value[0]]) + Escaped(value[1..])
  }

  lemma {:induction false} EscapedEncodes(value: Bytes)
    ensures Encodes(Escaped(value), value)
    decreases |value|
  {
    if value != [] {
      EscapedEncodes(value[1..]);
      if value[0] == '%' {
        var e := Escaped(value);
        assert e[..3] == "%25" && e[3..] == Escaped(value[1..]);
        assert HexPair('2', '5') == Some('%');
        assert e[1] == '2' && e[2] == '5';
      } else {
        assert Escaped(value)[1..] == Escaped(value[1..]);
      }
    }
  }

  /** One decoding undoes the escape of every text. */
  lemma EscapeSurvives(value: Bytes, utf8: Bytes -> bool)
    requires utf8(value)
    ensures PercentDecode(Escaped(value), utf8) == Some(value)
  {
    EscapedEncodes(value);
    DecodesExactly(Escaped(value), value);
    hide Decoded, Encodes, Escaped;
  }

  /** Without the escape the second decoding loses a value exactly when it has a `%`: the result is the value itself if and
    * only if there is none. */
  lemma {:induction false} EscapeIsNeeded(value: Bytes)
    ensures Decoded(value) == Some(value) <==> '%' !in value
    ensures Decoded(value).Some? ==> |Decoded(value).value| <= |value|
    decreases |value|
  {
    if value != [] {
      assert value == [value[0]] + value[1..];
      if value[0] != '%' {
        EscapeIsNeeded(value[1..]);
        if Decoded(value[1..]).Some? {
          assert ([value[0]] + Decoded(value[1..]).value)[1..] == Decoded(value[1..]).value;
        }
      } else if |value| >= 3 {
        EscapeIsNeeded(value[3..]);
      }
    }
  }

  // ---------- The headers variable ----------

  datatype HeaderError = NotKeyValue(entry: nat) | BadPercent(entry: nat)

  type Headers = map<Bytes, Bytes>

  /** The position of the first `c`, or the length. */
  function Find(text: Bytes, c: Byte): (n: nat)
    ensures n <= |text| && (n < |text| ==> text[n] == c) && c !in text[..n]
  {
    if text == [] || text[0] == c then 0
    else
      var n := Find(text[1..], c);
      assert text[..1 + n] == [text[0]] + text[1..][..n];
      1 + n
  }

  function SplitOn(text: Bytes, c: Byte): seq<Bytes>
    decreases |text|
  {
    var n := Find(text, c);
    if n == |text| then [text] else [text[..n]] + SplitOn(text[n + 1..], c)
  }

  /** One `key=value` entry; `trim` drops the white space around. */
  function ParseEntry(entry: Bytes, index: nat, trim: Bytes -> Bytes, utf8: Bytes -> bool): Result<(Bytes, Bytes), HeaderError> {
    var n := Find(entry, '=');
    if n == |entry| then Err(NotKeyValue(index + 1))
    else
      var key, value := trim(entry[..n]), trim(entry[n + 1..]);
      if key == [] then Err(NotKeyValue(index + 1))
      else if '%' !in value then Ok((key, value))
      else
        var decoded := PercentDecode(value, utf8);
        if decoded.None? then Err(BadPercent(index + 1)) else Ok((key, decoded.value))
  }

  function ParseEntries(entries: seq<Bytes>, index: nat, headers: Headers, trim: Bytes -> Bytes, utf8: Bytes -> bool)
    : Result<Headers, HeaderError>
    decreases |entries|
  {
    if entries == [] then Ok(headers)
    else
      var entry := ParseEntry(entries[0], index, trim, utf8);
      match entry
      case Err(error) => Err(error)
      case Ok((key, value)) => ParseEntries(entries[1..], index + 1, headers[key := value], trim, utf8)
  }

  /** A later entry of the same key wins; no variable, or a blank one, gives no headers. */
  function ParseOtlpHeaders(value: Option<Bytes>, trim: Bytes -> Bytes, utf8: Bytes -> bool): Result<Headers, HeaderError> {
    if value.None? || trim(value.value) == [] then Ok(map[])
    else ParseEntries(SplitOn(trim(value.value), ','), 0, map[], trim, utf8)
  }

  function HeadersForOtlpBuilder(headers: Headers): Headers { map key | key in headers :: Escaped(headers[key]) }

  /** Every header reaches the exporter, after the builder's own decoding, as it was parsed. */
  lemma HeadersSurvive(headers: Headers, utf8: Bytes -> bool, key: Bytes)
    requires key in headers && utf8(headers[key])
    ensures key in HeadersForOtlpBuilder(headers)
    ensures PercentDecode(HeadersForOtlpBuilder(headers)[key], utf8) == Some(headers[key])
  {
    EscapeSurvives(headers[key], utf8);
  }

  lemma {:induction false} FindNone(text: Bytes, c: Byte)
    requires c !in text
    ensures Find(text, c) == |text|
  {
    if text != [] {
      FindNone(text[1..], c);
    }
  }

  lemma {:induction false} FindAt(before: Bytes, c: Byte, after: Bytes)
    requires c !in before
    ensures Find(before + [c] + after, c) == |before|
    decreases |before|
  {
    if before != [] {
      assert (before + [c] + after)[1..] == before[1..] + [c] + after;
      assert before[0] in before;
      FindAt(before[1..], c, after);
    }
  }

  lemma {:induction false} NoPercentEncodesItself(encoded: Bytes, bytes: Bytes)
    requires '%' !in encoded && Encodes(encoded, bytes)
    ensures encoded == bytes
    decreases |bytes|
  {
    if bytes != [] {
      assert encoded == [encoded[0]] + encoded[1..] && bytes == [bytes[0]] + bytes[1..];
      NoPercentEncodesItself(encoded[1..], bytes[1..]);
    }
  }

  // ---------- From the variable to the wire ----------

  /** What an operator writes for one header: its key, and some percent encoding of its value. */
  datatype Entry = Entry(key: Bytes, encoded: Bytes, bytes: Bytes)

  function EntryText(e: Entry): Bytes { e.key + ['='] + e.encoded }

  /** The entries with commas between them. */
  function EntriesText(entries: seq<Entry>): Bytes {
    if entries == [] then []
    else if |entries| == 1 then EntryText(entries[0])
    else EntryText(entries[0]) + [','] + EntriesText(entries[1..])
  }

  ghost predicate Proper(e: Entry, trim: Bytes -> Bytes, utf8: Bytes -> bool) {
    && e.key != [] && '=' !in e.key && ',' !in e.key && ',' !in e.encoded
    && Encodes(e.encoded, e.bytes) && utf8(e.bytes)
    && trim(e.key) == e.key && trim(e.encoded) == e.encoded
  }

  /** The headers the entries stand for, on top of those before. */
  function HeadersOf(entries: seq<Entry>, headers: Headers): Headers {
    if entries == [] then headers else HeadersOf(entries[1..], headers[entries[0].key := entries[0].bytes])
  }

  function Texts(entries: seq<Entry>): seq<Bytes> {
    if entries == [] then [] else [EntryText(entries[0])] + Texts(entries[1..])
  }

  lemma EntryParses(e: Entry, index: nat, trim: Bytes -> Bytes, utf8: Bytes -> bool)
    requires Proper(e, trim, utf8)
    ensures ParseEntry(EntryText(e), index, trim, utf8) == Ok((e.key, e.bytes))
    ensures ',' !in EntryText(e)
  {
    var entry := EntryText(e);
    DecodesExactly(e.encoded, e.bytes);
    if '%' !in e.encoded {
      NoPercentEncodesItself(e.encoded, e.bytes);
    }
    FindAt(e.key, '=', e.encoded);
    hide Encodes, Decoded, Find;
    assert entry[..|e.key|] == e.key && entry[|e.key| + 1..] == e.encoded;
  }

  lemma SplitOne(text: Bytes)
    requires ',' !in text
    ensures SplitOn(text, ',') == [text]
  {
    FindNone(text, ',');
  }

  lemma SplitFirst(head: Bytes, rest: Bytes)
    requires ',' !in head
    ensures SplitOn(head + [','] + rest, ',') == [head] + SplitOn(rest, ',')
  {
    hide Find;
    FindAt(head, ',', rest);
    var text := head + [','] + rest;
    assert text[..|head|] == head && text[|head| + 1..] == rest;
  }

  lemma {:induction false} SplitsIntoEntries(entries: seq<Entry>, trim: Bytes -> Bytes, utf8: Bytes -> bool)
    requires entries != [] && forall e :: e in entries ==> Proper(e, trim, utf8)
    ensures SplitOn(EntriesText(entries), ',') == Texts(entries)
    decreases |entries|
  {
    hide SplitOn, Proper, EntryText;
    assert entries[0] in entries;
    EntryParses(entries[0], 0, trim, utf8);
    if |entries| == 1 {
      SplitOne(EntryText(entries[0]));
      assert entries[1..] == [] && Texts(entries[1..]) == [];
    } else {
      SplitFirst(EntryText(entries[0]), EntriesText(entries[1..]));
      SplitsIntoEntries(entries[1..], trim, utf8);
    }
  }

  lemma {:induction false} EntriesParse(entries: seq<Entry>, index: nat, headers: Headers, trim: Bytes -> Bytes,
                                        utf8: Bytes -> bool)
    requires forall e :: e in entries ==> Proper(e, trim, utf8)
    ensures ParseEntries(Texts(entries), index, headers, trim, utf8) == Ok(HeadersOf(entries, headers))
    decreases |entries|
  {
    hide Proper, ParseEntry, EntryText;
    if entries != [] {
      var e := entries[0];
      assert e in entries;
      EntryParses(e, index, trim, utf8);
      EntriesParse(entries[1..], index + 1, headers[e.key := e.bytes], trim, utf8);
      assert Texts(entries)[1..] == Texts(entries[1..]);
    }
  }

  /** Of several entries with one key the last one counts. */
  lemma {:induction false} LastEntryCounts(entries: seq<Entry>, headers: Headers, i: nat)
    requires i < |entries| && forall j :: i < j < |entries| ==> entries[j].key != entries[i].key
    ensures entries[i].key in HeadersOf(entries, headers)
    ensures HeadersOf(entries, headers)[entries[i].key] == entries[i].bytes
    decreases |entries|
  {
    var after := headers[entries[0].key := entries[0].bytes];
    if i > 0 {
      LastEntryCounts(entries[1..], after, i - 1);
    } else {
      KeyUntouched(entries[1..], after, entries[0].key);
    }
  }

  lemma {:induction false} KeyUntouched(entries: seq<Entry>, headers: Headers, key: Bytes)
    requires key in headers && forall j :: 0 <= j < |entries| ==> entries[j].key != key
    ensures key in HeadersOf(entries, headers) && HeadersOf(entries, headers)[key] == headers[key]
    decreases |entries|
  {
    if entries != [] {
      KeyUntouched(entries[1..], headers[entries[0].key := entries[0].bytes], key);
    }
  }

  /** Whatever encodings an operator gives the values of any number of headers, the exporter sends the values; of several
    * entries with one key, the last. */
  lemma OperatorValuesArrive(entries: seq<Entry>, trim: Bytes -> Bytes, utf8: Bytes -> bool, i: nat)
    requires i < |entries| && (forall e :: e in entries ==> Proper(e, trim, utf8))
    requires trim(EntriesText(entries)) == EntriesText(entries)
    requires forall j :: i < j < |entries| ==> entries[j].key != entries[i].key
    ensures ParseOtlpHeaders(Some(EntriesText(entries)), trim, utf8) == Ok(HeadersOf(entries, map[]))
    ensures var sent := HeadersForOtlpBuilder(HeadersOf(entries, map[]));
            && entries[i].key in sent
            && PercentDecode(sent[entries[i].key], utf8) == Some(entries[i].bytes)
  {
    SplitsIntoEntries(entries, trim, utf8);
    EntriesParse(entries, 0, map[], trim, utf8);
    LastEntryCounts(entries, map[], i);
    assert entries[i] in entries && entries[0] in entries;
    TextNotEmpty(entries);
    hide SplitOn, ParseEntries, HeadersOf, EntriesText, Texts, Encodes, Escaped;
    HeadersSurvive(HeadersOf(entries, map[]), utf8, entries[i].key);
  }

  lemma TextNotEmpty(entries: seq<Entry>)
    requires entries != []
    ensures EntriesText(entries) != []
  {
  }
}

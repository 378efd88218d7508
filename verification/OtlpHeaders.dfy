/** Which OTLP header variables are accepted, and what they stand for: proofs about `PercentEscape` (`otel.rs`). */
module OtlpHeaders {
  import opened Prelude
  import opened PercentEscape

  // ---------- Two digits ----------

  /** `c` is a hexadecimal digit of value `x`, in either case. */
  predicate HexDigit(c: Byte, x: nat) { x < 16 && (c == "0123456789abcdef"[x] || c == "0123456789ABCDEF"[x]) }

  lemma HexDigitIs(c: Byte, x: nat)
    ensures HexValue(c) == Some(x) <==> HexDigit(c, x)
  {
    if x < 16 {
      DigitChars(x);
    } else {
      HexBelow16(c);
    }
  }

  lemma DigitChars(x: nat)
    requires x < 16
    ensures "0123456789abcdef"[x] as int == if x < 10 then 48 + x else 87 + x
    ensures "0123456789ABCDEF"[x] as int == if x < 10 then 48 + x else 55 + x
  {
  }

  /** Two characters stand for a byte exactly if they are hexadecimal digits, the first of sixteen times its value. */
  lemma HexPairExactly(high: Byte, low: Byte, b: Byte)
    ensures HexPair(high, low) == Some(b) <==> exists x: nat, y: nat :: HexDigit(high, x) && HexDigit(low, y) && b as int == 16 * x + y
  {
    forall x: nat
      ensures HexValue(high) == Some(x) <==> HexDigit(high, x)
      ensures HexValue(low) == Some(x) <==> HexDigit(low, x)
    {
      HexDigitIs(high, x);
      HexDigitIs(low, x);
    }
    HexBelow16(high);
    HexBelow16(low);
    hide HexValue, HexDigit;
    if HexPair(high, low) == Some(b) {
      var x, y := HexValue(high).value, HexValue(low).value;
      assert HexDigit(high, x) && HexDigit(low, y) && b as int == 16 * x + y;
    }
    if exists x: nat, y: nat :: HexDigit(high, x) && HexDigit(low, y) && b as int == 16 * x + y {
      var x: nat, y: nat :| HexDigit(high, x) && HexDigit(low, y) && b as int == 16 * x + y;
      assert HexValue(high) == Some(x) && HexValue(low) == Some(y);
    }
  }

  // ---------- One entry ----------

  /** What stands before and after the first `=` of an entry. */
  predicate CutsAt(entry: Bytes, n: nat) {
    n < |entry| && entry[n] == '=' && forall m :: 0 <= m < n ==> entry[m] != '='
  }

  /** The entry stands for the header `key` with the value `bytes`. */
  ghost predicate StandsFor(entry: Bytes, key: Bytes, bytes: Bytes, trim: Bytes -> Bytes, utf8: Bytes -> bool) {
    exists n: nat :: CutsAt(entry, n) && trim(entry[..n]) == key && key != []
                && var value := trim(entry[n + 1..]);
                   if '%' in value then Encodes(value, bytes) && utf8(bytes) else bytes == value
  }

  /** The entry names no key. */
  ghost predicate Keyless(entry: Bytes, trim: Bytes -> Bytes) {
    '=' !in entry || exists n: nat :: CutsAt(entry, n) && trim(entry[..n]) == []
  }

  lemma FindIs(entry: Bytes)
    ensures var n := Find(entry, '=');
            if n == |entry| then '=' !in entry else CutsAt(entry, n) && forall m: nat :: CutsAt(entry, m) ==> m == n
  {
    var n := Find(entry, '=');
    hide Find;
    assert forall m :: 0 <= m < n ==> entry[..n][m] == entry[m];
  }

  lemma DecodeIs(value: Bytes, utf8: Bytes -> bool, bytes: Bytes)
    ensures PercentDecode(value, utf8) == Some(bytes) <==> Encodes(value, bytes) && utf8(bytes)
  {
    DecodesExactly(value, bytes);
    hide Decoded, Encodes;
  }

  /** One entry gives a header exactly if it stands for it; without a key it is refused as no pair, and in every other case
    * for its percent signs, always under its number. */
  lemma EntryExactly(entry: Bytes, index: nat, trim: Bytes -> Bytes, utf8: Bytes -> bool)
    ensures forall key, bytes :: ParseEntry(entry, index, trim, utf8) == Ok((key, bytes)) <==> StandsFor(entry, key, bytes, trim, utf8)
    ensures ParseEntry(entry, index, trim, utf8).Err? ==>
              ParseEntry(entry, index, trim, utf8).error
              == if Keyless(entry, trim) then NotKeyValue(index + 1) else BadPercent(index + 1)
  {
    FindIs(entry);
    var n := Find(entry, '=');
    hide Find, PercentDecode, Encodes, CutsAt;
    if n < |entry| {
      var value := trim(entry[n + 1..]);
      forall bytes
        ensures PercentDecode(value, utf8) == Some(bytes) <==> Encodes(value, bytes) && utf8(bytes)
      {
        DecodeIs(value, utf8, bytes);
      }
      CutIn(entry, n);
    } else {
      NoCut(entry);
    }
  }

  lemma CutIn(entry: Bytes, n: nat)
    requires CutsAt(entry, n)
    ensures '=' in entry && n < |entry|
  {
    assert entry[n] in entry;
  }

  lemma NoCut(entry: Bytes)
    requires '=' !in entry
    ensures forall n: nat :: !CutsAt(entry, n)
  {
  }

  // ---------- The variable ----------

  function JoinedByCommas(pieces: seq<Bytes>): Bytes
    requires pieces != []
  {
    if |pieces| == 1 then pieces[0] else pieces[0] + ([','] + JoinedByCommas(pieces[1..]))
  }

  /** The entries are what stands between the commas. */
  lemma {:induction false} SplitIs(text: Bytes)
    ensures SplitOn(text, ',') != [] && JoinedByCommas(SplitOn(text, ',')) == text
    ensures forall piece :: piece in SplitOn(text, ',') ==> ',' !in piece
    decreases |text|
  {
    hide Find;
    var n := Find(text, ',');
    if n == |text| {
      assert text[..n] == text;
    } else {
      var rest := SplitOn(text[n + 1..], ',');
      SplitIs(text[n + 1..]);
      assert SplitOn(text, ',') == [text[..n]] + rest;
      assert ([text[..n]] + rest)[1..] == rest;
      assert text == text[..n] + ([','] + text[n + 1..]);
    }
  }

  /** The last of the pairs with this key. */
  ghost predicate LastAt(pairs: seq<(Bytes, Bytes)>, i: nat, key: Bytes) {
    i < |pairs| && pairs[i].0 == key && forall j :: i < j < |pairs| ==> pairs[j].0 != key
  }

  ghost predicate KeyCounts(pairs: seq<(Bytes, Bytes)>, before: Headers, after: Headers, key: Bytes) {
    if exists i: nat :: LastAt(pairs, i, key)
    then key in after && forall i: nat :: LastAt(pairs, i, key) ==> after[key] == pairs[i].1
    else (key in after <==> key in before) && (key in before ==> after[key] == before[key])
  }

  /** The headers that the pairs read from the entries leave, on top of those before: of one key the last counts. */
  ghost predicate LastCounts(pairs: seq<(Bytes, Bytes)>, before: Headers, after: Headers) {
    forall key :: KeyCounts(pairs, before, after, key)
  }

  lemma {:induction false} OccursLast(pairs: seq<(Bytes, Bytes)>, i: nat)
    requires i < |pairs|
    ensures exists j: nat :: LastAt(pairs, j, pairs[i].0)
    decreases |pairs| - i
  {
    if !LastAt(pairs, i, pairs[i].0) {
      var j :| i < j < |pairs| && pairs[j].0 == pairs[i].0;
      OccursLast(pairs, j);
    }
  }

  /** All entries stand for these headers. */
  ghost predicate AllStandFor(entries: seq<Bytes>, pairs: seq<(Bytes, Bytes)>, trim: Bytes -> Bytes, utf8: Bytes -> bool) {
    |pairs| == |entries| && forall i :: 0 <= i < |entries| ==> StandsFor(entries[i], pairs[i].0, pairs[i].1, trim, utf8)
  }

  /** The entry stands for some header. */
  ghost predicate IsHeader(entry: Bytes, trim: Bytes -> Bytes, utf8: Bytes -> bool) {
    exists key, bytes :: StandsFor(entry, key, bytes, trim, utf8)
  }

  /** The first entry that stands for no header is entry `i`, and the error is about it. */
  ghost predicate FirstBad(entries: seq<Bytes>, index: nat, i: nat, error: HeaderError, trim: Bytes -> Bytes, utf8: Bytes -> bool) {
    && i < |entries|
    && (forall j :: 0 <= j < i ==> IsHeader(entries[j], trim, utf8))
    && !IsHeader(entries[i], trim, utf8)
    && error == if Keyless(entries[i], trim) then NotKeyValue(index + i + 1) else BadPercent(index + i + 1)
  }

  lemma ShiftLast(first: (Bytes, Bytes), pairs: seq<(Bytes, Bytes)>, key: Bytes)
    ensures var all := [first] + pairs;
            && (forall i: nat :: LastAt(pairs, i, key) ==> LastAt(all, i + 1, key) && all[i + 1] == pairs[i])
            && (forall i: nat :: i > 0 && LastAt(all, i, key) ==> LastAt(pairs, i - 1, key) && all[i] == pairs[i - 1])
            && (LastAt(all, 0, key) ==> key == first.0 && all[0] == first && forall i: nat :: !LastAt(pairs, i, key))
            && (key == first.0 ==> LastAt(all, 0, key) || exists i: nat :: LastAt(pairs, i, key))
  {
    var all := [first] + pairs;
    assert all[0] == first && forall i :: 0 < i < |all| ==> all[i] == pairs[i - 1];
    forall i: nat | LastAt(pairs, i, key)
      ensures LastAt(all, i + 1, key)
    {
      forall j | i + 1 < j < |all|
        ensures all[j].0 != key
      {
        assert pairs[j - 1].0 != key;
      }
    }
    forall i: nat | i > 0 && LastAt(all, i, key)
      ensures LastAt(pairs, i - 1, key)
    {
      forall j | i - 1 < j < |pairs|
        ensures pairs[j].0 != key
      {
        assert all[j + 1].0 != key;
      }
    }
    if key == first.0 && !LastAt(all, 0, key) {
      var j :| 0 < j < |all| && all[j].0 == key;
      OccursLast(pairs, j - 1);
    }
  }

  lemma NextKey(first: (Bytes, Bytes), pairs: seq<(Bytes, Bytes)>, before: Headers, after: Headers, key: Bytes)
    requires KeyCounts(pairs, before[first.0 := first.1], after, key)
    ensures KeyCounts([first] + pairs, before, after, key)
  {
    hide LastAt;
    ShiftLast(first, pairs, key);
    var all := [first] + pairs;
    if i: nat :| LastAt(pairs, i, key) {
      assert LastAt(all, i + 1, key);
    } else {
      assert forall i: nat :: LastAt(all, i, key) ==> i == 0;
    }
  }

  lemma NextPair(key: Bytes, bytes: Bytes, pairs: seq<(Bytes, Bytes)>, before: Headers, after: Headers)
    requires LastCounts(pairs, before[key := bytes], after)
    ensures LastCounts([(key, bytes)] + pairs, before, after)
  {
    hide KeyCounts;
    forall k
      ensures KeyCounts([(key, bytes)] + pairs, before, after, k)
    {
      NextKey((key, bytes), pairs, before, after, k);
    }
  }

  lemma {:induction false} EntriesRead(entries: seq<Bytes>, index: nat, headers: Headers, trim: Bytes -> Bytes, utf8: Bytes -> bool)
    returns (pairs: seq<(Bytes, Bytes)>, bad: nat)
    ensures var r := ParseEntries(entries, index, headers, trim, utf8);
            match r
            case Ok(after) => AllStandFor(entries, pairs, trim, utf8) && LastCounts(pairs, headers, after)
            case Err(error) => FirstBad(entries, index, bad, error, trim, utf8)
    decreases |entries|
  {
    hide ParseEntry, StandsFor, Keyless, LastCounts, FirstBad;
    pairs, bad := [], 0;
    if entries == [] {
      NothingRead(headers);
    } else {
      EntryExactly(entries[0], index, trim, utf8);
      var first := ParseEntry(entries[0], index, trim, utf8);
      match first
      case Err(error) =>
        forall key, bytes
          ensures !StandsFor(entries[0], key, bytes, trim, utf8)
        {
          assert first != Ok((key, bytes));
        }
        BadHere(entries, index, error, trim, utf8);
      case Ok((key, bytes)) =>
        pairs, bad := EntriesRead(entries[1..], index + 1, headers[key := bytes], trim, utf8);
        var r := ParseEntries(entries[1..], index + 1, headers[key := bytes], trim, utf8);
        assert StandsFor(entries[0], key, bytes, trim, utf8);
        if r.Ok? {
          NextPair(key, bytes, pairs, headers, r.value);
        } else {
          BadLater(entries, index, bad, r.error, key, bytes, trim, utf8);
        }
        pairs, bad := [(key, bytes)] + pairs, bad + 1;
    }
  }

  lemma BadHere(entries: seq<Bytes>, index: nat, error: HeaderError, trim: Bytes -> Bytes, utf8: Bytes -> bool)
    requires entries != [] && forall key, bytes :: !StandsFor(entries[0], key, bytes, trim, utf8)
    requires error == if Keyless(entries[0], trim) then NotKeyValue(index + 1) else BadPercent(index + 1)
    ensures FirstBad(entries, index, 0, error, trim, utf8)
  {
    hide StandsFor, Keyless;
  }

  lemma BadLater(entries: seq<Bytes>, index: nat, bad: nat, error: HeaderError, key: Bytes, bytes: Bytes,
                 trim: Bytes -> Bytes, utf8: Bytes -> bool)
    requires entries != [] && StandsFor(entries[0], key, bytes, trim, utf8)
    requires FirstBad(entries[1..], index + 1, bad, error, trim, utf8)
    ensures FirstBad(entries, index, bad + 1, error, trim, utf8)
  {
    assert IsHeader(entries[0], trim, utf8);
    hide IsHeader, Keyless;
    assert forall j :: 0 < j < |entries| ==> entries[j] == entries[1..][j - 1];
  }

  lemma NothingRead(headers: Headers)
    ensures LastCounts([], headers, headers)
  {
  }

  /** What a header variable gives. Without one, or with a blank one, there are no headers. Else its trimmed text is cut at
    * every comma: if each piece stands for a header these are the headers, the last of each key, and if not, the error
    * is about the first piece that does not, counted from one. */
  lemma VariableExactly(value: Option<Bytes>, trim: Bytes -> Bytes, utf8: Bytes -> bool)
    returns (pieces: seq<Bytes>, pairs: seq<(Bytes, Bytes)>, bad: nat)
    ensures var r := ParseOtlpHeaders(value, trim, utf8);
            if value.None? || trim(value.value) == [] then r == Ok(map[])
            else
              && pieces != [] && JoinedByCommas(pieces) == trim(value.value) && (forall piece :: piece in pieces ==> ',' !in piece)
              && (r.Ok? ==> AllStandFor(pieces, pairs, trim, utf8) && LastCounts(pairs, map[], r.value))
              && (r.Err? ==> FirstBad(pieces, 0, bad, r.error, trim, utf8))
  {
    hide ParseEntries, SplitOn, StandsFor, Keyless, LastCounts, JoinedByCommas;
    pieces, pairs, bad := [], [], 0;
    if value.Some? && trim(value.value) != [] {
      pieces := SplitOn(trim(value.value), ',');
      SplitIs(trim(value.value));
      pairs, bad := EntriesRead(pieces, 0, map[], trim, utf8);
    }
  }
}

/** Reading a process's swap from its status file in chunks (`linux.rs`). */
module SwapReader {
  import opened Prelude
  import Decimal

  const U64_MAX: int := 0xFFFF_FFFF_FFFF_FFFF
  const STATUS_READ_CHUNK_BYTES: nat := 4_096

  type Byte = c: char | c as int < 256 witness '0'

  // ---------- The parser of a whole text ----------

  const LABEL: seq<Byte> := "VmSwap:"

  /** The position of the first line end, or the length. */
  function LineEnd(text: seq<Byte>): (n: nat)
    ensures n <= |text| && (n < |text| ==> text[n] == '\n')
    ensures forall i :: 0 <= i < n ==> text[i] != '\n'
  {
    if text == [] || text[0] == '\n' then 0 else 1 + LineEnd(text[1..])
  }

  /** What follows `VmSwap:` on the first line that starts with it. */
  function VmSwapValue(text: seq<Byte>): Option<seq<Byte>>
    decreases |text|
  {
    var n := LineEnd(text);
    if LABEL <= text[..n] then Some(text[|LABEL|..n])
    else if n == |text| then None
    else VmSwapValue(text[n + 1..])
  }

  predicate IsAsciiSpace(c: char) {
    c == ' ' || c == '\t' || c == '\n' || c == '\r' || c as int == 12
  }

  function WordEnd(text: seq<Byte>): (n: nat)
    ensures n <= |text| && (n < |text| ==> IsAsciiSpace(text[n]))
    ensures forall i :: 0 <= i < n ==> !IsAsciiSpace(text[i])
  {
    if text == [] || IsAsciiSpace(text[0]) then 0 else 1 + WordEnd(text[1..])
  }

  /** The words between the white space. */
  function Words(text: seq<Byte>): seq<seq<Byte>>
    decreases |text|
  {
    if text == [] then []
    else if IsAsciiSpace(text[0]) then Words(text[1..])
    else [text[..WordEnd(text)]] + Words(text[WordEnd(text)..])
  }

  /** An optional `+` and digits. */
  function ParseU64(text: string): Option<int> {
    if text != [] && text[0] == '-' then None else Decimal.ParseInt(text, 0, U64_MAX)
  }

  /** Exactly a number of kibibytes and `kB`. A byte outside ASCII fits neither word. */
  function ParseVmSwapValue(value: seq<Byte>): Option<int> {
    var words := Words(value);
    if |words| != 2 || words[1] != "kB" then None
    else
      var kibibytes := ParseU64(words[0]);
      if kibibytes.None? || kibibytes.value * 1_024 > U64_MAX then None else Some(kibibytes.value * 1_024)
  }

  function ParseVmSwap(status: seq<Byte>): Option<int> {
    var value := VmSwapValue(status);
    if value.None? then None else ParseVmSwapValue(value.value)
  }

  // ---------- Whole lines decide ----------

  lemma FirstLine(text: seq<Byte>, line: seq<Byte>, rest: seq<Byte>)
    requires LineEnd(text) == |line| < |text| && text[..|line|] == line && text[|line| + 1..] == rest
    ensures VmSwapValue(text) == if LABEL <= line then Some(line[|LABEL|..]) else VmSwapValue(rest)
  {
    hide LineEnd;
    if LABEL <= line {
      assert text[|LABEL|..|line|] == line[|LABEL|..];
    }
  }

  lemma OnlyLine(text: seq<Byte>)
    requires LineEnd(text) == |text|
    ensures VmSwapValue(text) == if LABEL <= text then Some(text[|LABEL|..]) else None
  {
    hide LineEnd;
    assert text[..|text|] == text;
  }

  /** The lines of two texts joined by a line end: those of the first, then those of the second. */
  lemma {:induction false} ValueOfJoined(a: seq<Byte>, b: seq<Byte>)
    ensures VmSwapValue(a + ['\n'] + b) == if VmSwapValue(a).Some? then VmSwapValue(a) else VmSwapValue(b)
    decreases |a|
  {
    hide VmSwapValue, LineEnd;
    var text := a + ['\n'] + b;
    var n := LineEnd(a);
    JoinedLineEnd(a, b);
    assert text[..n] == a[..n];
    if n < |a| {
      assert text[n + 1..] == a[n + 1..] + ['\n'] + b;
      FirstLine(text, a[..n], text[n + 1..]);
      FirstLine(a, a[..n], a[n + 1..]);
      ValueOfJoined(a[n + 1..], b);
    } else {
      assert text[n + 1..] == b && a[..n] == a;
      FirstLine(text, a, b);
      OnlyLine(a);
    }
  }

  lemma {:induction false} JoinedLineEnd(a: seq<Byte>, b: seq<Byte>)
    ensures LineEnd(a + ['\n'] + b) == LineEnd(a)
  {
    var text := a + ['\n'] + b;
    if a != [] && a[0] != '\n' {
      assert text[1..] == a[1..] + ['\n'] + b;
      JoinedLineEnd(a[1..], b);
    }
  }

  /** A value found in the whole lines read so far is the value of the whole file, whatever follows. */
  lemma WholeLinesDecide(content: seq<Byte>, end: nat)
    requires end < |content| && content[end] == '\n' && VmSwapValue(content[..end]).Some?
    ensures VmSwapValue(content) == VmSwapValue(content[..end])
  {
    assert content == content[..end] + ['\n'] + content[end + 1..];
    ValueOfJoined(content[..end], content[end + 1..]);
  }

  // ---------- The line the kernel writes ----------

  lemma {:induction false} SpacesBefore(pad: seq<Byte>, rest: seq<Byte>)
    requires forall i :: 0 <= i < |pad| ==> IsAsciiSpace(pad[i])
    ensures Words(pad + rest) == Words(rest)
    decreases |pad|
  {
    if pad == [] {
      assert pad + rest == rest;
    } else {
      assert (pad + rest)[1..] == pad[1..] + rest;
      SpacesBefore(pad[1..], rest);
    }
  }

  lemma {:induction false} WordEnds(word: seq<Byte>, rest: seq<Byte>)
    requires forall i :: 0 <= i < |word| ==> !IsAsciiSpace(word[i])
    requires rest == [] || IsAsciiSpace(rest[0])
    ensures WordEnd(word + rest) == |word|
    decreases |word|
  {
    if word == [] {
      assert word + rest == rest;
    } else {
      assert (word + rest)[1..] == word[1..] + rest;
      WordEnds(word[1..], rest);
    }
  }

  lemma WordBefore(word: seq<Byte>, rest: seq<Byte>)
    requires word != [] && forall i :: 0 <= i < |word| ==> !IsAsciiSpace(word[i])
    requires rest == [] || IsAsciiSpace(rest[0])
    ensures Words(word + rest) == [word] + Words(rest)
  {
    WordEnds(word, rest);
    assert (word + rest)[0] == word[0];
    assert (word + rest)[..|word|] == word && (word + rest)[|word|..] == rest;
  }

  function DigitsOf(n: nat): (r: seq<Byte>)
    ensures r == Decimal.PrintNat(n)
  {
    var text := Decimal.PrintNat(n);
    assert forall i :: 0 <= i < |text| ==> text[i] in text;
    seq(|text|, i requires 0 <= i < |text| => text[i])
  }

  /** `VmSwap:`, padding, the number of kibibytes and the unit. */
  function SwapLine(pad: seq<Byte>, kibibytes: nat): seq<Byte> { LABEL + pad + DigitsOf(kibibytes) + " kB" }

  ghost predicate IsWord(text: seq<Byte>) { text != [] && forall i :: 0 <= i < |text| ==> !IsAsciiSpace(text[i]) }

  lemma TwoWords(pad: seq<Byte>, first: seq<Byte>, second: seq<Byte>)
    requires IsWord(first) && IsWord(second) && forall i :: 0 <= i < |pad| ==> IsAsciiSpace(pad[i])
    ensures Words(pad + first + ([' '] + second)) == [first, second]
  {
    assert Words([]) == [];
    hide Words;
    assert pad + first + ([' '] + second) == pad + (first + ([' '] + second));
    SpacesBefore(pad, first + ([' '] + second));
    WordBefore(first, [' '] + second);
    SpacesBefore([' '], second);
    assert second == second + [];
    WordBefore(second, []);
  }

  lemma DigitsAreWord(n: nat)
    ensures IsWord(DigitsOf(n))
  {
    var digits: seq<Byte> := DigitsOf(n);
    assert forall i :: 0 <= i < |digits| ==> digits[i] in Decimal.PrintNat(n);
  }

  lemma DigitsParse(n: nat)
    ensures ParseU64(DigitsOf(n)) == if n <= U64_MAX then Some(n) else None
  {
    assert Decimal.PrintInt(n) == Decimal.PrintNat(n);
    assert Decimal.PrintNat(n)[0] in Decimal.PrintNat(n);
    Decimal.ParseOfPrint(n, 0, U64_MAX);
  }

  lemma SwapLineValue(pad: seq<Byte>, kibibytes: nat)
    requires forall i :: 0 <= i < |pad| ==> IsAsciiSpace(pad[i])
    ensures ParseVmSwapValue(pad + DigitsOf(kibibytes) + " kB")
         == if kibibytes * 1_024 <= U64_MAX then Some(kibibytes * 1_024) else None
  {
    var unit: seq<Byte> := " kB";
    assert unit == [' '] + "kB";
    DigitsAreWord(kibibytes);
    DigitsParse(kibibytes);
    hide Words, ParseU64, DigitsOf;
    TwoWords(pad, DigitsOf(kibibytes), "kB");
  }

  lemma {:induction false} NoLineEnd(line: seq<Byte>)
    requires forall i :: 0 <= i < |line| ==> line[i] != '\n'
    ensures LineEnd(line) == |line|
  {
    if line != [] {
      NoLineEnd(line[1..]);
    }
  }

  lemma LineHasValue(pad: seq<Byte>, kibibytes: nat)
    requires forall i :: 0 <= i < |pad| ==> IsAsciiSpace(pad[i]) && pad[i] != '\n'
    ensures VmSwapValue(SwapLine(pad, kibibytes)) == Some(pad + DigitsOf(kibibytes) + " kB")
  {
    var line := SwapLine(pad, kibibytes);
    var value: seq<Byte> := pad + DigitsOf(kibibytes) + " kB";
    assert line == LABEL + value;
    assert forall i :: 0 <= i < |DigitsOf(kibibytes)| ==> DigitsOf(kibibytes)[i] in Decimal.PrintNat(kibibytes);
    NoLineEnd(line);
    assert line[..|line|] == line && line[|LABEL|..|line|] == value;
  }

  /** A line with a value, whether more lines follow or not. */
  lemma LineThenRest(line: seq<Byte>, after: seq<Byte>)
    requires VmSwapValue(line).Some? && (after == [] || after[0] == '\n')
    ensures VmSwapValue(line + after) == VmSwapValue(line)
  {
    hide VmSwapValue;
    if after == [] {
      assert line + after == line;
    } else {
      assert line + after == line + ['\n'] + after[1..];
      ValueOfJoined(line, after[1..]);
    }
  }

  /** Lines without a value, then a text. */
  lemma LinesThenRest(before: seq<Byte>, rest: seq<Byte>)
    requires VmSwapValue(before).None? && (before == [] || before[|before| - 1] == '\n')
    ensures VmSwapValue(before + rest) == VmSwapValue(rest)
  {
    hide VmSwapValue;
    if before == [] {
      assert before + rest == rest;
    } else {
      var lines := before[..|before| - 1];
      assert before == lines + ['\n'] + [];
      ValueOfJoined(lines, []);
      assert before + rest == lines + ['\n'] + rest;
      ValueOfJoined(lines, rest);
    }
  }

  /** The figure of a text is that of its first swap line, in bytes, exactly when that fits 64 bits: whatever whole lines
    * come before it, and whether its own line is ended or the last thing there is. */
  lemma FigureOfFirstLine(before: seq<Byte>, pad: seq<Byte>, kibibytes: nat, after: seq<Byte>)
    requires VmSwapValue(before).None? && (before == [] || before[|before| - 1] == '\n')
    requires forall i :: 0 <= i < |pad| ==> IsAsciiSpace(pad[i]) && pad[i] != '\n'
    requires after == [] || after[0] == '\n'
    ensures ParseVmSwap(before + (SwapLine(pad, kibibytes) + after))
         == if kibibytes * 1_024 <= U64_MAX then Some(kibibytes * 1_024) else None
  {
    hide VmSwapValue, ParseVmSwapValue, SwapLine, IsAsciiSpace, DigitsOf;
    LineHasValue(pad, kibibytes);
    LineThenRest(SwapLine(pad, kibibytes), after);
    LinesThenRest(before, SwapLine(pad, kibibytes) + after);
    SwapLineValue(pad, kibibytes);
  }

  // ---------- The reader ----------

  /** What one call of `read` does: asks again, fails, or gives at most `count` bytes, at least one if any is left. */
  datatype ReadOutcome = Interrupted | Broken | Upto(count: nat)

  /** A status file: whether it opens, its bytes, and how its reads go; later reads give all they can. */
  datatype StatusFile = StatusFile(opens: bool, content: seq<Byte>, outcomes: seq<ReadOutcome>)

  /** No read of the file fails. */
  predicate Readable(file: StatusFile) { file.opens && Broken !in file.outcomes }

  /** The bytes one read gives into `space` bytes of buffer. */
  function BytesRead(outcome: ReadOutcome, left: nat, space: nat): nat
    requires outcome.Upto?
  {
    Min(Max(outcome.count, 1), Min(left, space))
  }

  /** How far the reads of a file get, from `filled` bytes in a buffer of `size`: to the end, or to the first that fails. */
  function Reads(outcomes: seq<ReadOutcome>, total: nat, filled: nat, size: nat): (r: (nat, bool))
    requires filled <= total && filled <= size
    ensures filled <= r.0 <= total
    decreases |outcomes|
  {
    if outcomes == [] then (total, false)
    else
      var room := if filled == size then size + STATUS_READ_CHUNK_BYTES else size;
      match outcomes[0]
      case Interrupted => Reads(outcomes[1..], total, filled, room)
      case Broken => (filled, true)
      case Upto(_) =>
        var read := BytesRead(outcomes[0], total - filled, room - filled);
        if read == 0 then (filled, false) else Reads(outcomes[1..], total, filled + read, room)
  }

  function LastEnd(text: seq<Byte>): (end: Option<nat>)
    ensures end.Some? ==> end.value < |text| && text[end.value] == '\n'
  {
    if text == [] then None
    else if text[|text| - 1] == '\n' then Some(|text| - 1)
    else LastEnd(text[..|text| - 1])
  }

  /** The swap value in the lines of a text that are whole. */
  function WholeLinesValue(text: seq<Byte>): Option<seq<Byte>> {
    var end := LastEnd(text);
    if end.Some? then VmSwapValue(text[..end.value]) else None
  }

  /** The swap of a file read into a buffer of `size` bytes. */
  function ReadSwap(file: StatusFile, size: nat): Option<int> {
    if !file.opens then None
    else
      var (filled, broken) := Reads(file.outcomes, |file.content|, 0, size);
      if broken && WholeLinesValue(file.content[..filled]).None? then None else ParseVmSwap(file.content)
  }

  lemma {:induction false} LastEndIsLast(text: seq<Byte>, i: nat)
    requires i < |text| && text[i] == '\n'
    ensures LastEnd(text).Some? && i <= LastEnd(text).value
  {
    if i < |text| - 1 {
      LastEndIsLast(text[..|text| - 1], i);
    }
  }

  /** A value in the whole lines of a part is that of the whole lines of more, and of everything. */
  lemma WholeLinesGrow(content: seq<Byte>, a: nat, b: nat)
    requires a <= b <= |content| && WholeLinesValue(content[..a]).Some?
    ensures WholeLinesValue(content[..b]) == WholeLinesValue(content[..a])
    ensures VmSwapValue(content) == WholeLinesValue(content[..a])
  {
    hide VmSwapValue;
    var part, more := content[..a], content[..b];
    var end := LastEnd(part).value;
    assert more[end] == '\n';
    LastEndIsLast(more, end);
    var last := LastEnd(more).value;
    assert part[..end] == content[..end] && more[..last] == content[..last];
    WholeLinesDecide(content, end);
    if end < last {
      assert content[..last][..end] == content[..end];
      WholeLinesDecide(content[..last], end);
    }
  }

  lemma {:induction false} ReadableNeverBreaks(outcomes: seq<ReadOutcome>, total: nat, filled: nat, size: nat)
    requires filled <= total && filled <= size && Broken !in outcomes
    ensures !Reads(outcomes, total, filled, size).1
    decreases |outcomes|
  {
    if outcomes != [] {
      var room := if filled == size then size + STATUS_READ_CHUNK_BYTES else size;
      assert outcomes[0] in outcomes && forall o :: o in outcomes[1..] ==> o in outcomes;
      match outcomes[0]
      case Interrupted => ReadableNeverBreaks(outcomes[1..], total, filled, room);
      case Upto(_) =>
        var read := BytesRead(outcomes[0], total - filled, room - filled);
        if read != 0 {
          ReadableNeverBreaks(outcomes[1..], total, filled + read, room);
        }
    }
  }

  /** The outcomes still to come. */
  function Left(outcomes: seq<ReadOutcome>, call: nat): seq<ReadOutcome> {
    if call <= |outcomes| then outcomes[call..] else []
  }

  function OutcomeAt(outcomes: seq<ReadOutcome>, call: nat, total: nat): ReadOutcome {
    if call < |outcomes| then outcomes[call] else Upto(total)
  }

  /** One read of the loop, as `Reads` has it. */
  lemma ReadsStep(outcomes: seq<ReadOutcome>, call: nat, total: nat, filled: nat, size: nat, room: nat)
    requires filled <= total && filled <= size && room == if filled == size then size + STATUS_READ_CHUNK_BYTES else size
    ensures call >= |outcomes| ==> OutcomeAt(outcomes, call, total).Upto?
    ensures var outcome, now := OutcomeAt(outcomes, call, total), Reads(Left(outcomes, call), total, filled, size);
            match outcome
            case Interrupted => now == Reads(Left(outcomes, call + 1), total, filled, room)
            case Broken => now == (filled, true)
            case Upto(_) =>
              var read := BytesRead(outcome, total - filled, room - filled);
              && filled + read <= total && filled + read <= room
              && (read == 0 <==> filled == total)
              && now == (if read == 0 then (total, false) else Reads(Left(outcomes, call + 1), total, filled + read, room))
  {
    if call < |outcomes| {
      assert Left(outcomes, call)[1..] == Left(outcomes, call + 1);
    }
  }

  /** The position of the last line end. */
  method LastLineEnd(text: seq<Byte>) returns (end: Option<nat>)
    ensures end == LastEnd(text)
    ensures end.Some? ==> end.value < |text| && text[end.value] == '\n'
    ensures forall i :: (if end.Some? then end.value + 1 else 0) <= i < |text| ==> text[i] != '\n'
  {
    var i := |text|;
    assert text[..|text|] == text;
    while i > 0
      invariant 0 <= i <= |text|
      invariant forall j :: i <= j < |text| ==> text[j] != '\n'
      invariant LastEnd(text[..i]) == LastEnd(text)
    {
      assert text[..i][..i - 1] == text[..i - 1];
      i := i - 1;
      if text[i] == '\n' {
        return Some(i);
      }
    }
    return None;
  }

  /** The buffer once `read` more bytes of the content are in it. */
  function Filled(status: seq<Byte>, content: seq<Byte>, filled: nat, read: nat): seq<Byte>
    requires filled + read <= |status| && filled + read <= |content|
  {
    status[..filled] + content[filled..filled + read] + status[filled + read..]
  }

  lemma ReadInto(status: seq<Byte>, content: seq<Byte>, filled: nat, read: nat)
    requires filled + read <= |status| && filled + read <= |content| && status[..filled] == content[..filled]
    ensures |Filled(status, content, filled, read)| == |status|
    ensures Filled(status, content, filled, read)[..filled + read] == content[..filled + read]
  {
  }

  /** The buffer with one more chunk of room. */
  function Grown(status: seq<Byte>): seq<Byte> { status + seq(STATUS_READ_CHUNK_BYTES, _ => '\0') }

  lemma GrownKeeps(status: seq<Byte>, filled: nat)
    requires filled <= |status|
    ensures |Grown(status)| == |status| + STATUS_READ_CHUNK_BYTES && Grown(status)[..filled] == status[..filled]
  {
  }

  lemma NothingWhole(content: seq<Byte>)
    ensures WholeLinesValue(content[..0]).None?
  {
  }

  /** What the reads of a file come to. */
  lemma ReadSwapIs(file: StatusFile, size: nat)
    ensures !file.opens ==> ReadSwap(file, size) == None && !Readable(file)
    ensures var (reach, broken) := Reads(file.outcomes, |file.content|, 0, size);
            file.opens ==>
              && ReadSwap(file, size) ==
                   (if broken && WholeLinesValue(file.content[..reach]).None? then None else ParseVmSwap(file.content))
              && (Readable(file) ==> !broken)
  {
    hide VmSwapValue, ParseVmSwap, LastEnd, WholeLinesValue, Reads;
    if Broken !in file.outcomes {
      ReadableNeverBreaks(file.outcomes, |file.content|, 0, size);
    }
  }

  lemma AllLeft(outcomes: seq<ReadOutcome>)
    ensures Left(outcomes, 0) == outcomes
  {
  }

  lemma Reached(outcomes: seq<ReadOutcome>, total: nat, filled: nat, size: nat)
    requires filled <= total && filled <= size
    ensures filled <= Reads(outcomes, total, filled, size).0 <= total
  {
  }

  lemma ValueParses(content: seq<Byte>, value: seq<Byte>)
    requires VmSwapValue(content) == Some(value)
    ensures ParseVmSwap(content) == ParseVmSwapValue(value)
  {
    hide VmSwapValue, ParseVmSwapValue;
  }

  /** The swap value, looked for up to the last line end. */
  method ValueSoFar(text: seq<Byte>) returns (value: Option<seq<Byte>>)
    ensures value == WholeLinesValue(text)
  {
    var end := LastLineEnd(text);
    value := if end.Some? then VmSwapValue(text[..end.value]) else None;
  }

  datatype SwapScanStats = SwapScanStats(pidsScanned: nat, pidsUnknown: nat)

  datatype ProcessFile = ProcessFile(pid: nat, file: StatusFile)

  /** The last known swap of each process, from the whole contents of the files. */
  function SwapByPid(processes: seq<ProcessFile>): map<nat, int> {
    if processes == [] then map[]
    else
      var before, last := SwapByPid(processes[..|processes| - 1]), processes[|processes| - 1];
      var swap := ParseVmSwap(last.file.content);
      if swap.Some? then before[last.pid := swap.value] else before
  }

  function UnknownCount(processes: seq<ProcessFile>): nat {
    if processes == [] then 0
    else
      UnknownCount(processes[..|processes| - 1])
      + if ParseVmSwap(processes[|processes| - 1].file.content).Some? then 0 else 1
  }

  class Scanner {
    /** One buffer for a whole pass; it grows and keeps stale bytes. */
    var status: seq<Byte>

    constructor ()
      ensures |status| == STATUS_READ_CHUNK_BYTES
    {
      status := seq(STATUS_READ_CHUNK_BYTES, _ => '\0');
    }

    /** Whatever the buffer held before and however the reads cut the file, the result is that of the whole content, unless a
      * read fails before its value was in the whole lines read: exactly then it is unknown. */
    method ReadProcessSwap(file: StatusFile) returns (swap: Option<int>)
      modifies this
      ensures |status| >= old(|status|)
      ensures swap == ReadSwap(file, old(|status|))
      ensures Readable(file) ==> swap == ParseVmSwap(file.content)
      ensures swap.Some? ==> file.opens && swap == ParseVmSwap(file.content)
    {
      hide VmSwapValue, ParseVmSwap, ParseVmSwapValue, LastEnd, WholeLinesValue, BytesRead, Reads, Left, Filled, Grown, ReadSwap,
           OutcomeAt, Readable;
      ReadSwapIs(file, |status|);
      if !file.opens {
        return None;
      }
      var content := file.content;
      ghost var (reach, broken) := Reads(file.outcomes, |content|, 0, |status|);
      var filled, call := 0, 0;
      NothingWhole(content);
      AllLeft(file.outcomes);
      while true
        invariant 0 <= filled <= |content| && filled <= |status| && 0 <= call
        invariant |status| >= old(|status|)
        invariant status[..filled] == content[..filled]
        invariant Reads(Left(file.outcomes, call), |content|, filled, |status|) == (reach, broken)
        invariant WholeLinesValue(content[..filled]).None?
        decreases if call < |file.outcomes| then |file.outcomes| - call else 0, |content| - filled
      {
        ghost var size := |status|;
        if filled == |status| {
          GrownKeeps(status, filled);
          status := Grown(status);
        }
        ReadsStep(file.outcomes, call, |content|, filled, size, |status|);
        var outcome := OutcomeAt(file.outcomes, call, |content|);
        call := call + 1;
        if outcome.Interrupted? {
          continue;
        }
        if outcome.Broken? {
          return None;
        }
        var read := BytesRead(outcome, |content| - filled, |status| - filled);
        if read == 0 {
          assert filled == |content| && content[..filled] == content;
          return ParseVmSwap(status[..filled]);
        }
        ReadInto(status, content, filled, read);
        status := Filled(status, content, filled, read);
        filled := filled + read;
        var value := ValueSoFar(status[..filled]);
        if value.Some? {
          Reached(Left(file.outcomes, call), |content|, filled, |status|);
          WholeLinesGrow(content, filled, reach);
          ValueParses(content, value.value);
          return ParseVmSwapValue(value.value);
        }
      }
    }

    /** A pass over all processes with one buffer. */
    method ScanProcessSwap(processes: seq<ProcessFile>) returns (swapByPid: map<nat, int>, stats: SwapScanStats)
      modifies this
      ensures stats.pidsScanned == |processes| && stats.pidsUnknown <= |processes|
      ensures (forall p :: p in processes ==> Readable(p.file)) ==>
                swapByPid == SwapByPid(processes) && stats.pidsUnknown == UnknownCount(processes)
      ensures forall pid :: pid in swapByPid ==>
                exists p :: p in processes && p.pid == pid && ParseVmSwap(p.file.content) == Some(swapByPid[pid])
    {
      swapByPid := map[];
      stats := SwapScanStats(0, 0);
      for i := 0 to |processes|
        invariant stats.pidsScanned == i && stats.pidsUnknown <= i
        invariant (forall p :: p in processes ==> Readable(p.file)) ==>
            swapByPid == SwapByPid(processes[..i]) && stats.pidsUnknown == UnknownCount(processes[..i])
        invariant forall pid :: pid in swapByPid ==>
            exists p :: p in processes && p.pid == pid && ParseVmSwap(p.file.content) == Some(swapByPid[pid])
      {
        assert processes[..i + 1][..i] == processes[..i];
        var process := processes[i];
        stats := stats.(pidsScanned := stats.pidsScanned + 1);
        var swap := ReadProcessSwap(process.file);
        if swap.Some? {
          swapByPid := swapByPid[process.pid := swap.value];
        } else {
          stats := stats.(pidsUnknown := stats.pidsUnknown + 1);
        }
      }
      assert processes[..|processes|] == processes;
    }
  }
}

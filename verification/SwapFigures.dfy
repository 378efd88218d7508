/** Which status files have a swap figure, and which: proofs about the parser of `SwapReader`. */
module SwapFigures {
  import opened Prelude
  import opened SwapReader
  import Decimal

  // ---------- The line ----------

  /** A line starts at `p`. */
  predicate LineStart(text: seq<Byte>, p: nat) { p <= |text| && (p == 0 || text[p - 1] == '\n') }

  /** A line at `p` starts with the label. */
  predicate LabelAt(text: seq<Byte>, p: nat) { LineStart(text, p) && p + 7 <= |text| && text[p..p + 7] == "VmSwap:" }

  /** From `p` to `e` goes the first line that starts with the label. */
  ghost predicate FirstSwapLine(text: seq<Byte>, p: nat, e: nat) {
    && LabelAt(text, p) && p + 7 <= e <= |text|
    && (forall i :: p <= i < e ==> text[i] != '\n') && (e < |text| ==> text[e] == '\n')
    && forall q: nat :: q < p ==> !LabelAt(text, q)
  }

  lemma LabelIs(line: seq<Byte>)
    ensures LABEL <= line <==> |line| >= 7 && line[..7] == "VmSwap:"
  {
  }

  /** What the first line decides. */
  lemma LabelOnFirstLine(text: seq<Byte>)
    ensures var n := LineEnd(text); LABEL <= text[..n] <==> LabelAt(text, 0)
  {
    var n := LineEnd(text);
    LabelIs(text[..n]);
    if LabelAt(text, 0) {
      assert forall i :: 0 <= i < 7 ==> text[0..7][i] == text[i] && "VmSwap:"[i] != '\n';
    }
    if n >= 7 {
      assert text[..n][..7] == text[0..7];
    }
  }

  /** No other line starts before the first one ends. */
  lemma LinesAfterFirst(text: seq<Byte>, q: nat)
    requires LineStart(text, q) && q > 0
    ensures q > LineEnd(text)
  {
    assert text[q - 1] == '\n';
  }

  lemma Shifted(text: seq<Byte>, n: nat, q: nat)
    requires n < |text| && text[n] == '\n' && n + 1 + q <= |text|
    ensures LabelAt(text[n + 1..], q) <==> LabelAt(text, n + 1 + q)
  {
    var rest := text[n + 1..];
    if q + 7 <= |rest| {
      assert rest[q..q + 7] == text[n + 1 + q..n + 1 + q + 7];
    }
  }

  /** There is a value exactly if some line starts with the label, and it is what follows the label on the first such. */
  lemma {:induction false} ValueExactly(text: seq<Byte>) returns (p: nat, e: nat)
    ensures var v := VmSwapValue(text);
            if v.None? then forall q: nat :: !LabelAt(text, q)
            else FirstSwapLine(text, p, e) && v.value == text[p + 7..e]
    decreases |text|
  {
    hide LABEL, LineEnd, LabelAt, FirstSwapLine;
    var n := LineEnd(text);
    LabelOnFirstLine(text);
    LabelLength();
    p, e := 0, n;
    if LABEL <= text[..n] {
      FirstLineHere(text);
    } else {
      if n < |text| {
        p, e := ValueExactly(text[n + 1..]);
        ShiftValue(text, text[n + 1..], n, p, e);
        p, e := n + 1 + p, n + 1 + e;
      } else {
        NoSecondLine(text);
      }
    }
  }

  lemma FirstLineHere(text: seq<Byte>)
    requires LABEL <= text[..LineEnd(text)]
    ensures FirstSwapLine(text, 0, LineEnd(text))
  {
    LabelOnFirstLine(text);
    LabelLength();
    hide LABEL, LabelAt, LineEnd;
  }

  lemma LabelLength()
    ensures |LABEL| == 7
  {
  }

  lemma NoSecondLine(text: seq<Byte>)
    requires LineEnd(text) == |text| && !LabelAt(text, 0)
    ensures forall q: nat :: !LabelAt(text, q)
  {
    forall q: nat
      ensures !LabelAt(text, q)
    {
      if q > 0 && LineStart(text, q) {
        LinesAfterFirst(text, q);
      }
    }
  }

  lemma ShiftValue(text: seq<Byte>, rest: seq<Byte>, n: nat, p: nat, e: nat)
    requires n == LineEnd(text) < |text| && rest == text[n + 1..] && !LabelAt(text, 0)
    ensures (forall q: nat :: !LabelAt(rest, q)) ==> forall q: nat :: !LabelAt(text, q)
    ensures FirstSwapLine(rest, p, e) ==>
              FirstSwapLine(text, n + 1 + p, n + 1 + e) && rest[p + 7..e] == text[n + 1 + p + 7..n + 1 + e]
  {
    hide LineEnd, LabelAt;
    if FirstSwapLine(rest, p, e) {
      LabelRoom(rest, p);
      SameSlice(text, rest, n, p, e);
      LabelsShift(text, rest, n, p);
      forall q: nat | q < n + 1 + p
        ensures !LabelAt(text, q)
      {
        LabelsShift(text, rest, n, q);
      }
    }
    if forall q: nat :: !LabelAt(rest, q) {
      forall q: nat
        ensures !LabelAt(text, q)
      {
        LabelsShift(text, rest, n, q);
      }
    }
  }

  lemma LabelRoom(text: seq<Byte>, p: nat)
    requires LabelAt(text, p)
    ensures p + 7 <= |text|
  {
  }

  lemma LabelsShift(text: seq<Byte>, rest: seq<Byte>, n: nat, q: nat)
    requires n == LineEnd(text) < |text| && rest == text[n + 1..] && !LabelAt(text, 0)
    ensures LabelAt(text, q) ==> q > n && LabelAt(rest, q - n - 1)
    ensures LabelAt(rest, q) ==> LabelAt(text, n + 1 + q)
  {
    hide LineEnd;
    if LabelAt(text, q) {
      LinesAfterFirst(text, q);
      Shifted(text, n, q - n - 1);
    }
    if LabelAt(rest, q) {
      Shifted(text, n, q);
    }
  }

  lemma SameSlice(text: seq<Byte>, rest: seq<Byte>, n: nat, p: nat, e: nat)
    requires n < |text| && rest == text[n + 1..] && p + 7 <= e <= |rest|
    requires (forall i :: p <= i < e ==> rest[i] != '\n') && (e < |rest| ==> rest[e] == '\n')
    ensures |text| == n + 1 + |rest|
    ensures (forall i :: n + 1 + p <= i < n + 1 + e ==> text[i] != '\n') && (e < |rest| ==> text[n + 1 + e] == '\n')
    ensures rest[p + 7..e] == text[n + 1 + p + 7..n + 1 + e]
  {
    assert forall i :: n + 1 <= i < |text| ==> text[i] == rest[i - n - 1];
  }

  // ---------- The words ----------

  /** Space, tab, line feed, carriage return, form feed. */
  predicate IsBlank(c: char) { c == ' ' || c == '\t' || c == '\n' || c == '\r' || c as int == 12 }

  predicate Blank(text: seq<Byte>) { forall i :: 0 <= i < |text| ==> IsBlank(text[i]) }

  predicate Unbroken(text: seq<Byte>) { text != [] && forall i :: 0 <= i < |text| ==> !IsBlank(text[i]) }

  /** `value` holds the words `first` and `second`, blanks between them and perhaps around them. */
  ghost predicate TwoWordsIn(value: seq<Byte>, pad: seq<Byte>, first: seq<Byte>, gap: seq<Byte>, second: seq<Byte>, trail: seq<Byte>) {
    && value == pad + (first + (gap + (second + trail)))
    && Blank(pad) && Blank(gap) && gap != [] && Blank(trail) && Unbroken(first) && Unbroken(second)
  }

  lemma BlankIs(text: seq<Byte>)
    ensures Blank(text) <==> forall i :: 0 <= i < |text| ==> IsAsciiSpace(text[i])
    ensures Unbroken(text) <==> IsWord(text)
  {
    assert forall i :: 0 <= i < |text| ==> (IsBlank(text[i]) <==> IsAsciiSpace(text[i]));
  }

  /** The words of a text from its first one on. */
  lemma {:induction false} FirstWord(text: seq<Byte>) returns (pad: seq<Byte>, word: seq<Byte>, rest: seq<Byte>)
    ensures Blank(pad)
    ensures Words(text) == [] ==> pad == text
    ensures Words(text) != [] ==>
              && text == pad + (word + rest) && Unbroken(word) && (rest == [] || IsAsciiSpace(rest[0]))
              && Words(text) == [word] + Words(rest)
    decreases |text|
  {
    pad, word, rest := [], [], [];
    if text != [] {
      if IsAsciiSpace(text[0]) {
        pad, word, rest := FirstWord(text[1..]);
        assert text == [text[0]] + text[1..];
        pad := [text[0]] + pad;
      } else {
        var n := WordEnd(text);
        word, rest := text[..n], text[n..];
        assert n > 0;
        BlankIs(word);
        assert text == [] + (word + rest);
      }
    }
  }

  lemma BlanksOnly(text: seq<Byte>)
    requires Blank(text)
    ensures Words(text) == []
  {
    BlankIs(text);
    SpacesBefore(text, []);
    assert text + [] == text && Words([]) == [];
  }

  /** Two words are read exactly from texts that hold two words and blanks. */
  lemma TwoWordsExactly(value: seq<Byte>, first: seq<Byte>, second: seq<Byte>)
    ensures Words(value) == [first, second] <==> exists pad, gap, trail :: TwoWordsIn(value, pad, first, gap, second, trail)
  {
    hide Blank, Unbroken, IsAsciiSpace;
    if Words(value) == [first, second] {
      SplitInTwo(value, first, second);
    }
    forall pad, gap, trail | TwoWordsIn(value, pad, first, gap, second, trail)
      ensures Words(value) == [first, second]
    {
      ReadTwo(value, pad, first, gap, second, trail);
    }
  }

  lemma SplitInTwo(value: seq<Byte>, first: seq<Byte>, second: seq<Byte>)
    requires Words(value) == [first, second]
    ensures exists pad, gap, trail :: TwoWordsIn(value, pad, first, gap, second, trail)
  {
    hide Words, Blank, Unbroken, IsAsciiSpace;
    var pad, a, rest := FirstWord(value);
    assert ([a] + Words(rest))[0] == a && ([a] + Words(rest))[1..] == Words(rest);
    assert a == first && Words(rest) == [second];
    var gap, b, tail := FirstWord(rest);
    assert ([b] + Words(tail))[0] == b && ([b] + Words(tail))[1..] == Words(tail);
    assert b == second && Words(tail) == [];
    var trail, _, _ := FirstWord(tail);
    GapNotEmpty(gap, b, tail, rest);
    assert TwoWordsIn(value, pad, first, gap, second, trail);
  }

  lemma GapNotEmpty(gap: seq<Byte>, word: seq<Byte>, tail: seq<Byte>, rest: seq<Byte>)
    requires rest == gap + (word + tail) && Unbroken(word) && (rest == [] || IsAsciiSpace(rest[0]))
    ensures gap != []
  {
    BlankIs(word);
    assert (word + tail)[0] == word[0] && [] + (word + tail) == word + tail;
  }

  lemma ReadTwo(value: seq<Byte>, pad: seq<Byte>, first: seq<Byte>, gap: seq<Byte>, second: seq<Byte>, trail: seq<Byte>)
    requires TwoWordsIn(value, pad, first, gap, second, trail)
    ensures Words(value) == [first, second]
  {
    BlankIs(pad);
    BlankIs(gap);
    BlankIs(first);
    BlankIs(second);
    BlankIs(trail);
    BlanksOnly(trail);
    hide Words, Blank, Unbroken, IsAsciiSpace;
    SpacesBefore(pad, first + (gap + (second + trail)));
    WordBefore(first, gap + (second + trail));
    SpacesBefore(gap, second + trail);
    WordBefore(second, trail);
  }

  // ---------- The figure ----------

  /** An optional plus, any number of zeros, and the digits of `n`. */
  ghost predicate SpellsUnsigned(text: seq<Byte>, n: nat) {
    exists sign, zeros: nat :: (sign == "" || sign == "+") && text == sign + Decimal.Zeros(zeros) + Decimal.PrintNat(n)
  }

  lemma UnsignedExactly(text: seq<Byte>, n: int)
    ensures ParseU64(text) == Some(n) <==> 0 <= n <= 0xFFFF_FFFF_FFFF_FFFF && SpellsUnsigned(text, n)
  {
    hide Decimal.ParseInt, Decimal.PrintNat, Decimal.Zeros;
    Decimal.ParsesExactly(text, 0, U64_MAX, n);
    if ParseU64(text) == Some(n) {
      var sign, zeros: nat :| Decimal.SpelledWith(text, n, sign, zeros);
      assert text[..|sign|] == sign;
      assert |sign| > 0 ==> text[0] == sign[0];
    }
    if 0 <= n && SpellsUnsigned(text, n) {
      var sign, zeros: nat :| (sign == "" || sign == "+") && text == sign + Decimal.Zeros(zeros) + Decimal.PrintNat(n);
      assert Decimal.SpelledWith(text, n, sign, zeros);
      FirstIsNoMinus(sign, zeros, n);
    }
  }

  lemma FirstIsNoMinus(sign: string, zeros: nat, n: nat)
    requires sign == "" || sign == "+"
    ensures var text := sign + Decimal.Zeros(zeros) + Decimal.PrintNat(n); text != [] && text[0] != '-'
  {
    var digits := Decimal.PrintNat(n);
    assert digits[0] in digits;
    hide Decimal.PrintNat;
    if zeros > 0 {
      assert Decimal.Zeros(zeros)[0] == '0';
    } else {
      assert sign + Decimal.Zeros(zeros) + digits == sign + digits;
    }
  }

  /** A value is `kibibytes` of swap: a number, blanks, and the unit. */
  ghost predicate SaysKibibytes(value: seq<Byte>, kibibytes: nat) {
    exists pad, first, gap, trail :: TwoWordsIn(value, pad, first, gap, "kB", trail) && SpellsUnsigned(first, kibibytes)
  }

  lemma ValueFigure(value: seq<Byte>, figure: int)
    ensures ParseVmSwapValue(value) == Some(figure) <==>
            figure <= 0xFFFF_FFFF_FFFF_FFFF && exists kibibytes: nat :: SaysKibibytes(value, kibibytes) && figure == kibibytes * 1_024
  {
    hide Words, ParseU64, SpellsUnsigned, TwoWordsIn;
    var words := Words(value);
    if ParseVmSwapValue(value) == Some(figure) {
      var kibibytes := ParseU64(words[0]).value;
      assert words == [words[0], "kB"];
      TwoWordsExactly(value, words[0], "kB");
      var pad, gap, trail :| TwoWordsIn(value, pad, words[0], gap, "kB", trail);
      UnsignedExactly(words[0], kibibytes);
      assert SaysKibibytes(value, kibibytes);
    }
    if figure <= 0xFFFF_FFFF_FFFF_FFFF && exists kibibytes: nat :: SaysKibibytes(value, kibibytes) && figure == kibibytes * 1_024 {
      var kibibytes: nat :| SaysKibibytes(value, kibibytes) && figure == kibibytes * 1_024;
      var pad, first, gap, trail :| TwoWordsIn(value, pad, first, gap, "kB", trail) && SpellsUnsigned(first, kibibytes);
      TwoWordsExactly(value, first, "kB");
      UnsignedExactly(first, kibibytes);
    }
  }

  /** The first swap line goes from `p` to `e` and says `kibibytes`. */
  ghost predicate SaysAt(status: seq<Byte>, p: nat, e: nat, kibibytes: nat) {
    FirstSwapLine(status, p, e) && SaysKibibytes(status[p + 7..e], kibibytes)
  }

  /** A status text has a figure exactly if its first line that starts with `VmSwap:` goes on with a number of kibibytes
    * that fits 64 bits as bytes, and the unit `kB`, with blanks between; the figure is that number of bytes. */
  lemma FigureExactly(status: seq<Byte>, figure: int)
    ensures ParseVmSwap(status) == Some(figure) <==>
            && figure <= 0xFFFF_FFFF_FFFF_FFFF
            && exists p: nat, e: nat, kibibytes: nat ::
                 SaysAt(status, p, e, kibibytes) && figure == kibibytes * 1_024
  {
    hide VmSwapValue, ParseVmSwapValue, FirstSwapLine, SaysKibibytes;
    var p, e := ValueExactly(status);
    FirstLineBounds(status);
    var v := VmSwapValue(status);
    if v.Some? {
      ValueFigure(v.value, figure);
      forall kibibytes: nat
        ensures SaysAt(status, p, e, kibibytes) <==> SaysKibibytes(v.value, kibibytes)
      {
      }
      forall q: nat, f: nat | FirstSwapLine(status, q, f)
        ensures q == p && f == e
      {
        OneFirstLine(status, p, e, q, f);
      }
    } else {
      NoFirstLine(status);
    }
  }

  lemma FirstLineBounds(text: seq<Byte>)
    ensures forall p: nat, e: nat :: FirstSwapLine(text, p, e) ==> p + 7 <= e <= |text|
  {
  }

  lemma NoFirstLine(text: seq<Byte>)
    requires forall q: nat :: !LabelAt(text, q)
    ensures forall p: nat, e: nat :: !FirstSwapLine(text, p, e)
  {
    hide LabelAt;
  }

  lemma OneFirstLine(text: seq<Byte>, p: nat, e: nat, q: nat, f: nat)
    requires FirstSwapLine(text, p, e) && FirstSwapLine(text, q, f)
    ensures p == q && e == f
  {
    hide LabelAt;
  }

  // ---------- The pass ----------

  /** In a pass, a process keeps the last of its known figures, and has one exactly if one was known. */
  lemma {:induction false} PassFigures(processes: seq<ProcessFile>, pid: nat)
    ensures pid in SwapByPid(processes) <==>
            exists i :: 0 <= i < |processes| && processes[i].pid == pid && ParseVmSwap(processes[i].file.content).Some?
    ensures forall i :: 0 <= i < |processes| && processes[i].pid == pid && ParseVmSwap(processes[i].file.content).Some?
              && (forall j :: i < j < |processes| && processes[j].pid == pid ==> ParseVmSwap(processes[j].file.content).None?)
              ==> SwapByPid(processes)[pid] == ParseVmSwap(processes[i].file.content).value
    decreases |processes|
  {
    hide ParseVmSwap;
    if processes != [] {
      var init := processes[..|processes| - 1];
      PassFigures(init, pid);
      assert forall i :: 0 <= i < |init| ==> init[i] == processes[i];
    }
  }

  /** The places of the processes without a known figure. */
  function Unknown(processes: seq<ProcessFile>): set<int> {
    set i | 0 <= i < |processes| && ParseVmSwap(processes[i].file.content).None?
  }

  lemma UnknownStep(processes: seq<ProcessFile>, init: seq<ProcessFile>, last: ProcessFile)
    requires processes == init + [last]
    ensures Unknown(processes) == Unknown(init) + if ParseVmSwap(last.file.content).None? then {|init|} else {}
    ensures |init| !in Unknown(init)
  {
    hide ParseVmSwap;
    forall i
      ensures i in Unknown(processes) <==> i in Unknown(init) || (i == |init| && ParseVmSwap(last.file.content).None?)
    {
    }
  }

  /** A pass counts each process without a known figure once. */
  lemma {:induction false} PassUnknown(processes: seq<ProcessFile>)
    ensures UnknownCount(processes) == |Unknown(processes)|
    decreases |processes|
  {
    hide ParseVmSwap, Unknown;
    if processes == [] {
      NothingUnknown();
    } else {
      var init, last := processes[..|processes| - 1], processes[|processes| - 1];
      PassUnknown(init);
      assert processes == init + [last];
      UnknownStep(processes, init, last);
    }
  }

  lemma NothingUnknown()
    ensures Unknown([]) == {}
  {
  }
}

/** Printing and parsing decimal integers as Rust's formatter and `str::parse` do. */
module Decimal {
  import opened Prelude

  function Digit(d: nat): char
    requires d < 10
  {
    '0' + d as char
  }

  predicate IsDigit(c: char) { '0' <= c <= '9' }

  function DigitValue(c: char): nat
    requires IsDigit(c)
  {
    (c - '0') as nat
  }

  lemma DigitRoundTrip(d: nat)
    requires d < 10
    ensures IsDigit(Digit(d)) && DigitValue(Digit(d)) == d
  {
  }

  function PrintNat(n: nat): (text: string)
    ensures text != [] && forall c :: c in text ==> IsDigit(c)
  {
    DigitRoundTrip(n % 10);
    if n < 10 then [Digit(n)] else PrintNat(n / 10) + [Digit(n % 10)]
  }

  function PrintInt(n: int): string {
    if n < 0 then "-" + PrintNat(-n) else PrintNat(n)
  }

  predicate AllDigits(text: string) { forall c :: c in text ==> IsDigit(c) }

  /** The value of a digit string. */
  function Value(text: string): nat
    requires AllDigits(text)
  {
    if text == [] then 0 else 10 * Value(text[..|text| - 1]) + DigitValue(text[|text| - 1])
  }

  /** An optional sign, then at least one digit, within the given bounds. */
  function ParseInt(text: string, lo: int, hi: int): Option<int> {
    var negative := text != [] && text[0] == '-';
    var digits := if text != [] && (text[0] == '-' || text[0] == '+') then text[1..] else text;
    if digits == [] || !AllDigits(digits) then None
    else
      var value: int := Value(digits);
      var n := if negative then -value else value;
      if lo <= n <= hi then Some(n) else None
  }

  function ParseI64(text: string): Option<int> { ParseInt(text, I64_MIN, I64_MAX) }

  lemma {:induction false} ValueOfPrint(n: nat)
    ensures Value(PrintNat(n)) == n
  {
    DigitRoundTrip(n % 10);
    if n < 10 {
      assert PrintNat(n)[..0] == [];
    } else {
      ValueOfPrint(n / 10);
      assert PrintNat(n)[..|PrintNat(n)| - 1] == PrintNat(n / 10);
    }
  }

  /** A digit string, with or without a minus sign, parses to its value. */
  lemma ParseSigned(digits: string, lo: int, hi: int)
    requires digits != [] && AllDigits(digits)
    ensures var v: int := Value(digits);
            && ParseInt(digits, lo, hi) == (if lo <= v <= hi then Some(v) else None)
            && ParseInt("-" + digits, lo, hi) == (if lo <= -v <= hi then Some(-v) else None)
  {
    hide Value;
    assert digits[0] in digits;
    assert ("-" + digits)[1..] == digits;
  }

  /** Parsing a printed integer gives it back exactly when it is within the bounds. */
  lemma ParseOfPrint(n: int, lo: int, hi: int)
    ensures ParseInt(PrintInt(n), lo, hi) == if lo <= n <= hi then Some(n) else None
  {
    hide Value, ParseInt, PrintNat;
    if n < 0 {
      ValueOfPrint(-n);
      ParseSigned(PrintNat(-n), lo, hi);
    } else {
      ValueOfPrint(n);
      ParseSigned(PrintNat(n), lo, hi);
    }
  }

  /** Different integers print differently. */
  lemma PrintInjective(a: int, b: int)
    requires PrintInt(a) == PrintInt(b)
    ensures a == b
  {
    ParseOfPrint(a, Min(a, b), Max(a, b));
    ParseOfPrint(b, Min(a, b), Max(a, b));
  }

  function Zeros(n: nat): string { if n == 0 then "" else "0" + Zeros(n - 1) }

  /** `text` is a decimal spelling of `n`: an optional plus or a minus, any number of zeros, and the digits. */
  ghost predicate Spells(text: string, n: int) {
    exists sign, zeros: nat :: SpelledWith(text, n, sign, zeros)
  }

  ghost predicate SpelledWith(text: string, n: int, sign: string, zeros: nat) {
    && text == sign + Zeros(zeros) + PrintNat(if n < 0 then -n else n)
    && (sign == "-" || (n >= 0 && (sign == "" || sign == "+")))
    && (sign == "-" ==> n <= 0)
  }

  lemma {:induction false} DigitsSpell(digits: string) returns (zeros: nat)
    requires digits != [] && AllDigits(digits)
    ensures digits == Zeros(zeros) + PrintNat(Value(digits))
    decreases |digits|
  {
    var last := digits[|digits| - 1];
    assert last in digits && Digit(DigitValue(last)) == last;
    var init := digits[..|digits| - 1];
    assert digits == init + [last];
    if init == [] {
      zeros := 0;
      assert Value(digits) == DigitValue(last);
    } else {
      zeros := DigitsSpell(init);
      var high := Value(init);
      LastDigit(digits, init, last, zeros, high);
      if high == 0 {
        ZerosSnoc(zeros);
        assert PrintNat(0) == "0";
        zeros := zeros + 1;
      }
    }
  }

  lemma LastDigit(digits: string, init: string, last: char, zeros: nat, high: nat)
    requires digits == init + [last] && AllDigits(digits) && AllDigits(init) && init == Zeros(zeros) + PrintNat(high)
    requires high == Value(init)
    ensures Value(digits) == 10 * high + DigitValue(last)
    ensures high > 0 ==> digits == Zeros(zeros) + PrintNat(Value(digits))
    ensures high == 0 ==> digits == Zeros(zeros) + "0" + PrintNat(Value(digits))
  {
    assert last in digits && Digit(DigitValue(last)) == last;
    assert digits[..|digits| - 1] == init;
    var v := Value(digits);
    assert v / 10 == high && v % 10 == DigitValue(last);
    if high > 0 {
      assert PrintNat(v) == PrintNat(high) + [last];
    } else {
      assert PrintNat(0) == "0" && PrintNat(v) == [last];
    }
  }

  lemma {:induction false} ZerosSnoc(n: nat)
    ensures Zeros(n) + "0" == Zeros(n + 1)
  {
    if n > 0 {
      ZerosSnoc(n - 1);
      assert Zeros(n) + "0" == "0" + (Zeros(n - 1) + "0");
    }
  }

  lemma {:induction false} ZerosValue(zeros: nat, n: nat)
    ensures AllDigits(Zeros(zeros) + PrintNat(n)) && Value(Zeros(zeros) + PrintNat(n)) == n
    decreases zeros, n
  {
    var text := Zeros(zeros) + PrintNat(n);
    ZerosAreDigits(zeros);
    if n >= 10 {
      ZerosValue(zeros, n / 10);
      assert text[..|text| - 1] == Zeros(zeros) + PrintNat(n / 10);
      DigitRoundTrip(n % 10);
    } else {
      DigitRoundTrip(n);
      assert text[..|text| - 1] == Zeros(zeros);
      if zeros > 0 {
        ZerosValue(zeros - 1, 0);
        ZerosSnoc(zeros - 1);
        assert PrintNat(0) == "0";
      } else {
        assert text[..|text| - 1] == [];
      }
    }
  }

  lemma {:induction false} ZerosAreDigits(n: nat)
    ensures AllDigits(Zeros(n))
  {
    if n > 0 {
      ZerosAreDigits(n - 1);
    }
  }

  /** Parsing gives `n` exactly when `n` is within the bounds and the text spells it. */
  lemma ParsesExactly(text: string, lo: int, hi: int, n: int)
    ensures ParseInt(text, lo, hi) == Some(n) <==> lo <= n <= hi && Spells(text, n)
  {
    hide PrintNat, Value, Zeros, Spells;
    if ParseInt(text, lo, hi) == Some(n) {
      ParsedSpells(text, lo, hi, n);
    }
    if lo <= n <= hi && Spells(text, n) {
      SpellingParses(text, lo, hi, n);
    }
  }

  lemma ParsedSpells(text: string, lo: int, hi: int, n: int)
    requires ParseInt(text, lo, hi) == Some(n)
    ensures Spells(text, n)
  {
    hide PrintNat, Value, Zeros;
    var signed := text[0] == '-' || text[0] == '+';
    var digits := if signed then text[1..] else text;
    var sign := if signed then text[..1] else "";
    var zeros := DigitsSpell(digits);
    assert text == sign + digits;
    assert text == sign + Zeros(zeros) + PrintNat(Value(digits));
    assert SpelledWith(text, n, sign, zeros);
  }

  lemma SpellingParses(text: string, lo: int, hi: int, n: int)
    requires lo <= n <= hi && Spells(text, n)
    ensures ParseInt(text, lo, hi) == Some(n)
  {
    hide PrintNat, Value, Zeros;
    var sign, zeros: nat :| SpelledWith(text, n, sign, zeros);
    var m := if n < 0 then -n else n;
    var digits := Zeros(zeros) + PrintNat(m);
    ZerosValue(zeros, m);
    assert text == sign + digits;
    assert digits != [] && digits[0] in digits;
    if sign != "" {
      assert text[1..] == digits;
    } else {
      assert text == digits;
    }
  }
}

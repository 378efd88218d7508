/** UTC months: their names, their order as strings, and their bounds (`month_bounds` of `archive.rs`). */
module Months {
  import opened Prelude
  import opened Decimal

  const LAST_YEAR: int := 9_999

  // ---------- String order ----------

  /** Rust's order on strings: by the first difference, a prefix before its extensions. */
  predicate StrLess(a: string, b: string)
    decreases |a|
  {
    if b == [] then false
    else if a == [] then true
    else a[0] < b[0] || (a[0] == b[0] && StrLess(a[1..], b[1..]))
  }

  predicate StrAtMost(a: string, b: string) { a == b || StrLess(a, b) }

  lemma {:induction false} StrTotal(a: string, b: string)
    ensures StrLess(a, b) || a == b || StrLess(b, a)
    ensures !(StrLess(a, b) && StrLess(b, a)) && !StrLess(a, a)
    decreases |a|
  {
    if a != [] && b != [] {
      StrTotal(a[1..], b[1..]);
      StrTotal(a[1..], a[1..]);
      assert a == [a[0]] + a[1..] && b == [b[0]] + b[1..];
    } else if a != [] {
      StrTotal(a[1..], a[1..]);
    }
  }

  lemma {:induction false} StrTrans(a: string, b: string, c: string)
    requires StrLess(a, b) && StrLess(b, c)
    ensures StrLess(a, c)
    decreases |a|
  {
    if a != [] && a[0] == b[0] == c[0] {
      StrTrans(a[1..], b[1..], c[1..]);
    }
  }

  // ---------- Names ----------

  /** A month of the years 0000 to 9999, counted from January 0000. */
  predicate MonthIndex(k: int) { 0 <= k <= LAST_YEAR * 12 + 11 }

  function Digits2(n: nat): string
    requires n < 100
  {
    [Digit(n / 10), Digit(n % 10)]
  }

  /** `YYYY-MM`. */
  function Name(k: int): string
    requires MonthIndex(k)
  {
    Digits2(k / 12 / 100) + Digits2(k / 12 % 100) + "-" + Digits2(k % 12 + 1)
  }

  lemma Digits2Order(a: nat, b: nat, s: string, t: string)
    requires a < 100 && b < 100
    ensures StrLess(Digits2(a) + s, Digits2(b) + t) <==> a < b || (a == b && StrLess(s, t))
  {
    var x, y := Digits2(a) + s, Digits2(b) + t;
    assert x[1..][1..] == s && y[1..][1..] == t;
    assert x[0] == Digit(a / 10) && x[1..][0] == Digit(a % 10);
    assert y[0] == Digit(b / 10) && y[1..][0] == Digit(b % 10);
  }

  /** The order of the names is the order of the months. */
  lemma NameOrder(j: int, k: int)
    requires MonthIndex(j) && MonthIndex(k)
    ensures StrLess(Name(j), Name(k)) <==> j < k
    ensures Name(j) == Name(k) <==> j == k
  {
    NameLess(j, k);
    NameLess(k, j);
    StrTotal(Name(j), Name(k));
  }

  lemma NameLess(j: int, k: int)
    requires MonthIndex(j) && MonthIndex(k)
    ensures StrLess(Name(j), Name(k)) <==> j < k
  {
    var a, b := "-" + Digits2(j % 12 + 1), "-" + Digits2(k % 12 + 1);
    assert Name(j) == Digits2(j / 12 / 100) + (Digits2(j / 12 % 100) + a);
    assert Name(k) == Digits2(k / 12 / 100) + (Digits2(k / 12 % 100) + b);
    Digits2Order(j / 12 / 100, k / 12 / 100, Digits2(j / 12 % 100) + a, Digits2(k / 12 % 100) + b);
    Digits2Order(j / 12 % 100, k / 12 % 100, a, b);
    assert a[1..] == Digits2(j % 12 + 1) + [] && b[1..] == Digits2(k % 12 + 1) + [];
    Digits2Order(j % 12 + 1, k % 12 + 1, [], []);
  }

  // ---------- Bounds ----------

  predicate Leap(year: int) { year % 4 == 0 && (year % 100 != 0 || year % 400 == 0) }

  /** Days from the first of January 0000 to the first of January of `year`. */
  function DaysBeforeYear(year: int): int {
    365 * year + ((year - 1) / 4 - (year - 1) / 100 + (year - 1) / 400) + 1
  }

  function DaysBeforeMonth(year: int, month: int): int
    requires 1 <= month <= 12
  {
    [0, 31, 59, 90, 120, 151, 181, 212, 243, 273, 304, 334][month - 1] + (if month > 2 && Leap(year) then 1 else 0)
  }

  const DAYS_TO_EPOCH: int := 719_528

  /** Midnight UTC on the first of a month. */
  function StartMs(k: int): int {
    (DaysBeforeYear(k / 12) + DaysBeforeMonth(k / 12, k % 12 + 1) - DAYS_TO_EPOCH) * DAY_MS
  }

  lemma EpochIsZero()
    ensures StartMs(1970 * 12) == 0
  {
  }

  lemma YearLength(year: int)
    ensures DaysBeforeYear(year + 1) - DaysBeforeYear(year) == if Leap(year) then 366 else 365
    ensures Leap(year) <==> year % 4 == 0 && (year % 100 != 0 || year % 400 == 0)
  {
    DivStep(year, 4);
    DivStep(year, 100);
    DivStep(year, 400);
  }

  lemma DivStep(n: int, d: int)
    requires d > 0
    ensures n / d == (n - 1) / d + (if n % d == 0 then 1 else 0)
  {
    var q := (n - 1) / d;
    assert n - 1 == d * q + (n - 1) % d;
    if (n - 1) % d == d - 1 {
      assert n == d * (q + 1);
      QuotientIs(n, d, q + 1);
    } else {
      QuotientIs(n, d, q);
    }
  }

  lemma QuotientIs(n: int, d: int, q: int)
    requires d > 0 && d * q <= n < d * q + d
    ensures n / d == q && n % d == n - d * q
  {
    var p := n / d;
    assert n == d * p + n % d;
    assert d * (p - q) == d * p - d * q;
    assert p - q >= 1 ==> d * (p - q) >= d;
    assert p - q <= -1 ==> d * (p - q) <= -d;
  }

  /** A month lasts the days the calendar gives it. With the epoch at zero this determines every month start. */
  lemma MonthLength(k: int)
    ensures var year, month := k / 12, k % 12 + 1;
            var days := if month == 2 then if year % 4 == 0 && (year % 100 != 0 || year % 400 == 0) then 29 else 28
                        else if month == 4 || month == 6 || month == 9 || month == 11 then 30
                        else 31;
            StartMs(k + 1) - StartMs(k) == days * 86_400_000
    ensures 28 * DAY_MS <= StartMs(k + 1) - StartMs(k) <= 31 * DAY_MS
  {
    YearLength(k / 12);
    if k % 12 == 11 {
      assert (k + 1) / 12 == k / 12 + 1 && (k + 1) % 12 == 0;
    } else {
      assert (k + 1) / 12 == k / 12 && (k + 1) % 12 == k % 12 + 1;
    }
  }

  lemma {:induction false} StartsIncrease(j: int, k: int)
    requires j < k
    ensures StartMs(j) < StartMs(k)
    decreases k - j
  {
    MonthLength(k - 1);
    hide StartMs;
    if j < k - 1 {
      StartsIncrease(j, k - 1);
    }
  }

  /** The position of the first `-`. */
  function Dash(text: string, from: nat): Option<nat>
    requires from <= |text|
    decreases |text| - from
  {
    if from == |text| then None else if text[from] == '-' then Some(from) else Dash(text, from + 1)
  }

  /** The calendar date of the first of a month, within the years the date library has. */
  function UtcDateMs(year: int, month: int): Option<int>
    requires 1 <= month <= 12
  {
    if -LAST_YEAR <= year <= LAST_YEAR then Some(StartMs(12 * year + month - 1)) else None
  }

  /** The start of a month given by its numbers, and of the next one. */
  function DateBounds(year: int, month: int): Option<(int, int)> {
    if !(1 <= month <= 12) then None
    else
      var start := UtcDateMs(year, month);
      var next := if month == 12 then UtcDateMs(year + 1, 1) else UtcDateMs(year, month + 1);
      if start.None? || next.None? then None else Some((start.value, next.value))
  }

  /** The start of a named month and of the next one. */
  function MonthBounds(text: string): Option<(int, int)> {
    var dash := Dash(text, 0);
    if dash.None? || dash.value != 4 || |text| - 5 != 2 then None
    else
      var year := ParseInt(text[..4], -0x8000_0000, 0x7FFF_FFFF);
      var month := ParseInt(text[5..], 0, 255);
      if year.None? || month.None? then None else DateBounds(year.value, month.value)
  }

  lemma Digits2Value(n: nat, rest: string)
    requires n < 100 && AllDigits(rest)
    ensures AllDigits(rest + Digits2(n)) && Value(rest + Digits2(n)) == 100 * Value(rest) + n
  {
    DigitRoundTrip(n / 10);
    DigitRoundTrip(n % 10);
    var text := rest + Digits2(n);
    assert text[..|text| - 1] == rest + [Digit(n / 10)];
    assert (rest + [Digit(n / 10)])[..|rest|] == rest;
  }

  lemma ParseDigits(text: string, lo: int, hi: int)
    requires text != [] && AllDigits(text) && lo <= Value(text) <= hi
    ensures ParseInt(text, lo, hi) == Some(Value(text))
  {
    assert text[0] in text;
  }

  /** The month a well-formed name stands for. */
  function IndexOf(text: string): int {
    if |text| != 7 then -1
    else
      var year, month := ParseInt(text[..4], 0, LAST_YEAR), ParseInt(text[5..], 1, 12);
      if year.None? || month.None? then -1 else 12 * year.value + month.value - 1
  }

  lemma IndexOfName(k: int)
    requires MonthIndex(k)
    ensures IndexOf(Name(k)) == k
  {
    hide Name, Value, ParseInt;
    NameParts(k);
  }

  /** The two digit groups of a name. */
  lemma NameSlices(k: int)
    requires MonthIndex(k)
    ensures |Name(k)| == 7 && Name(k)[4] == '-'
    ensures Name(k)[..4] == Digits2(k / 12 / 100) + Digits2(k / 12 % 100) && Name(k)[5..] == Digits2(k % 12 + 1)
  {
  }

  lemma NameParts(k: int)
    requires MonthIndex(k)
    ensures |Name(k)| == 7 && Dash(Name(k), 0) == Some(4)
    ensures ParseInt(Name(k)[..4], -0x8000_0000, 0x7FFF_FFFF) == Some(k / 12)
    ensures ParseInt(Name(k)[5..], 0, 255) == Some(k % 12 + 1)
    ensures ParseInt(Name(k)[..4], 0, LAST_YEAR) == Some(k / 12) && ParseInt(Name(k)[5..], 1, 12) == Some(k % 12 + 1)
  {
    hide Digits2, Name, Dash, ParseInt;
    var year, month := k / 12, k % 12 + 1;
    var text := Name(k);
    NameSlices(k);
    Digits2Value(year / 100, []);
    assert [] + Digits2(year / 100) == Digits2(year / 100) && [] + Digits2(month) == Digits2(month);
    Digits2Value(year % 100, Digits2(year / 100));
    Digits2Value(month, []);
    DashIsFourth(text);
    ParseDigits(text[..4], -0x8000_0000, 0x7FFF_FFFF);
    ParseDigits(text[5..], 0, 255);
    ParseDigits(text[..4], 0, LAST_YEAR);
    ParseDigits(text[5..], 1, 12);
  }

  /** A named month runs from its own start to the start of the next; only the last month of year 9999 has no end. */
  lemma BoundsOfName(k: int)
    requires MonthIndex(k)
    ensures MonthBounds(Name(k)) == if MonthIndex(k + 1) then Some((StartMs(k), StartMs(k + 1))) else None
  {
    NameParts(k);
    DatesOfMonth(k);
    hide DateBounds, MonthIndex, StartMs, ParseInt, Name, Dash;
  }

  lemma DatesOfMonth(k: int)
    requires MonthIndex(k)
    ensures DateBounds(k / 12, k % 12 + 1) == if MonthIndex(k + 1) then Some((StartMs(k), StartMs(k + 1))) else None
  {
    hide StartMs;
    assert 12 * (k / 12) + (k % 12 + 1) - 1 == k;
    if k % 12 == 11 {
      assert 12 * (k / 12 + 1) + 1 - 1 == k + 1;
    }
  }

  lemma DashIsFourth(text: string)
    requires |text| == 7 && text[4] == '-' && AllDigits(text[..4])
    ensures Dash(text, 0) == Some(4)
  {
    forall i | 0 <= i < 4
      ensures text[i] != '-'
    {
      assert text[..4][i] in text[..4] && IsDigit(text[..4][i]);
    }
    assert Dash(text, 4) == Some(4);
    assert Dash(text, 3) == Some(4);
    assert Dash(text, 2) == Some(4);
    assert Dash(text, 1) == Some(4);
  }
}

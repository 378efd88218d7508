/** Which months a cold export may take (`exportable_months` and `months_ready_to_export` of `archive.rs`). */
module ColdMonths {
  import opened Prelude
  import opened TimeGrid
  import opened TierFold
  import opened LadderModel
  import opened LadderTables
  import opened Months
  import Decimal

  const LAST_MONTH: int := LAST_YEAR * 12 + 11
  const EPOCH_MONTH: int := 1970 * 12

  // ---------- The month of a moment ----------

  predicate InMonth(h: int, k: int) { StartMs(k) <= h < StartMs(k + 1) }

  function MonthUp(h: int, k: int): (found: int)
    requires StartMs(k) <= h
    ensures InMonth(h, found)
    decreases h - StartMs(k)
  {
    StartsIncrease(k, k + 1);
    if h < StartMs(k + 1) then k else MonthUp(h, k + 1)
  }

  function MonthDown(h: int, k: int): (found: int)
    requires h < StartMs(k)
    ensures InMonth(h, found)
    decreases StartMs(k) - h
  {
    StartsIncrease(k - 1, k);
    if StartMs(k - 1) <= h then k - 1 else MonthDown(h, k - 1)
  }

  /** The calendar month of a moment, counted from January 0000. */
  function MonthAt(h: int): (k: int)
    ensures InMonth(h, k)
  {
    EpochIsZero();
    if h >= 0 then MonthUp(h, EPOCH_MONTH) else MonthDown(h, EPOCH_MONTH)
  }

  lemma MonthUnique(h: int, j: int, k: int)
    requires InMonth(h, j) && InMonth(h, k)
    ensures j == k
  {
    hide StartMs;
    if j < k {
      if j + 1 < k { StartsIncrease(j + 1, k); }
    } else if k < j {
      if k + 1 < j { StartsIncrease(k + 1, j); }
    }
  }

  /** Months start on a full second. */
  lemma StartIsWhole(k: int)
    ensures StartMs(k) == StartMs(k) / 1_000 * 1_000
  {
    var days := DaysBeforeYear(k / 12) + DaysBeforeMonth(k / 12, k % 12 + 1) - DAYS_TO_EPOCH;
    assert StartMs(k) == days * DAY_MS;
    hide StartMs, DaysBeforeYear, DaysBeforeMonth;
    QuotientIs(days * DAY_MS, 1_000, days * 86_400);
  }

  /** Dropping the milliseconds stays in the month. */
  lemma SecondsKeepMonth(h: int)
    ensures MonthAt(h / 1_000 * 1_000) == MonthAt(h)
  {
    hide *;
    var k, whole := MonthAt(h), h / 1_000 * 1_000;
    StartIsWhole(k);
    SameSecondMonth(h, k);
    MonthUnique(whole, k, MonthAt(whole));
  }

  lemma SameSecondMonth(h: int, k: int)
    requires InMonth(h, k) && StartMs(k) == StartMs(k) / 1_000 * 1_000
    ensures InMonth(h / 1_000 * 1_000, k)
  {
    hide StartMs;
    assert h / 1_000 >= StartMs(k) / 1_000;
  }

  // ---------- The age limit, as text ----------

  function PadLeft(text: string, width: nat): string
    decreases width - |text|
  {
    if |text| >= width then text else PadLeft("0" + text, width)
  }

  /** `{year:04}` with Rust's sign-counting width. */
  function YearText(year: int): string {
    if year < 0 then "-" + PadLeft(Decimal.PrintNat(-year), 3)
    else if year <= LAST_YEAR then Digits2(year / 100) + Digits2(year % 100)
    else Decimal.PrintNat(year)
  }

  function MonthText(index: int): string {
    YearText(index / 12) + "-" + Digits2(index % 12 + 1)
  }

  /** The name of the month `months` before the month of `nowMs`; the date library has the years -9999 to 9999. */
  function CalendarMonthBefore(nowMs: int, months: int): Option<string> {
    var k := MonthAt(nowMs / 1_000 * 1_000);
    if !(-LAST_YEAR * 12 <= k <= LAST_MONTH) then None
    else if !(-0x8000_0000 <= months <= 0x7FFF_FFFF && -0x8000_0000 <= k - months <= 0x7FFF_FFFF) then None
    else Some(MonthText(k - months))
  }

  /** Comparing names with the age limit compares months, below year 0 too. */
  lemma AgeLimitOrder(k: int, limit: int)
    requires MonthIndex(k) && limit <= LAST_MONTH
    ensures StrAtMost(Name(k), MonthText(limit)) <==> k <= limit
  {
    if limit >= 0 {
      assert MonthText(limit) == Name(limit);
      NameOrder(k, limit);
    } else {
      assert limit / 12 < 0;
      assert MonthText(limit)[0] == '-';
      assert Name(k)[0] == Decimal.Digit(k / 12 / 100 / 10);
    }
  }

  // ---------- The filters ----------

  /** The three filters on one month name. */
  predicate Eligible(month: string, ageLimit: string, exportedUntil: Option<string>, l4KeepMs: int, nowMs: int) {
    && StrAtMost(month, ageLimit)
    && (exportedUntil.None? || StrLess(exportedUntil.value, month))
    && var bounds := MonthBounds(month);
       bounds.Some? && SatAdd(SatAdd(SatSub(bounds.value.1, 1), l4KeepMs), DAY_MS) <= nowMs
  }

  function Filter(months: seq<string>, ageLimit: string, exportedUntil: Option<string>, l4KeepMs: int, nowMs: int): (r: seq<string>)
    ensures forall m :: m in r <==> m in months && Eligible(m, ageLimit, exportedUntil, l4KeepMs, nowMs)
  {
    if months == [] then []
    else
      (if Eligible(months[0], ageLimit, exportedUntil, l4KeepMs, nowMs) then [months[0]] else [])
      + Filter(months[1..], ageLimit, exportedUntil, l4KeepMs, nowMs)
  }

  ghost predicate Ascending(s: seq<string>) {
    forall i, j :: 0 <= i < j < |s| ==> StrAtMost(s[i], s[j])
  }

  ghost predicate StrictlyAscending(s: seq<string>) {
    forall i, j :: 0 <= i < j < |s| ==> StrLess(s[i], s[j])
  }

  function Insert(month: string, sorted: seq<string>): (r: seq<string>)
    ensures forall m :: m in r <==> m == month || m in sorted
  {
    if sorted == [] || StrAtMost(month, sorted[0]) then [month] + sorted
    else [sorted[0]] + Insert(month, sorted[1..])
  }

  function Sort(months: seq<string>): (r: seq<string>)
    ensures forall m :: m in r <==> m in months
  {
    if months == [] then [] else Insert(months[0], Sort(months[1..]))
  }

  /** Dropping the repetitions of neighbours. */
  function Dedup(months: seq<string>): (r: seq<string>)
    ensures forall m :: m in r <==> m in months
  {
    if |months| < 2 then months
    else if months[0] == months[1] then Dedup(months[1..])
    else [months[0]] + Dedup(months[1..])
  }

  lemma AtMostTrans(a: string, b: string, c: string)
    requires StrAtMost(a, b) && StrAtMost(b, c)
    ensures StrAtMost(a, c)
  {
    if a != b && b != c {
      StrTrans(a, b, c);
    }
  }

  lemma {:induction false} AscendingFromHead(head: string, tail: seq<string>)
    requires Ascending(tail) && (tail == [] || StrAtMost(head, tail[0]))
    ensures Ascending([head] + tail)
  {
    hide StrAtMost;
    forall j | 0 <= j < |tail|
      ensures StrAtMost(head, tail[j])
    {
      if j > 0 {
        AtMostTrans(head, tail[0], tail[j]);
      }
    }
  }

  lemma {:induction false} InsertAscends(month: string, sorted: seq<string>)
    requires Ascending(sorted)
    ensures Ascending(Insert(month, sorted))
  {
    if sorted == [] || StrAtMost(month, sorted[0]) {
      AscendingFromHead(month, sorted);
    } else {
      StrTotal(month, sorted[0]);
      var rest := sorted[1..];
      InsertAscends(month, rest);
      var r := Insert(month, rest);
      assert StrAtMost(sorted[0], r[0]) by {
        assert r[0] in r;
        hide StrAtMost, StrLess;
        if r[0] != month {
          var i :| 0 <= i < |rest| && rest[i] == r[0];
          assert sorted[i + 1] == r[0];
        }
      }
      AscendingFromHead(sorted[0], r);
    }
  }

  lemma {:induction false} SortAscends(months: seq<string>)
    ensures Ascending(Sort(months))
  {
    if months != [] {
      SortAscends(months[1..]);
      InsertAscends(months[0], Sort(months[1..]));
    }
  }

  lemma {:induction false} DedupAscends(months: seq<string>)
    requires Ascending(months)
    ensures StrictlyAscending(Dedup(months))
  {
    if |months| >= 2 {
      DedupAscends(months[1..]);
      var r := Dedup(months[1..]);
      if months[0] != months[1] {
        forall j | 0 <= j < |r|
          ensures StrLess(months[0], r[j])
        {
          assert r[j] in months[1..];
          var i :| 1 <= i < |months| && months[i] == r[j];
          FirstIsLess(months, i);
        }
      }
    }
  }

  lemma FirstIsLess(months: seq<string>, i: nat)
    requires Ascending(months) && |months| >= 2 && months[0] != months[1] && 1 <= i < |months|
    ensures StrLess(months[0], months[i])
  {
    assert StrAtMost(months[0], months[1]);
    if i > 1 {
      assert StrAtMost(months[1], months[i]);
      if months[1] != months[i] {
        StrTrans(months[0], months[1], months[i]);
      }
    }
  }

  function ExportableMonths(monthsPresent: seq<string>, c: Config, coldAfterMonths: int, exportedUntil: Option<string>,
                            nowMs: int): seq<string>
  {
    if !c.l4.enabled || c.l4.keepDays == 0 then []
    else
      var ageLimit := CalendarMonthBefore(nowMs, coldAfterMonths);
      if ageLimit.None? then []
      else Dedup(Sort(Filter(monthsPresent, ageLimit.value, exportedUntil, KeepMs(c.l4.keepDays), nowMs)))
  }

  // ---------- What the filters mean ----------

  /** Month `k` may be exported at `nowMs`: old enough in calendar months, and all of it past the retention of the
    * hourly tier by a day. */
  predicate Finished(k: int, c: Config, coldAfterMonths: int, nowMs: int) {
    && c.l4.enabled && c.l4.keepDays != 0
    && -LAST_YEAR * 12 <= MonthAt(nowMs) <= LAST_MONTH
    && k <= MonthAt(nowMs) - coldAfterMonths
    && MonthIndex(k + 1)
    && SatAdd(SatAdd(StartMs(k + 1) - 1, KeepMs(c.l4.keepDays)), DAY_MS) <= nowMs
  }

  lemma StartInRange(k: int)
    requires MonthIndex(k)
    ensures 0 - 719_528 * DAY_MS <= StartMs(k) <= 3_000_000 * DAY_MS
    ensures SatSub(StartMs(k), 1) == StartMs(k) - 1
  {
    assert 0 <= k / 12 <= LAST_YEAR;
  }

  /** The text comparisons decide exactly the calendar question. `coldAfterMonths` is validated to 1..120. */
  lemma EligibleIsFinished(k: int, c: Config, coldAfterMonths: int, exportedUntil: Option<string>, nowMs: int)
    requires MonthIndex(k) && 0 <= coldAfterMonths <= 0x7000_0000 && c.l4.enabled && c.l4.keepDays != 0
    ensures var limit := CalendarMonthBefore(nowMs, coldAfterMonths);
            (limit.Some? && Eligible(Name(k), limit.value, exportedUntil, KeepMs(c.l4.keepDays), nowMs))
            <==> (Finished(k, c, coldAfterMonths, nowMs) && (exportedUntil.None? || StrLess(exportedUntil.value, Name(k))))
  {
    AgeFilter(k, coldAfterMonths, nowMs);
    RetentionFilter(k, KeepMs(c.l4.keepDays), nowMs);
    hide MonthAt, Name, StartMs, MonthBounds, StrLess, StrAtMost, KeepMs, SatAdd, SatSub, CalendarMonthBefore, MonthIndex;
  }

  lemma AgeFilter(k: int, coldAfterMonths: int, nowMs: int)
    requires MonthIndex(k) && 0 <= coldAfterMonths <= 0x7000_0000
    ensures var limit := CalendarMonthBefore(nowMs, coldAfterMonths);
            (limit.Some? && StrAtMost(Name(k), limit.value))
            <==> (-LAST_YEAR * 12 <= MonthAt(nowMs) <= LAST_MONTH && k <= MonthAt(nowMs) - coldAfterMonths)
  {
    hide MonthAt, MonthText, Name, StrAtMost, MonthIndex;
    SecondsKeepMonth(nowMs);
    if MonthAt(nowMs) <= LAST_MONTH {
      AgeLimitOrder(k, MonthAt(nowMs) - coldAfterMonths);
    }
  }

  lemma RetentionFilter(k: int, l4KeepMs: int, nowMs: int)
    requires MonthIndex(k)
    ensures var bounds := MonthBounds(Name(k));
            (bounds.Some? && SatAdd(SatAdd(SatSub(bounds.value.1, 1), l4KeepMs), DAY_MS) <= nowMs)
            <==> (MonthIndex(k + 1) && SatAdd(SatAdd(StartMs(k + 1) - 1, l4KeepMs), DAY_MS) <= nowMs)
  {
    hide *;
    BoundsOfName(k);
    if MonthIndex(k + 1) {
      StartInRange(k + 1);
    }
  }

  /** The result: strictly ascending, and exactly the present, unexported months that are finished. */
  lemma ExportableExactly(monthsPresent: seq<string>, c: Config, coldAfterMonths: int, exportedUntil: Option<string>,
                          nowMs: int, k: int)
    requires MonthIndex(k) && 0 <= coldAfterMonths <= 0x7000_0000
    ensures var out := ExportableMonths(monthsPresent, c, coldAfterMonths, exportedUntil, nowMs);
            StrictlyAscending(out)
            && (Name(k) in out <==> Name(k) in monthsPresent && Finished(k, c, coldAfterMonths, nowMs)
                                    && (exportedUntil.None? || StrLess(exportedUntil.value, Name(k))))
  {
    ExportableAscends(monthsPresent, c, coldAfterMonths, exportedUntil, nowMs);
    if c.l4.enabled && c.l4.keepDays != 0 {
      EligibleIsFinished(k, c, coldAfterMonths, exportedUntil, nowMs);
    }
    hide Eligible, CalendarMonthBefore, Name, StrLess, KeepMs, StrictlyAscending, MonthAt, StartMs;
  }

  lemma ExportableAscends(monthsPresent: seq<string>, c: Config, coldAfterMonths: int, exportedUntil: Option<string>,
                          nowMs: int)
    ensures StrictlyAscending(ExportableMonths(monthsPresent, c, coldAfterMonths, exportedUntil, nowMs))
  {
    var ageLimit := CalendarMonthBefore(nowMs, coldAfterMonths);
    if c.l4.enabled && c.l4.keepDays != 0 && ageLimit.Some? {
      var kept := Filter(monthsPresent, ageLimit.value, exportedUntil, KeepMs(c.l4.keepDays), nowMs);
      SortAscends(kept);
      DedupAscends(Sort(kept));
    }
    hide StrLess, CalendarMonthBefore, KeepMs, Filter, Sort, Dedup;
  }

  /** Both age filters are closed downwards. */
  lemma FinishedIsDownwardClosed(j: int, k: int, c: Config, coldAfterMonths: int, nowMs: int)
    requires MonthIndex(j) && j <= k && Finished(k, c, coldAfterMonths, nowMs)
    ensures Finished(j, c, coldAfterMonths, nowMs)
  {
    hide StartMs, MonthAt, KeepMs;
    if j < k {
      StartsIncrease(j + 1, k + 1);
    }
  }

  /** Every hour that starts in a finished month has ended before the cutoff of the hourly tier, so no sample on time
    * can still land there. */
  lemma FinishedIsPastCutoff(k: int, c: Config, coldAfterMonths: int, nowMs: int, h: int)
    requires MonthIndex(k) && Finished(k, c, coldAfterMonths, nowMs) && InMonth(h, k)
    requires c.l4.keepDays >= 0 && nowMs < I64_MAX
    ensures h + HOUR_MS <= L4Cutoff(c, nowMs)
    ensures !exists t :: t >= nowMs && Floor(HOUR_MS, t) == h
  {
    StartInRange(k + 1);
    hide StartMs, MonthAt;
    var keep := KeepMs(c.l4.keepDays);
    assert 0 <= keep <= I64_MAX;
    assert StartMs(k + 1) - 1 + keep + DAY_MS <= nowMs;
    forall t | t >= nowMs
      ensures Floor(HOUR_MS, t) != h
    {
      FloorAround(HOUR_MS, t);
    }
  }
}

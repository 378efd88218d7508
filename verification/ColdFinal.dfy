/** When an exported month is final: a later tick can still promote hours into it unless the L4 watermark has passed its end
  * (`maintenance.rs`, and `months_ready_to_export` of `archive.rs`, which does not look at that watermark). */
module ColdFinal {
  import opened Prelude
  import opened TierFold
  import opened TimeGrid
  import opened LadderModel
  import opened LadderTables
  import opened LadderPromotion
  import opened LadderProgress
  import opened Months
  import opened ColdMonths
  import opened ColdFile
  import opened ColdExport

  // ---------- Behind the watermark nothing is written ----------

  /** A pass writes no target before the time it starts from. */
  lemma {:induction false} PassWritesAhead(l: Ladder, p: Pass, from: int, promoted: nat, h: int)
    requires Promotes(p.source, p.target) && ClockKeys(l.Rows(p.source)) && Boundary(p.target.ResolutionMs(), from) && h < from
    ensures var before, after := l.Rows(p.target), PromoteFrom(l, p, from, promoted).0.Rows(p.target);
            (h in after <==> h in before) && (h in after ==> after[h] == before[h])
    decreases |KeysFrom(l.Rows(p.source), from)|
  {
    if promoted < MAX_PROMOTIONS_PER_TICK {
      TurnAdvances(l, p, from, promoted);
      TurnWritesAhead(l, p, from, promoted, h);
      hide NextTurn, KeysFrom, ClockKeys, Boundary;
      match NextTurn(l, p, from, promoted)
      case Stop(left) =>
      case Skip(until) =>
        SkippedTurn(l, p, from, promoted);
        PassWritesAhead(l, p, until, promoted, h);
      case Wrote(left, until) =>
        WrittenTurn(l, p, from, promoted);
        PassWritesAhead(left, p, until, promoted + 1, h);
    }
  }

  lemma TurnWritesAhead(l: Ladder, p: Pass, from: int, promoted: nat, h: int)
    requires Promotes(p.source, p.target) && ClockKeys(l.Rows(p.source)) && Boundary(p.target.ResolutionMs(), from) && h < from
    ensures var turn := NextTurn(l, p, from, promoted);
            !turn.Skip? ==>
              && ClockKeys(turn.left.Rows(p.source))
              && var before, after := l.Rows(p.target), turn.left.Rows(p.target);
                 (h in after <==> h in before) && (h in after ==> after[h] == before[h])
  {
    hide Fold, RowsIn, BucketStartFor, OldestAtOrAfter, ClockKeys, Held, Boundary, SatAdd, Aligned;
    var oldest := OldestAtOrAfter(l.Rows(p.source), from);
    if oldest.Some? {
      TileOfOldest(l.Rows(p.source), p.target.ResolutionMs(), from, oldest.value);
    }
  }

  /** The hours of month `k` end at or before the L4 watermark. */
  predicate MonthFolded(l: Ladder, k: int) {
    l.l4FoldedUntil.Some? && Aligned(3_600_000, l.l4FoldedUntil.value) && StartMs(k + 1) <= l.l4FoldedUntil.value
  }

  /** Once the L4 watermark has passed a month, no tick, whatever fails in it, adds an hour to the month or changes one. */
  lemma FoldedMonthIsFinal(c: Config, l: Ladder, now: int, archived: Option<set<int>>, faults: TickFaults, k: int, h: int)
    requires ClockKeys(l.l2) && ClockKeys(l.l3) && MonthFolded(l, k) && InMonth(h, k)
    ensures var r := Maintain(c, l, now, archived, faults).0;
            h in r.l4 ==> h in l.l4 && r.l4[h] == l.l4[h]
  {
    hide PromoteL3, PromoteL4, ClockKeys, L2Cutoff, L3Cutoff, L4Cutoff, StartMs, PruneRaw, KeepMs;
    var flagged := WithFlags(c, l, faults);
    PromoteL3KeepsClock(c, flagged, now, faults);
    var folded3 := PromoteL3(c, flagged, now, faults).0;
    L3LeavesHours(c, flagged, now, faults);
    HoursStay(c, folded3, now, faults, h);
  }

  lemma L3LeavesHours(c: Config, l: Ladder, now: int, faults: TickFaults)
    requires ClockKeys(l.l2)
    ensures var r := PromoteL3(c, l, now, faults).0; r.l4 == l.l4 && r.l4FoldedUntil == l.l4FoldedUntil
  {
    if c.l3.enabled {
      L3PassLeavesHours(l, L3Pass(c, now, faults), l.FoldedUntil(L3).UnwrapOr(I64_MIN), 0);
    }
  }

  lemma {:induction false} L3PassLeavesHours(l: Ladder, p: Pass, from: int, promoted: nat)
    requires p.source == L2 && p.target == L3 && ClockKeys(l.l2)
    ensures var r := PromoteFrom(l, p, from, promoted).0; r.l4 == l.l4 && r.l4FoldedUntil == l.l4FoldedUntil
    decreases |KeysFrom(l.l2, from)|
  {
    if promoted < MAX_PROMOTIONS_PER_TICK {
      TurnAdvances(l, p, from, promoted);
      L3TurnLeavesHours(l, p, from, promoted);
      hide NextTurn, KeysFrom, ClockKeys;
      match NextTurn(l, p, from, promoted)
      case Stop(left) =>
      case Skip(until) => L3PassLeavesHours(l, p, until, promoted);
      case Wrote(left, until) => L3PassLeavesHours(left, p, until, promoted + 1);
    }
  }

  lemma L3TurnLeavesHours(l: Ladder, p: Pass, from: int, promoted: nat)
    requires p.source == L2 && p.target == L3 && ClockKeys(l.l2)
    ensures var turn := NextTurn(l, p, from, promoted);
            !turn.Skip? ==> turn.left.l4 == l.l4 && turn.left.l4FoldedUntil == l.l4FoldedUntil && turn.left.l2 == l.l2
  {
    hide Fold, RowsIn, Held, BucketStartFor, OldestAtOrAfter;
  }

  lemma HoursStay(c: Config, l: Ladder, now: int, faults: TickFaults, h: int)
    requires ClockKeys(l.l2) && ClockKeys(l.l3)
    requires l.l4FoldedUntil.Some? && Aligned(3_600_000, l.l4FoldedUntil.value) && h < l.l4FoldedUntil.value
    ensures var r := PromoteL4(c, l, now, faults).0; h in r.l4 ==> h in l.l4 && r.l4[h] == l.l4[h]
  {
    hide PromoteFrom, ClockKeys;
    if c.l4.enabled {
      PassWritesAhead(l, L4Pass(c, l, now, faults), l.l4FoldedUntil.value, 0, h);
    }
  }

  // ---------- At or past the watermark it may still be ----------

  /** The oldest five-minute or minute row at or past the L4 watermark is of an hour that may be folded now. */
  predicate HourWaitsAt(c: Config, l: Ladder, now: int, o: int) {
    var p := L4Pass(c, l, now, NO_FAULTS);
    && c.l4.enabled
    && OldestAtOrAfter(l.Rows(p.source), l.l4FoldedUntil.UnwrapOr(I64_MIN)) == Some(o)
    && !Held(p, o)
    && FoldTile(l.Rows(p.source), 3_600_000, BucketStartFor(3_600_000, o)).Some?
  }

  /** A faultless promotion then writes that hour, whichever month it is in and whether that has been exported or not. */
  lemma WaitingHourArrives(c: Config, l: Ladder, now: int, o: int)
    requires ClockKeys(l.l2) && ClockKeys(l.l3) && HourWaitsAt(c, l, now, o)
    requires Boundary(3_600_000, l.l4FoldedUntil.UnwrapOr(I64_MIN))
    ensures var hour := BucketStartFor(3_600_000, o);
            && hour in PromoteL4(c, l, now, NO_FAULTS).0.l4
            && l.l4FoldedUntil.UnwrapOr(I64_MIN) <= hour
  {
    var p := L4Pass(c, l, now, NO_FAULTS);
    var from := l.l4FoldedUntil.UnwrapOr(I64_MIN);
    TileOfOldest(l.Rows(p.source), 3_600_000, from, o);
    FirstHourTurn(l, p, from, o);
    hide NextTurn, ClockKeys, KeysFrom, OldestAtOrAfter, Held, BucketStartFor, Boundary;
    TurnAdvances(l, p, from, 0);
    var turn := NextTurn(l, p, from, 0);
    assert turn.Wrote?;
    PassKeepsKeys(turn.left, p, turn.until, 1);
  }

  lemma FirstHourTurn(l: Ladder, p: Pass, from: int, o: int)
    requires Promotes(p.source, p.target) && p.target == L4 && p.fault == NoFault && ClockKeys(l.Rows(p.source))
    requires OldestAtOrAfter(l.Rows(p.source), from) == Some(o) && !Held(p, o)
    requires FoldTile(l.Rows(p.source), 3_600_000, BucketStartFor(3_600_000, o)).Some? && Boundary(3_600_000, from)
    ensures var turn := NextTurn(l, p, from, 0);
            turn.Wrote? && BucketStartFor(3_600_000, o) in turn.left.l4 && ClockKeys(turn.left.Rows(p.source))
  {
    TileOfOldest(l.Rows(p.source), 3_600_000, from, o);
    hide Fold, RowsIn, BucketStartFor, OldestAtOrAfter, IsComplete, ClockKeys;
  }

  // ---------- What an hour that arrives late does to an exported month ----------

  /** The file of an exported month is right exactly as long as the archive has the rows it had. */
  lemma FileIsRightExactly(s: Cold, before: Table, after: Table, show: real -> string, k: int)
    requires MonthIndex(k) && Faithful(show) && MonthKept(s, before, show, true, k)
    ensures MonthKept(s, after, show, true, k) <==> MonthRows(after, k) == MonthRows(before, k)
  {
    hide ColdText, MonthRows, Name, MonthIndex, Faithful;
    if MonthKept(s, after, show, true, k) {
      ColdTextIsLossless(MonthRows(after, k), MonthRows(before, k), show);
    }
  }
}

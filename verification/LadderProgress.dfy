/** What a tick does beside keeping its invariant: which rows it deletes, and when a promotion pass writes and stops
  * (`maintenance.rs`). */
module LadderProgress {
  import opened Prelude
  import opened TierFold
  import opened TimeGrid
  import opened LadderModel
  import opened LadderPromotion

  // ---------- Deletions ----------

  /** `end` is at least `days` before `now`. */
  predicate PastKeep(end: int, days: int, now: int) { end <= SatSub(now, SatMul(days, 86_400_000)) }

  /** The watermark is known and has reached `end`. */
  predicate Reached(mark: Option<int>, end: int) { mark.Some? && end <= mark.value }

  /** The next enabled coarser tier, if any, has folded up to `end`. */
  predicate FoldedOn(c: Config, l3Mark: Option<int>, l4Mark: Option<int>, end: int) {
    if c.l3.enabled then Reached(l3Mark, end) else c.l4.enabled ==> Reached(l4Mark, end)
  }

  lemma {:induction false} PassKeepsKeys(l: Ladder, p: Pass, from: int, promoted: nat)
    requires Promotes(p.source, p.target) && ClockKeys(l.Rows(p.source))
    ensures var r := PromoteFrom(l, p, from, promoted).0;
            && r.raw == l.raw && r.l2 == l.l2 && l.l3.Keys <= r.l3.Keys && l.l4.Keys <= r.l4.Keys
            && (p.target == L4 ==> r.l3 == l.l3) && (p.target == L3 ==> r.l4 == l.l4)
    decreases |KeysFrom(l.Rows(p.source), from)|
  {
    if promoted < MAX_PROMOTIONS_PER_TICK {
      TurnAdvances(l, p, from, promoted);
      TurnKeepsKeys(l, p, from, promoted);
      hide NextTurn, KeysFrom, ClockKeys;
      match NextTurn(l, p, from, promoted)
      case Stop(left) =>
      case Skip(until) => PassKeepsKeys(l, p, until, promoted);
      case Wrote(left, until) => PassKeepsKeys(left, p, until, promoted + 1);
    }
  }

  lemma TurnKeepsKeys(l: Ladder, p: Pass, from: int, promoted: nat)
    requires Promotes(p.source, p.target) && ClockKeys(l.Rows(p.source))
    ensures var turn := NextTurn(l, p, from, promoted);
            !turn.Skip? ==>
              && turn.left.raw == l.raw && turn.left.l2 == l.l2
              && l.l3.Keys <= turn.left.l3.Keys && l.l4.Keys <= turn.left.l4.Keys
              && (p.target == L4 ==> turn.left.l3 == l.l3) && (p.target == L3 ==> turn.left.l4 == l.l4)
              && ClockKeys(turn.left.Rows(p.source))
  {
    hide Fold, RowsIn, Held, BucketStartFor;
  }

  lemma PromotionsKeepKeys(c: Config, l: Ladder, now: int, faults: TickFaults)
    requires ClockKeys(l.l2) && ClockKeys(l.l3)
    ensures var a := PromoteL3(c, l, now, faults).0;
            && a.raw == l.raw && a.l2 == l.l2 && l.l3.Keys <= a.l3.Keys && a.l4 == l.l4
    ensures ClockKeys(PromoteL3(c, l, now, faults).0.l2) && ClockKeys(PromoteL3(c, l, now, faults).0.l3)
    ensures var a := PromoteL3(c, l, now, faults).0;
            var b := PromoteL4(c, a, now, faults).0;
            b.raw == l.raw && b.l2 == l.l2 && l.l3.Keys <= b.l3.Keys && l.l4.Keys <= b.l4.Keys
  {
    PromoteL3KeepsClock(c, l, now, faults);
    hide PromoteFrom, ClockKeys;
    if c.l3.enabled {
      PassKeepsKeys(l, L3Pass(c, now, faults), l.FoldedUntil(L3).UnwrapOr(I64_MIN), 0);
    }
    var a := PromoteL3(c, l, now, faults).0;
    if c.l4.enabled {
      PassKeepsKeys(a, L4Pass(c, a, now, faults), a.FoldedUntil(L4).UnwrapOr(I64_MIN), 0);
    }
  }

  /** The deletions of `PruneTiers`, in terms of days and watermarks. */
  lemma PrunesExactly(c: Config, l: Ladder, now: int, l3Mark: Option<int>, l4Mark: Option<int>, archived: Option<set<int>>,
                      fails: set<Tier>, k: int)
    requires I64_MIN <= k && k + 3_600_000 <= I64_MAX
    ensures var r := PruneTiers(c, l, now, l3Mark, l4Mark, archived, fails);
            && (k in r.raw <==> k in l.raw && (L1 in fails || k >= SatSub(now, SatMul(c.l1KeepDays, 86_400_000))))
            && (k in r.l2 <==> k in l.l2 && (L2 in fails || !PastKeep(k + 60_000, c.l2KeepDays, now)
                                             || !FoldedOn(c, l3Mark, l4Mark, k + 60_000)))
            && (k in r.l3 <==> k in l.l3 && (L3 in fails || !c.l3.enabled || !PastKeep(k + 300_000, c.l3.keepDays, now)
                                             || (c.l4.enabled && !Reached(l4Mark, k + 300_000))))
            && (k in r.l4 <==> k in l.l4 && (L4 in fails || !c.l4.enabled || SatMul(c.l4.keepDays, 86_400_000) <= 0
                                             || !PastKeep(k + 3_600_000, c.l4.keepDays, now)
                                             || (archived.Some? && k !in archived.value)))
  {
    hide SatMul, SatSub;
  }

  /** Which stored rows a tick deletes: a raw row exactly when it is past its keep days; a bucket exactly when its tier is
    * enabled, it ended its keep days ago, and the next enabled coarser tier had folded it by a watermark readable when the
    * tick began; an hour never while its days are unlimited. Nothing goes early, and nothing is kept that may go. */
  lemma TickDeletesExactly(c: Config, l: Ladder, now: int, archived: Option<set<int>>, faults: TickFaults, k: int)
    requires ClockKeys(l.l2) && ClockKeys(l.l3) && I64_MIN <= k && k + 3_600_000 <= I64_MAX
    ensures var r := Maintain(c, l, now, archived, faults).0;
            var l3Mark := if faults.l3MarkLost then None else l.l3FoldedUntil;
            var l4Mark := if faults.l4MarkLost then None else l.l4FoldedUntil;
            var fails := faults.pruneFails;
            && (k in r.raw <==> k in l.raw && (L1 in fails || k >= SatSub(now, SatMul(c.l1KeepDays, 86_400_000))))
            && (k in r.l2 <==> k in l.l2 && (L2 in fails || !PastKeep(k + 60_000, c.l2KeepDays, now)
                                             || !FoldedOn(c, l3Mark, l4Mark, k + 60_000)))
            && (k in l.l3 ==>
                  (k !in r.l3 <==> L3 !in fails && c.l3.enabled && PastKeep(k + 300_000, c.l3.keepDays, now)
                                   && (c.l4.enabled ==> Reached(l4Mark, k + 300_000))))
            && (k in l.l4 ==>
                  (k !in r.l4 <==> L4 !in fails && c.l4.enabled && SatMul(c.l4.keepDays, 86_400_000) > 0
                                   && PastKeep(k + 3_600_000, c.l4.keepDays, now)
                                   && (archived.Some? ==> k in archived.value)))
  {
    hide PromoteL3, PromoteL4, ClockKeys, PruneTiers, PastKeep, Reached, FoldedOn, SatMul, SatSub;
    var flagged := WithFlags(c, l, faults);
    PromotionsKeepKeys(c, flagged, now, faults);
    var folded := PromoteL4(c, PromoteL3(c, flagged, now, faults).0, now, faults).0;
    PrunesExactly(c, folded, now, if faults.l3MarkLost then None else l.l3FoldedUntil,
                  if faults.l4MarkLost then None else l.l4FoldedUntil, archived, faults.pruneFails, k);
  }

  // ---------- When a pass writes ----------

  /** The target at `start` ended at least the grace before `now`, and not after the gate. */
  predicate Due(p: Pass, start: int) {
    var end := SatAdd(start, p.target.ResolutionMs());
    SatAdd(end, p.graceMs) <= p.nowMs && (p.gate.Some? ==> end <= p.gate.value)
  }

  lemma {:induction false} PassIsTimely(l: Ladder, p: Pass, from: int, promoted: nat, k: int)
    requires Promotes(p.source, p.target) && ClockKeys(l.Rows(p.source))
    ensures var before, after := l.Rows(p.target), PromoteFrom(l, p, from, promoted).0.Rows(p.target);
            k in after && (k !in before || after[k] != before[k]) ==> Due(p, k)
    decreases |KeysFrom(l.Rows(p.source), from)|
  {
    if promoted < MAX_PROMOTIONS_PER_TICK {
      TurnAdvances(l, p, from, promoted);
      TurnIsTimely(l, p, from, promoted, k);
      hide NextTurn, KeysFrom, ClockKeys, Due;
      match NextTurn(l, p, from, promoted)
      case Stop(left) =>
      case Skip(until) => PassIsTimely(l, p, until, promoted, k);
      case Wrote(left, until) => PassIsTimely(left, p, until, promoted + 1, k);
    }
  }

  lemma TurnIsTimely(l: Ladder, p: Pass, from: int, promoted: nat, k: int)
    requires Promotes(p.source, p.target) && ClockKeys(l.Rows(p.source))
    ensures var turn := NextTurn(l, p, from, promoted);
            !turn.Skip? ==>
              && ClockKeys(turn.left.Rows(p.source))
              && var before, after := l.Rows(p.target), turn.left.Rows(p.target);
                 (k in after && (k !in before || after[k] != before[k]) ==> Due(p, k))
  {
    hide Fold, RowsIn, BucketStartFor, SatAdd;
  }

  // ---------- When a pass stops ----------

  /** The source bucket at `s` has its target, or nothing of that target's range holds a sample. */
  ghost predicate Served(source: Table, target: Table, w: int, s: int)
    requires w > 0
  {
    BucketStartFor(w, s) in target || FoldTile(source, w, BucketStartFor(w, s)).None?
  }

  ghost predicate ServedUpTo(source: Table, target: Table, w: int, from: int, stop: int)
    requires w > 0
  {
    forall s :: s in source && from <= s < stop ==> Served(source, target, w, s)
  }

  /** At `stop` the source is exhausted or its next target is not yet due. */
  predicate Wall(source: Table, p: Pass, stop: int)
    requires Promotes(p.source, p.target)
  {
    var next := OldestAtOrAfter(source, stop);
    next.Some? ==> !Due(p, BucketStartFor(p.target.ResolutionMs(), next.value))
  }

  /** A pass without failures that has budget left has served every source bucket up to a wall: it never stops early. */
  lemma {:induction false} PassStopsOnlyAtAWall(l: Ladder, p: Pass, from: int, promoted: nat) returns (stop: int)
    requires Promotes(p.source, p.target) && ClockKeys(l.Rows(p.source)) && p.fault == NoFault
    requires Boundary(p.target.ResolutionMs(), from)
    ensures from <= stop
    ensures ServedUpTo(l.Rows(p.source), PromoteFrom(l, p, from, promoted).0.Rows(p.target), p.target.ResolutionMs(), from, stop)
    ensures PromoteFrom(l, p, from, promoted).1 < MAX_PROMOTIONS_PER_TICK ==> Wall(l.Rows(p.source), p, stop)
    decreases |KeysFrom(l.Rows(p.source), from)|
  {
    hide NextTurn, ServedUpTo, Wall, FoldTile, KeysFrom, ClockKeys, Boundary;
    stop := from;
    NothingBetween(l.Rows(p.source), PromoteFrom(l, p, from, promoted).0.Rows(p.target), p.target.ResolutionMs(), from);
    if promoted < MAX_PROMOTIONS_PER_TICK {
      TurnAdvances(l, p, from, promoted);
      match NextTurn(l, p, from, promoted)
      case Stop(left) =>
        StopIsWall(l, p, from, promoted);
      case Skip(until) =>
        SkippedTurn(l, p, from, promoted);
        stop := PassStopsOnlyAtAWall(l, p, until, promoted);
        SkipServes(l, p, from, promoted, PromoteFrom(l, p, until, promoted).0.Rows(p.target), stop);
      case Wrote(left, until) =>
        WrittenTurn(l, p, from, promoted);
        stop := PassStopsOnlyAtAWall(left, p, until, promoted + 1);
        PassKeepsTarget(left, p, until, promoted + 1);
        WriteServes(l, p, from, promoted, PromoteFrom(left, p, until, promoted + 1).0.Rows(p.target), stop);
    }
  }

  lemma NothingBetween(source: Table, target: Table, w: int, from: int)
    requires w > 0
    ensures ServedUpTo(source, target, w, from, from)
  {
  }

  lemma PassKeepsTarget(l: Ladder, p: Pass, from: int, promoted: nat)
    requires Promotes(p.source, p.target) && ClockKeys(l.Rows(p.source))
    ensures l.Rows(p.target).Keys <= PromoteFrom(l, p, from, promoted).0.Rows(p.target).Keys
  {
    PassKeepsKeys(l, p, from, promoted);
  }

  lemma StopIsWall(l: Ladder, p: Pass, from: int, promoted: nat)
    requires Promotes(p.source, p.target) && p.fault == NoFault && NextTurn(l, p, from, promoted).Stop?
    ensures Wall(l.Rows(p.source), p, from)
  {
    hide Fold, RowsIn, BucketStartFor, SatAdd;
  }

  lemma SkipServes(l: Ladder, p: Pass, from: int, promoted: nat, target: Table, stop: int)
    requires Promotes(p.source, p.target) && ClockKeys(l.Rows(p.source)) && Boundary(p.target.ResolutionMs(), from)
    requires NextTurn(l, p, from, promoted).Skip?
    requires ServedUpTo(l.Rows(p.source), target, p.target.ResolutionMs(), NextTurn(l, p, from, promoted).until, stop)
    ensures ServedUpTo(l.Rows(p.source), target, p.target.ResolutionMs(), from, stop)
  {
    hide NextTurn, FoldTile, KeysFrom, OldestAtOrAfter;
    SkippedTurn(l, p, from, promoted);
    TileOfOldest(l.Rows(p.source), p.target.ResolutionMs(), from, OldestAtOrAfter(l.Rows(p.source), from).value);
  }

  lemma WriteServes(l: Ladder, p: Pass, from: int, promoted: nat, target: Table, stop: int)
    requires Promotes(p.source, p.target) && ClockKeys(l.Rows(p.source)) && Boundary(p.target.ResolutionMs(), from)
    requires NextTurn(l, p, from, promoted).Wrote?
    requires NextTurn(l, p, from, promoted).left.Rows(p.target).Keys <= target.Keys
    requires ServedUpTo(l.Rows(p.source), target, p.target.ResolutionMs(), NextTurn(l, p, from, promoted).until, stop)
    ensures ServedUpTo(l.Rows(p.source), target, p.target.ResolutionMs(), from, stop)
  {
    hide NextTurn, FoldTile, KeysFrom, OldestAtOrAfter;
    WrittenTurn(l, p, from, promoted);
    TileOfOldest(l.Rows(p.source), p.target.ResolutionMs(), from, OldestAtOrAfter(l.Rows(p.source), from).value);
  }
}

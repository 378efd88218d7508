/** Validating retention under disk pressure (`retention_ladder.rs` and its twin in `ladder-rules.js`). */
module RetentionGrowth {
  import opened Prelude

  const MIN_FREE_BYTES: int := 268_435_456

  datatype Toggled = Toggled(enabled: bool, keepDays: int)

  /** The settings of the retention ladder; `directoryUsable` stands for an archive directory that is empty or absolute. */
  datatype RetentionLadder = RetentionLadder(
    l1KeepDays: int,
    l2KeepDays: int,
    l3: Toggled,
    l4: Toggled,
    detailIntervalSec: int,
    processFastKeepHours: int,
    queryable: bool,
    cold: bool,
    directoryUsable: bool,
    coldAfterMonths: int,
    checkIntervalMinutes: int,
    minFreeBytes: int)

  // ---------- Growth, as the code compares ----------

  predicate EnabledHorizonGrew(candidate: Toggled, previous: Toggled, zeroIsForever: bool) {
    if !candidate.enabled then false
    else if !previous.enabled then true
    else if zeroIsForever then
      || (candidate.keepDays == 0 && previous.keepDays != 0)
      || (candidate.keepDays != 0 && previous.keepDays != 0 && candidate.keepDays > previous.keepDays)
    else candidate.keepDays > previous.keepDays
  }

  predicate GrowsFrom(candidate: RetentionLadder, previous: RetentionLadder) {
    || candidate.l1KeepDays > previous.l1KeepDays
    || candidate.l2KeepDays > previous.l2KeepDays
    || EnabledHorizonGrew(candidate.l3, previous.l3, false)
    || EnabledHorizonGrew(candidate.l4, previous.l4, true)
    || candidate.processFastKeepHours > previous.processFastKeepHours
    || (candidate.queryable && !previous.queryable)
    || (candidate.cold && !previous.cold)
  }

  datatype Problem =
    | OutOfRange(field: string)
    | MinFreeTooLow
    | L3BelowL2
    | L4BelowRequired(required: int)
    | ColdNeedsQueryable
    | DirectoryNotAbsolute
    | UnderPressure

  function RangeProblem(l: RetentionLadder): Option<Problem> {
    if !(3 <= l.l1KeepDays <= 3_650) then Some(OutOfRange("l1.keepDays"))
    else if !(7 <= l.l2KeepDays <= 3_650) then Some(OutOfRange("l2.keepDays"))
    else if !(0 <= l.l3.keepDays <= 3_650) then Some(OutOfRange("l3.keepDays"))
    else if !(0 <= l.l4.keepDays <= 36_500) then Some(OutOfRange("l4.keepDays"))
    else if !(15 <= l.detailIntervalSec <= 3_600) then Some(OutOfRange("detailIntervalSec"))
    else if !(1 <= l.processFastKeepHours <= 72) then Some(OutOfRange("processFastKeepHours"))
    else if !(1 <= l.coldAfterMonths <= 120) then Some(OutOfRange("archive.coldAfterMonths"))
    else if !(5 <= l.checkIntervalMinutes <= 1_440) then Some(OutOfRange("diskCheck.intervalMinutes"))
    else None
  }

  /** The first problem of a candidate; `None` accepts it. */
  function Validate(l: RetentionLadder, pressure: bool, previous: Option<RetentionLadder>): Option<Problem> {
    var range := RangeProblem(l);
    var required := if l.l3.enabled then l.l3.keepDays else l.l2KeepDays;
    if range.Some? then range
    else if l.minFreeBytes < MIN_FREE_BYTES then Some(MinFreeTooLow)
    else if l.l3.enabled && l.l3.keepDays < l.l2KeepDays then Some(L3BelowL2)
    else if l.l4.enabled && l.l4.keepDays != 0 && l.l4.keepDays < required then Some(L4BelowRequired(required))
    else if l.cold && !l.queryable then Some(ColdNeedsQueryable)
    else if !l.directoryUsable then Some(DirectoryNotAbsolute)
    else if pressure && previous.Some? && GrowsFrom(l, previous.value) then Some(UnderPressure)
    else None
  }

  // ---------- Growth, as an order ----------

  /** How far a tier reaches back: nothing, some days, or forever. */
  datatype Reach = Nothing | Days(days: int) | Forever

  predicate AtMost(a: Reach, b: Reach) {
    match (a, b)
    case (Nothing, _) => true
    case (_, Forever) => true
    case (Days(x), Days(y)) => x <= y
    case _ => false
  }

  function ReachOf(t: Toggled, zeroIsForever: bool): Reach {
    if !t.enabled then Nothing else if zeroIsForever && t.keepDays == 0 then Forever else Days(t.keepDays)
  }

  /** Everything `a` keeps, `b` keeps at least as long. */
  predicate KeepsNoMore(a: RetentionLadder, b: RetentionLadder) {
    && a.l1KeepDays <= b.l1KeepDays
    && a.l2KeepDays <= b.l2KeepDays
    && AtMost(ReachOf(a.l3, false), ReachOf(b.l3, false))
    && AtMost(ReachOf(a.l4, true), ReachOf(b.l4, true))
    && a.processFastKeepHours <= b.processFastKeepHours
    && (a.queryable ==> b.queryable)
    && (a.cold ==> b.cold)
  }

  /** The comparison of the code is the order of reaches. */
  lemma GrowthIsOrder(candidate: RetentionLadder, previous: RetentionLadder)
    ensures GrowsFrom(candidate, previous) <==> !KeepsNoMore(candidate, previous)
  {
  }

  /** Not growing is a preorder. */
  lemma NoGrowthIsPreorder(a: RetentionLadder, b: RetentionLadder, c: RetentionLadder)
    ensures !GrowsFrom(a, a)
    ensures !GrowsFrom(a, b) && !GrowsFrom(b, c) ==> !GrowsFrom(a, c)
  {
    GrowthIsOrder(a, a);
    GrowthIsOrder(a, b);
    GrowthIsOrder(b, c);
    GrowthIsOrder(a, c);
    hide GrowsFrom;
  }

  /** The horizons of the enabled tiers, forever apart, are in order. */
  predicate HorizonsOrdered(l: RetentionLadder) {
    && (l.l3.enabled ==> l.l2KeepDays <= l.l3.keepDays)
    && (l.l4.enabled && l.l4.keepDays != 0 ==>
          l.l2KeepDays <= l.l4.keepDays && (l.l3.enabled ==> l.l3.keepDays <= l.l4.keepDays))
  }

  /** An accepted ladder has its horizons in order; one refused for its horizons has not. */
  lemma AcceptedIsOrdered(l: RetentionLadder, pressure: bool, previous: Option<RetentionLadder>)
    ensures Validate(l, pressure, previous).None? ==> HorizonsOrdered(l)
    ensures var p := Validate(l, pressure, previous);
            p.Some? && (p.value.L3BelowL2? || p.value.L4BelowRequired?) ==> !HorizonsOrdered(l)
  {
  }

  /** Every number within its range. */
  predicate InRange(l: RetentionLadder) {
    && 3 <= l.l1KeepDays <= 3_650
    && 7 <= l.l2KeepDays <= 3_650
    && 0 <= l.l3.keepDays <= 3_650
    && 0 <= l.l4.keepDays <= 36_500
    && 15 <= l.detailIntervalSec <= 3_600
    && 1 <= l.processFastKeepHours <= 72
    && 1 <= l.coldAfterMonths <= 120
    && 5 <= l.checkIntervalMinutes <= 1_440
  }

  /** The numbers are in range, 256 MiB stay free, the horizons are in order, a cold archive is queryable, the archive
    * directory is usable, and under pressure nothing is kept that `previous` does not keep. */
  predicate Acceptable(l: RetentionLadder, pressure: bool, previous: Option<RetentionLadder>) {
    && InRange(l) && l.minFreeBytes >= 256 * 1024 * 1024
    && HorizonsOrdered(l)
    && (l.cold ==> l.queryable) && l.directoryUsable
    && (pressure && previous.Some? ==> KeepsNoMore(l, previous.value))
  }

  lemma AcceptsExactly(l: RetentionLadder, pressure: bool, previous: Option<RetentionLadder>)
    ensures Validate(l, pressure, previous).None? <==> Acceptable(l, pressure, previous)
  {
    hide KeepsNoMore, GrowsFrom;
    if previous.Some? {
      GrowthIsOrder(l, previous.value);
    }
  }

  /** Pressure is the last question: it refuses only a candidate that would have been accepted without it, exactly if that
    * keeps more than the stored ladder, and for no other reason. */
  lemma PressureRefusesExactly(l: RetentionLadder, previous: Option<RetentionLadder>)
    ensures var calm := Validate(l, false, previous);
            Validate(l, true, previous) ==
              if calm.None? && previous.Some? && !KeepsNoMore(l, previous.value) then Some(UnderPressure) else calm
    ensures Validate(l, false, previous) != Some(UnderPressure)
  {
    hide KeepsNoMore, GrowsFrom;
    if previous.Some? {
      GrowthIsOrder(l, previous.value);
    }
  }

  /** A refusal names a rule the candidate breaks; out of several the first in this order, the ranges before all. */
  lemma RefusalIsTrue(l: RetentionLadder, pressure: bool, previous: Option<RetentionLadder>)
    ensures var p := Validate(l, pressure, previous);
            && (p.Some? && p.value.OutOfRange? <==> !InRange(l))
            && (p.Some? ==>
                  match p.value
                  case OutOfRange(field) =>
                    field == if !(3 <= l.l1KeepDays <= 3_650) then "l1.keepDays"
                             else if !(7 <= l.l2KeepDays <= 3_650) then "l2.keepDays"
                             else if !(0 <= l.l3.keepDays <= 3_650) then "l3.keepDays"
                             else if !(0 <= l.l4.keepDays <= 36_500) then "l4.keepDays"
                             else if !(15 <= l.detailIntervalSec <= 3_600) then "detailIntervalSec"
                             else if !(1 <= l.processFastKeepHours <= 72) then "processFastKeepHours"
                             else if !(1 <= l.coldAfterMonths <= 120) then "archive.coldAfterMonths"
                             else "diskCheck.intervalMinutes"
                  case MinFreeTooLow => l.minFreeBytes < 256 * 1024 * 1024
                  case L3BelowL2 => l.minFreeBytes >= 256 * 1024 * 1024 && l.l3.enabled && l.l3.keepDays < l.l2KeepDays
                  case L4BelowRequired(required) =>
                    && l.minFreeBytes >= 256 * 1024 * 1024 && (l.l3.enabled ==> l.l2KeepDays <= l.l3.keepDays)
                    && l.l4.enabled && 0 != l.l4.keepDays < required
                    && required == if l.l3.enabled then l.l3.keepDays else l.l2KeepDays
                  case ColdNeedsQueryable =>
                    l.minFreeBytes >= 256 * 1024 * 1024 && HorizonsOrdered(l) && l.cold && !l.queryable
                  case DirectoryNotAbsolute =>
                    l.minFreeBytes >= 256 * 1024 * 1024 && HorizonsOrdered(l) && (l.cold ==> l.queryable) && !l.directoryUsable
                  case UnderPressure => pressure && previous.Some? && !KeepsNoMore(l, previous.value))
  {
    hide KeepsNoMore, GrowsFrom;
    if previous.Some? {
      GrowthIsOrder(l, previous.value);
    }
  }

  // ---------- Runs ----------

  /** A save, or a measurement that changes the pressure. */
  datatype Event = Save(candidate: RetentionLadder) | Pressure(active: bool)

  datatype Saved = Saved(ladder: RetentionLadder, pressure: bool)

  /** A refused save leaves the stored ladder. */
  function Step(s: Saved, e: Event): Saved {
    match e
    case Save(candidate) => if Validate(candidate, s.pressure, Some(s.ladder)).None? then s.(ladder := candidate) else s
    case Pressure(active) => s.(pressure := active)
  }

  function Run(s: Saved, events: seq<Event>): Saved {
    if events == [] then s else Step(Run(s, events[..|events| - 1]), events[|events| - 1])
  }

  /** A save stores the candidate exactly if it is acceptable beside the ladder stored before, and changes nothing else; a
    * measurement changes the pressure alone. */
  lemma StepExactly(s: Saved, e: Event)
    ensures Step(s, e) ==
              match e
              case Save(candidate) => Saved(if Acceptable(candidate, s.pressure, Some(s.ladder)) then candidate else s.ladder, s.pressure)
              case Pressure(active) => Saved(s.ladder, active)
  {
    hide Validate, Acceptable;
    if e.Save? {
      AcceptsExactly(e.candidate, s.pressure, Some(s.ladder));
    }
  }

  ghost predicate PressureHolds(s: Saved, events: seq<Event>) {
    forall i :: 0 <= i <= |events| ==> Run(s, events[..i]).pressure
  }

  /** However many saves are accepted while the pressure lasts, the stored ladder keeps no more than it did when the pressure
    * began. */
  lemma {:induction false} NoCreepUnderPressure(s: Saved, events: seq<Event>)
    requires PressureHolds(s, events)
    ensures !GrowsFrom(Run(s, events).ladder, s.ladder)
    decreases |events|
  {
    if events == [] {
      NoGrowthIsPreorder(s.ladder, s.ladder, s.ladder);
    } else {
      var init, last := events[..|events| - 1], events[|events| - 1];
      assert forall i :: 0 <= i <= |init| ==> init[..i] == events[..i];
      assert events[..|init|] == init;
      NoCreepUnderPressure(s, init);
      var before := Run(s, init);
      var after := Step(before, last);
      hide GrowsFrom, RangeProblem;
      NoGrowthIsPreorder(after.ladder, before.ladder, s.ladder);
      NoGrowthIsPreorder(before.ladder, before.ladder, s.ladder);
    }
  }

  /** At every moment of a run that starts in order, the horizons are in order. */
  lemma {:induction false} RunStaysOrdered(s: Saved, events: seq<Event>)
    requires HorizonsOrdered(s.ladder)
    ensures HorizonsOrdered(Run(s, events).ladder)
    decreases |events|
  {
    if events != [] {
      var before, last := Run(s, events[..|events| - 1]), events[|events| - 1];
      RunStaysOrdered(s, events[..|events| - 1]);
      if last.Save? {
        AcceptedIsOrdered(last.candidate, before.pressure, Some(before.ladder));
      }
      hide Validate;
    }
  }

  // ---------- Settings from before the ladder ----------

  /** `apply_legacy_aliases`. */
  function ApplyLegacyAliases(l: RetentionLadder, retentionHours: int, rollupRetentionDays: int): RetentionLadder {
    var l1 := Max(SatAdd(retentionHours, 23) / 24, 3);
    var l2 := Max(rollupRetentionDays, 7);
    var l3 := if l.l3.enabled then l.l3.(keepDays := Max(l.l3.keepDays, l2)) else l.l3;
    var required := if l3.enabled then l3.keepDays else l2;
    var l4 := if l.l4.enabled && l.l4.keepDays != 0 then l.l4.(keepDays := Max(l.l4.keepDays, required)) else l.l4;
    l.(l1KeepDays := l1, l2KeepDays := l2, l3 := l3, l4 := l4)
  }

  /** Old settings always give horizons in order, they never shorten L3 or L4, and applying them again changes nothing. */
  lemma LegacyAliasesSettle(l: RetentionLadder, retentionHours: int, rollupRetentionDays: int)
    ensures var once := ApplyLegacyAliases(l, retentionHours, rollupRetentionDays);
            && HorizonsOrdered(once)
            && AtMost(ReachOf(l.l3, false), ReachOf(once.l3, false))
            && AtMost(ReachOf(l.l4, true), ReachOf(once.l4, true))
            && ApplyLegacyAliases(once, retentionHours, rollupRetentionDays) == once
  {
  }

  /** `x` has the tiers of `l`, none of them shorter. */
  predicate NoTierShorter(x: RetentionLadder, l: RetentionLadder) {
    && x.l3.enabled == l.l3.enabled && x.l4.enabled == l.l4.enabled
    && x.l3.keepDays >= l.l3.keepDays
    && (x.l4.keepDays == 0 <==> l.l4.keepDays == 0) && x.l4.keepDays >= l.l4.keepDays
  }

  /** Old settings keep raw rows for the fewest days, three at least, that cover their hours, and minutes for their days,
    * seven at least; L3 and L4 are lengthened by no more than the order of the horizons asks. Nothing else changes. */
  lemma LegacyIsLeast(l: RetentionLadder, retentionHours: int, rollupRetentionDays: int, x: RetentionLadder)
    requires l.l4.keepDays >= 0
    ensures var once := ApplyLegacyAliases(l, retentionHours, rollupRetentionDays);
            && once.l1KeepDays >= 3 && (retentionHours <= 0x7FFF_FFFF_FFFF_FFFF - 23 ==> 24 * once.l1KeepDays >= retentionHours)
            && (once.l1KeepDays > 3 ==> 24 * (once.l1KeepDays - 1) < retentionHours)
            && once.l2KeepDays >= 7 && once.l2KeepDays >= rollupRetentionDays
            && (once.l2KeepDays == 7 || once.l2KeepDays == rollupRetentionDays)
            && NoTierShorter(once, l)
            && (NoTierShorter(x, l) && x.l2KeepDays == once.l2KeepDays && HorizonsOrdered(x) ==>
                  once.l3.keepDays <= x.l3.keepDays && once.l4.keepDays <= x.l4.keepDays)
            && once == l.(l1KeepDays := once.l1KeepDays, l2KeepDays := once.l2KeepDays, l3 := once.l3, l4 := once.l4)
  {
  }
}

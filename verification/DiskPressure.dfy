/** Disk pressure as a run of measurements (`disk.rs`). */
module DiskPressure {
  import opened Prelude

  /** The persisted state; `sinceMs` is the time of the breach. */
  datatype Pressure = Pressure(active: bool, sinceMs: Option<int>, freeBytes: int, minFreeBytes: int)

  const NO_PRESSURE := Pressure(false, None, 0, 0)

  datatype Transition = Breached | Recovered | Unchanged

  datatype Marker = DiskPressureMarker(atMs: int, freeBytes: int, minFreeBytes: int)
                  | DiskRecoveredMarker(atMs: int, freeBytes: int, minFreeBytes: int)

  /** What one transaction reads and writes. */
  datatype Disk = Disk(stored: Option<Pressure>, lastCheckMs: Option<int>, markers: seq<Marker>)

  /** A measurement and the settings at its time; `committed` tells whether its transaction went through. */
  datatype Measurement = Measurement(free: Option<nat>, minFreeBytes: int, nowMs: int, committed: bool)

  datatype Report = Report(pressure: bool, transition: Transition)

  // ---------- What a run should leave ----------

  /** The measurements that took effect. */
  function Effective(run: seq<Measurement>): seq<Measurement> {
    if run == [] then []
    else
      Effective(run[..|run| - 1])
      + if run[|run| - 1].free.Some? && run[|run| - 1].committed then [run[|run| - 1]] else []
  }

  predicate Low(m: Measurement) { m.free.Some? && Min(m.free.value, I64_MAX) < m.minFreeBytes }

  /** Low is: fewer bytes free than the minimum, a figure of 64 bits with sign. */
  lemma LowMeans(m: Measurement)
    requires m.free.Some? && m.minFreeBytes <= 0x7FFF_FFFF_FFFF_FFFF
    ensures Low(m) <==> m.free.value < m.minFreeBytes
  {
    assert Min(m.free.value, I64_MAX) < m.minFreeBytes <==> m.free.value < m.minFreeBytes;
  }

  /** Pressure after the effective measurements: that of the last one. */
  function ActiveAfter(effective: seq<Measurement>): bool { effective != [] && Low(effective[|effective| - 1]) }

  /** The time since when all measurements have been low. */
  function SinceAfter(effective: seq<Measurement>): Option<int> {
    if !ActiveAfter(effective) then None
    else
      var before := effective[..|effective| - 1];
      if ActiveAfter(before) then SinceAfter(before) else Some(effective[|effective| - 1].nowMs)
  }

  function MarkerOf(m: Measurement): Marker
    requires m.free.Some?
  {
    var free := Min(m.free.value, I64_MAX);
    if Low(m) then DiskPressureMarker(m.nowMs, free, m.minFreeBytes) else DiskRecoveredMarker(m.nowMs, free, m.minFreeBytes)
  }

  ghost predicate AllMeasured(effective: seq<Measurement>) { forall i :: 0 <= i < |effective| ==> effective[i].free.Some? }

  /** One marker for each measurement that differs from the one before; before the first there is no pressure. */
  function MarkersAfter(effective: seq<Measurement>): seq<Marker>
    requires forall i :: 0 <= i < |effective| ==> effective[i].free.Some?
  {
    if effective == [] then []
    else
      var before, last := effective[..|effective| - 1], effective[|effective| - 1];
      MarkersAfter(before) + if Low(last) != ActiveAfter(before) then [MarkerOf(last)] else []
  }

  lemma {:induction false} EffectiveMeasured(run: seq<Measurement>)
    ensures AllMeasured(Effective(run))
  {
    if run != [] {
      EffectiveMeasured(run[..|run| - 1]);
    }
  }

  /** The state and the markers that the effective measurements leave. */
  ghost function DiskAfter(effective: seq<Measurement>): Disk
    requires AllMeasured(effective)
  {
    if effective == [] then Disk(None, None, [])
    else
      var last := effective[|effective| - 1];
      Disk(Some(Pressure(ActiveAfter(effective), SinceAfter(effective), Min(last.free.value, I64_MAX), last.minFreeBytes)),
           Some(last.nowMs), MarkersAfter(effective))
  }

  lemma EffectiveStep(run: seq<Measurement>, m: Measurement)
    ensures Effective(run + [m]) == if m.free.Some? && m.committed then Effective(run) + [m] else Effective(run)
  {
    assert (run + [m])[..|run|] == run;
    assert Effective(run) + [] == Effective(run);
  }

  /** What the stored state tells the next check. */
  lemma StoredSays(effective: seq<Measurement>)
    requires AllMeasured(effective)
    ensures var previous := DiskAfter(effective).stored.UnwrapOr(NO_PRESSURE);
            previous.active == ActiveAfter(effective) && previous.sinceMs == SinceAfter(effective)
    ensures DiskAfter(effective).markers == MarkersAfter(effective)
  {
  }

  lemma DiskStep(effective: seq<Measurement>, m: Measurement)
    requires AllMeasured(effective) && m.free.Some?
    ensures AllMeasured(effective + [m])
    ensures var was := ActiveAfter(effective);
            DiskAfter(effective + [m])
            == Disk(Some(Pressure(Low(m), if !Low(m) then None else if was then SinceAfter(effective) else Some(m.nowMs),
                                  Min(m.free.value, I64_MAX), m.minFreeBytes)),
                    Some(m.nowMs), MarkersAfter(effective) + if Low(m) != was then [MarkerOf(m)] else [])
  {
    assert (effective + [m])[..|effective|] == effective;
  }

  // ---------- The check ----------

  class DiskCheck {
    var stored: Option<Pressure>
    var lastCheckMs: Option<int>
    var markers: seq<Marker>

    constructor ()
      ensures Value() == Disk(None, None, []) && Follows([])
    {
      stored := None;
      lastCheckMs := None;
      markers := [];
    }

    ghost function Value(): Disk
      reads this
    {
      Disk(stored, lastCheckMs, markers)
    }

    /** The state is the one that the measurements so far leave. */
    ghost predicate Follows(run: seq<Measurement>)
      reads this
    {
      AllMeasured(Effective(run)) && Value() == DiskAfter(Effective(run))
    }

    /** Applies one measurement. A failed measurement or transaction changes nothing and gives no report. */
    method ApplyMeasurement(m: Measurement, ghost run: seq<Measurement>) returns (report: Option<Report>)
      requires Follows(run)
      modifies this
      ensures Follows(run + [m])
      ensures m.free.None? || !m.committed ==> report.None? && Value() == old(Value())
      ensures m.free.Some? && m.committed ==>
                var before := ActiveAfter(Effective(run));
                report == Some(Report(Low(m), if Low(m) == before then Unchanged else if Low(m) then Breached else Recovered))
      ensures m.free.Some? && m.committed && m.minFreeBytes <= 0x7FFF_FFFF_FFFF_FFFF ==>
                var low := m.free.value < m.minFreeBytes;
                var was := old(stored).Some? && old(stored).value.active;
                var free := if m.free.value <= 0x7FFF_FFFF_FFFF_FFFF then m.free.value else 0x7FFF_FFFF_FFFF_FFFF;
                && report == Some(Report(low, if low && !was then Breached else if was && !low then Recovered else Unchanged))
                && stored == Some(Pressure(low, if !low then None else if was then old(stored).value.sinceMs else Some(m.nowMs),
                                           free, m.minFreeBytes))
                && lastCheckMs == Some(m.nowMs)
                && markers == old(markers) + (if low == was then []
                                              else if low then [DiskPressureMarker(m.nowMs, free, m.minFreeBytes)]
                                              else [DiskRecoveredMarker(m.nowMs, free, m.minFreeBytes)])
    {
      hide Effective, ActiveAfter, SinceAfter, MarkersAfter, DiskAfter, AllMeasured;
      EffectiveStep(run, m);
      StoredSays(Effective(run));
      if m.free.None? {
        return None;
      }
      DiskStep(Effective(run), m);
      var freeBytes := Min(m.free.value, I64_MAX);
      var pressure := freeBytes < m.minFreeBytes;
      var previous := stored.UnwrapOr(NO_PRESSURE);
      var transition :=
        match (previous.active, pressure)
        case (false, true) => Breached
        case (true, false) => Recovered
        case _ => Unchanged;
      var state := Pressure(pressure,
                            if pressure then if previous.active then previous.sinceMs else Some(m.nowMs) else None,
                            freeBytes, m.minFreeBytes);
      if !m.committed {
        return None;
      }
      stored := Some(state);
      lastCheckMs := Some(m.nowMs);
      match transition {
        case Breached => markers := markers + [DiskPressureMarker(m.nowMs, freeBytes, m.minFreeBytes)];
        case Recovered => markers := markers + [DiskRecoveredMarker(m.nowMs, freeBytes, m.minFreeBytes)];
        case Unchanged => assert markers + [] == markers;
      }
      return Some(Report(pressure, transition));
    }
  }

  // ---------- What the markers tell ----------

  function Count(markers: seq<Marker>, breaches: bool): nat {
    if markers == [] then 0
    else Count(markers[..|markers| - 1], breaches) + if markers[|markers| - 1].DiskPressureMarker? == breaches then 1 else 0
  }

  /** Breaches and recoveries alternate, and the first is a breach. */
  ghost predicate Alternates(markers: seq<Marker>) {
    forall i :: 0 <= i < |markers| ==> (markers[i].DiskPressureMarker? <==> i % 2 == 0)
  }

  /** What the markers say when pressure is `active` since `since`. */
  ghost predicate Tells(markers: seq<Marker>, active: bool, since: Option<int>) {
    && Alternates(markers)
    && (active <==> |markers| % 2 == 1)
    && Count(markers, true) - Count(markers, false) == (if active then 1 else 0)
    && (active ==> since == Some(markers[|markers| - 1].atMs))
    && (!active ==> since.None?)
  }

  lemma NextMarker(markers: seq<Marker>, active: bool, since: Option<int>, next: Marker)
    requires Tells(markers, active, since) && next.DiskPressureMarker? == !active
    ensures Tells(markers + [next], !active, if active then None else Some(next.atMs))
  {
    assert (markers + [next])[..|markers|] == markers;
  }

  /** For every run of measurements under changing minimums: markers alternate from a breach, the breaches exceed the
    * recoveries by one exactly while pressure is active, and `since` is then the time of the last marker, a breach. */
  lemma {:induction false} MarkersTellTheTruth(effective: seq<Measurement>)
    requires AllMeasured(effective)
    ensures Tells(MarkersAfter(effective), ActiveAfter(effective), SinceAfter(effective))
    decreases |effective|
  {
    if effective != [] {
      var before, last := effective[..|effective| - 1], effective[|effective| - 1];
      MarkersTellTheTruth(before);
      hide Tells;
      if Low(last) != ActiveAfter(before) {
        NextMarker(MarkersAfter(before), ActiveAfter(before), SinceAfter(before), MarkerOf(last));
      } else {
        assert MarkersAfter(before) + [] == MarkersAfter(before);
      }
    }
  }

  /** So the persisted state and the recorded markers agree at every moment. */
  lemma StoredStateAgrees(disk: DiskCheck, run: seq<Measurement>)
    requires disk.Follows(run)
    ensures var state := disk.stored.UnwrapOr(NO_PRESSURE);
            Tells(disk.markers, state.active, state.sinceMs)
  {
    hide Tells, MarkersAfter, ActiveAfter, SinceAfter, Effective, DiskAfter;
    MarkersTellTheTruth(Effective(run));
    StoredSays(Effective(run));
  }

  /** A stretch of low measurements has one breach: `since` does not move while pressure lasts. */
  lemma {:induction false} SinceStays(effective: seq<Measurement>, from: nat)
    requires 0 < from <= |effective|
    requires forall i :: from - 1 <= i < |effective| ==> Low(effective[i])
    ensures SinceAfter(effective) == SinceAfter(effective[..from]) && SinceAfter(effective).Some?
    decreases |effective|
  {
    if from == |effective| {
      assert effective[..from] == effective;
      SinceIsSome(effective);
    } else {
      var before := effective[..|effective| - 1];
      assert before[..from] == effective[..from];
      SinceStays(before, from);
    }
  }

  lemma {:induction false} SinceIsSome(effective: seq<Measurement>)
    requires ActiveAfter(effective)
    ensures SinceAfter(effective).Some?
    decreases |effective|
  {
    var before := effective[..|effective| - 1];
    if ActiveAfter(before) {
      SinceIsSome(before);
    }
  }
}

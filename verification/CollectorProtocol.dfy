/** The locks that keep the live collector on the newest stored settings (`writer.rs`). */
module CollectorProtocol {
  import opened Prelude

  const USIZE_MAX: int := 0xFFFF_FFFF_FFFF_FFFF

  /** The stored settings; `other` stands for those the collector does not see. */
  datatype Settings = Settings(topProcessCount: int, detailIntervalSec: int, thermalEnabled: bool, extraChips: seq<string>,
                               other: string)

  datatype CollectorConfig = CollectorConfig(topProcessCount: nat, filesystemsIntervalSec: nat, thermalEnabled: bool,
                                             thermalExtraChips: seq<string>)

  /** `collector_config_from`: values out of range fall back, then are at least one. */
  function ConfigFrom(s: Settings): CollectorConfig {
    var count := if 0 <= s.topProcessCount <= USIZE_MAX then s.topProcessCount else 1;
    var seconds := if 0 <= s.detailIntervalSec <= USIZE_MAX then s.detailIntervalSec else 60;
    CollectorConfig(Max(count, 1), Max(seconds, 1), s.thermalEnabled, s.extraChips)
  }

  /** A configuration is that of these settings: their own figures where these fit, and otherwise one process, one second
    * for none, and sixty for a number no machine word holds. */
  ghost predicate Runs(c: CollectorConfig, s: Settings) {
    && c.topProcessCount == (if 1 <= s.topProcessCount <= 0xFFFF_FFFF_FFFF_FFFF then s.topProcessCount else 1)
    && c.filesystemsIntervalSec == (if 1 <= s.detailIntervalSec <= 0xFFFF_FFFF_FFFF_FFFF then s.detailIntervalSec
                                    else if s.detailIntervalSec == 0 then 1 else 60)
    && c.thermalEnabled == s.thermalEnabled
    && c.thermalExtraChips == s.extraChips
  }

  lemma ConfigRuns(s: Settings)
    ensures Runs(ConfigFrom(s), s)
  {
  }

  // ---------- Tasks ----------

  /** Where a task stands. `mine` is the number of the settings row the task has written, 0 for a tick that writes none;
    * `read` is the number of the row it has read under the lock. */
  datatype Phase =
    | WaitsToCollect                      // a tick before the collector lock
    | Collecting                          // a tick that holds the collector lock
    | Committed(mine: nat)                // a save or an import after its atomic write; a tick after its sample
    | WaitsForConfig(mine: nat)           // waits for the lock of the applied configuration
    | HoldsConfig(mine: nat)              // holds it, before the read
    | HasRead(mine: nat, read: nat)       // has read the newest row, before the comparison
    | WaitsForCollector(mine: nat, read: nat)
    | HoldsBoth(mine: nat, read: nat)     // before the collector is configured
    | Configured(mine: nat, read: nat)    // the collector is configured, the record of it not yet written
    | Finished(mine: nat, read: nat)
    | Failed                              // an error, or the task was dropped

  predicate HasConfigLock(p: Phase) {
    p.HoldsConfig? || p.HasRead? || p.WaitsForCollector? || p.HoldsBoth? || p.Configured?
  }

  predicate HasCollectorLock(p: Phase) { p.Collecting? || p.HoldsBoth? || p.Configured? }

  predicate Ended(p: Phase) { p.Finished? || p.Failed? }

  /** Rows of settings in the order they were stored; the configuration the agent believes applied; the collector's own;
    * and every task ever started. `settled` is the number of the row of the last completed check. */
  datatype State = State(rows: seq<Settings>, applied: Option<CollectorConfig>, collector: CollectorConfig,
                         tasks: seq<Phase>, settled: nat)

  predicate ConfigFree(s: State) { forall t :: 0 <= t < |s.tasks| ==> !HasConfigLock(s.tasks[t]) }

  predicate CollectorFree(s: State) { forall t :: 0 <= t < |s.tasks| ==> !HasCollectorLock(s.tasks[t]) }

  /** One statement of one task, a new task, or the end of one. */
  datatype Action =
    | Save(settings: Settings)
    | Tick
    | Advance(task: nat)
    | Stop(task: nat)

  predicate Enabled(s: State, a: Action) {
    match a
    case Save(_) => true
    case Tick => true
    case Advance(t) =>
      && t < |s.tasks| && !Ended(s.tasks[t])
      && (s.tasks[t].WaitsToCollect? || s.tasks[t].WaitsForCollector? ==> CollectorFree(s))
      && (s.tasks[t].WaitsForConfig? ==> ConfigFree(s))
    // Between configuring and recording there is nothing to wait for, so no task ends there.
    case Stop(t) => t < |s.tasks| && !Ended(s.tasks[t]) && !s.tasks[t].Configured?
  }

  function ReadOf(p: Phase): nat {
    match p
    case HasRead(_, read) => read
    case WaitsForCollector(_, read) => read
    case HoldsBoth(_, read) => read
    case Configured(_, read) => read
    case Finished(_, read) => read
    case _ => 0
  }

  function MineOf(p: Phase): nat {
    match p
    case Committed(mine) => mine
    case WaitsForConfig(mine) => mine
    case HoldsConfig(mine) => mine
    case HasRead(mine, _) => mine
    case WaitsForCollector(mine, _) => mine
    case HoldsBoth(mine, _) => mine
    case Configured(mine, _) => mine
    case Finished(mine, _) => mine
    case _ => 0
  }

  predicate HasReadSome(p: Phase) {
    p.HasRead? || p.WaitsForCollector? || p.HoldsBoth? || p.Configured? || p.Finished?
  }

  predicate ReadBelow(p: Phase, n: nat) { HasReadSome(p) ==> 1 <= ReadOf(p) <= n }

  predicate Readable(s: State) {
    s.rows != [] && forall t :: 0 <= t < |s.tasks| ==> ReadBelow(s.tasks[t], |s.rows|)
  }

  function Put(s: State, t: nat, p: Phase): State
    requires t < |s.tasks|
  {
    s.(tasks := s.tasks[t := p])
  }

  function Do(s: State, a: Action): State
    requires Readable(s) && Enabled(s, a)
  {
    match a
    case Save(settings) => s.(rows := s.rows + [settings], tasks := s.tasks + [Committed(|s.rows| + 1)])
    case Tick => s.(tasks := s.tasks + [WaitsToCollect])
    case Stop(t) => Put(s, t, Failed)
    case Advance(t) =>
      assert ReadBelow(s.tasks[t], |s.rows|);
      match s.tasks[t]
      case WaitsToCollect => Put(s, t, Collecting)
      case Collecting => Put(s, t, Committed(0))
      case Committed(mine) => Put(s, t, WaitsForConfig(mine))
      case WaitsForConfig(mine) => Put(s, t, HoldsConfig(mine))
      case HoldsConfig(mine) => Put(s, t, HasRead(mine, |s.rows|))
      case HasRead(mine, read) =>
        if s.applied == Some(ConfigFrom(s.rows[read - 1])) then Put(s, t, Finished(mine, read)).(settled := read)
        else Put(s, t, WaitsForCollector(mine, read))
      case WaitsForCollector(mine, read) => Put(s, t, HoldsBoth(mine, read))
      case HoldsBoth(mine, read) => Put(s, t, Configured(mine, read)).(collector := ConfigFrom(s.rows[read - 1]))
      case Configured(mine, read) =>
        Put(s, t, Finished(mine, read)).(applied := Some(ConfigFrom(s.rows[read - 1])), settled := read)
  }

  /** A task that finds the configuration of the row it read already applied finishes without the collector; any other
    * goes on to it. Either way it changes nothing yet. */
  lemma SkipsExactly(s: State, t: nat)
    requires Readable(s) && Enabled(s, Advance(t)) && s.tasks[t].HasRead?
    ensures ReadBelow(s.tasks[t], |s.rows|)
    ensures var after, row := Do(s, Advance(t)), s.rows[s.tasks[t].read - 1];
            && (after.tasks[t].Finished? <==> s.applied.Some? && Runs(s.applied.value, row))
            && (!after.tasks[t].Finished? ==> after.tasks[t].WaitsForCollector?)
            && after.collector == s.collector && after.applied == s.applied && after.rows == s.rows
  {
    assert ReadBelow(s.tasks[t], |s.rows|);
    ConfigRuns(s.rows[s.tasks[t].read - 1]);
    hide ConfigFrom;
  }

  // ---------- The invariant ----------

  ghost predicate Exclusive(s: State) {
    && (forall t, u :: 0 <= t < u < |s.tasks| ==> !(HasConfigLock(s.tasks[t]) && HasConfigLock(s.tasks[u])))
    && (forall t, u :: 0 <= t < u < |s.tasks| ==> !(HasCollectorLock(s.tasks[t]) && HasCollectorLock(s.tasks[u])))
  }

  /** What a task knows: its own row is stored, what it read is no older than that or than the last completed check, and a
    * finished task's read is settled. */
  ghost predicate TaskFits(s: State, p: Phase) {
    && ReadBelow(p, |s.rows|)
    && MineOf(p) <= |s.rows|
    && (HasReadSome(p) ==> MineOf(p) <= ReadOf(p))
    && (HasReadSome(p) && !p.Finished? ==> s.settled <= ReadOf(p))
    && (p.Finished? ==> ReadOf(p) <= s.settled)
    && (p.Configured? ==> s.collector == ConfigFrom(s.rows[ReadOf(p) - 1]))
  }

  /** The task that stored row `n` is still known, unless some task failed. */
  ghost predicate Authored(s: State, n: int) {
    exists t :: 0 <= t < |s.tasks| && (s.tasks[t].Failed? || MineOf(s.tasks[t]) == n)
  }

  ghost predicate SomeConfigured(s: State) { exists t :: 0 <= t < |s.tasks| && s.tasks[t].Configured? }

  ghost predicate Valid(s: State) {
    && s.rows != [] && s.settled <= |s.rows|
    && Exclusive(s)
    && (forall t :: 0 <= t < |s.tasks| ==> TaskFits(s, s.tasks[t]))
    && (forall n :: 2 <= n <= |s.rows| ==> Authored(s, n))
    && (s.applied.Some? <==> s.settled > 0)
    && (s.applied.Some? ==> s.applied.value == ConfigFrom(s.rows[s.settled - 1]))
    && (s.applied.Some? && !SomeConfigured(s) ==> s.collector == s.applied.value)
  }

  function Start(first: Settings, collector: CollectorConfig): State { State([first], None, collector, [], 0) }

  lemma StartIsValid(first: Settings, collector: CollectorConfig)
    ensures Valid(Start(first, collector))
  {
  }

  // ---------- Every step keeps it ----------

  lemma AuthoredGrows(s: State, after: State, n: int)
    requires Authored(s, n) && |s.tasks| <= |after.tasks|
    requires forall t :: 0 <= t < |s.tasks| ==>
               (s.tasks[t].Failed? ==> after.tasks[t].Failed?)
               && (MineOf(after.tasks[t]) == MineOf(s.tasks[t]) || MineOf(s.tasks[t]) == 0 || after.tasks[t].Failed?)
    requires n > 0
    ensures Authored(after, n)
  {
    hide MineOf;
    var t :| 0 <= t < |s.tasks| && (s.tasks[t].Failed? || MineOf(s.tasks[t]) == n);
    assert after.tasks[t].Failed? || MineOf(after.tasks[t]) == n;
  }

  lemma AuthorsStay(s: State, after: State)
    requires |s.tasks| <= |after.tasks|
    requires forall t :: 0 <= t < |s.tasks| ==>
               (s.tasks[t].Failed? ==> after.tasks[t].Failed?)
               && (MineOf(after.tasks[t]) == MineOf(s.tasks[t]) || MineOf(s.tasks[t]) == 0 || after.tasks[t].Failed?)
    requires forall n :: 2 <= n <= |s.rows| ==> Authored(s, n)
    ensures forall n :: 2 <= n <= |s.rows| ==> Authored(after, n)
  {
    hide MineOf, Authored;
    forall n | 2 <= n <= |s.rows|
      ensures Authored(after, n)
    {
      AuthoredGrows(s, after, n);
    }
  }

  lemma SaveKeeps(s: State, settings: Settings)
    requires Valid(s)
    ensures Valid(Do(s, Save(settings)))
  {
    hide ConfigFrom;
    var after := Do(s, Save(settings));
    assert forall n :: 0 <= n < |s.rows| ==> after.rows[n] == s.rows[n];
    AuthorsStay(s, after);
    assert Authored(after, |after.rows|) by {
      assert MineOf(after.tasks[|s.tasks|]) == |after.rows|;
    }
    if s.applied.Some? && !SomeConfigured(after) {
      assert !SomeConfigured(s) by {
        assert forall t :: 0 <= t < |s.tasks| ==> after.tasks[t] == s.tasks[t];
      }
    }
  }

  lemma TickKeeps(s: State)
    requires Valid(s)
    ensures Valid(Do(s, Tick))
  {
    var after := Do(s, Tick);
    AuthorsStay(s, after);
    if s.applied.Some? && !SomeConfigured(after) {
      assert !SomeConfigured(s) by {
        assert forall t :: 0 <= t < |s.tasks| ==> after.tasks[t] == s.tasks[t];
      }
    }
  }

  lemma StopKeeps(s: State, t: nat)
    requires Valid(s) && Enabled(s, Stop(t))
    ensures Valid(Do(s, Stop(t)))
  {
    var after := Do(s, Stop(t));
    AuthorsStay(s, after);
    if s.applied.Some? && !SomeConfigured(after) {
      assert !SomeConfigured(s) by {
        assert forall u :: 0 <= u < |s.tasks| && u != t ==> after.tasks[u] == s.tasks[u];
      }
    }
  }

  lemma AdvanceExclusive(s: State, t: nat)
    requires Valid(s) && Enabled(s, Advance(t))
    ensures Exclusive(Do(s, Advance(t)))
  {
    var after := Do(s, Advance(t));
    assert forall u :: 0 <= u < |s.tasks| && u != t ==> after.tasks[u] == s.tasks[u];
    assert HasConfigLock(after.tasks[t]) ==> HasConfigLock(s.tasks[t]) || ConfigFree(s);
    assert HasCollectorLock(after.tasks[t]) ==> HasCollectorLock(s.tasks[t]) || CollectorFree(s);
    hide ConfigFrom, TaskFits, Authored, Do;
  }

  lemma AdvanceFits(s: State, t: nat, u: nat)
    requires Valid(s) && Enabled(s, Advance(t)) && u < |s.tasks|
    ensures TaskFits(Do(s, Advance(t)), Do(s, Advance(t)).tasks[u])
  {
    hide ConfigFrom, Authored, SomeConfigured;
    var after := Do(s, Advance(t));
    assert TaskFits(s, s.tasks[t]) && TaskFits(s, s.tasks[u]);
    if u != t {
      assert after.tasks[u] == s.tasks[u];
    }
  }

  lemma AdvanceAgrees(s: State, t: nat)
    requires Valid(s) && Enabled(s, Advance(t))
    ensures var after := Do(s, Advance(t));
            && s.settled <= after.settled <= |after.rows| && after.rows == s.rows
            && (after.applied.Some? <==> after.settled > 0)
            && (after.applied.Some? ==> after.applied.value == ConfigFrom(after.rows[after.settled - 1]))
            && (after.applied.Some? && !SomeConfigured(after) ==> after.collector == after.applied.value)
  {
    var after := Do(s, Advance(t));
    assert TaskFits(s, s.tasks[t]);
    hide ConfigFrom, Authored, TaskFits;
    assert after.tasks[t].Configured? ==> SomeConfigured(after);
    if SomeConfigured(s) && !s.tasks[t].Configured? {
      var u :| 0 <= u < |s.tasks| && s.tasks[u].Configured?;
      assert after.tasks[u] == s.tasks[u];
    }
  }

  lemma AdvanceKeeps(s: State, t: nat)
    requires Valid(s) && Enabled(s, Advance(t))
    ensures Valid(Do(s, Advance(t))) && s.settled <= Do(s, Advance(t)).settled
  {
    hide TaskFits, Do, Exclusive, SomeConfigured, Authored, ConfigFrom;
    ValidIsReadable(s);
    var after := Do(s, Advance(t));
    AdvanceExclusive(s, t);
    AdvanceAgrees(s, t);
    AdvanceShape(s, t);
    forall u | 0 <= u < |after.tasks|
      ensures TaskFits(after, after.tasks[u])
    {
      AdvanceFits(s, t, u);
    }
    AuthorsStay(s, after);
  }

  lemma ValidIsReadable(s: State)
    requires Valid(s)
    ensures Readable(s)
  {
    hide Exclusive, SomeConfigured, Authored, ConfigFrom;
  }

  /** An advance touches one task. */
  lemma AdvanceShape(s: State, t: nat)
    requires Valid(s) && Enabled(s, Advance(t))
    ensures var after := Do(s, Advance(t));
            && |after.tasks| == |s.tasks| && after.rows == s.rows
            && (forall u :: 0 <= u < |s.tasks| && u != t ==> after.tasks[u] == s.tasks[u])
            && t < |s.tasks| && (MineOf(after.tasks[t]) == MineOf(s.tasks[t]) || after.tasks[t].Failed?)
  {
    hide TaskFits, Exclusive, SomeConfigured, Authored, ConfigFrom;
  }

  /** Every step keeps the invariant, and the stored version the collector runs never goes backwards. */
  lemma StepKeeps(s: State, a: Action)
    requires Valid(s) && Enabled(s, a)
    ensures Readable(s) && Valid(Do(s, a)) && s.settled <= Do(s, a).settled && |s.rows| <= |Do(s, a).rows|
  {
    match a
    case Save(settings) => SaveKeeps(s, settings);
    case Tick => TickKeeps(s);
    case Stop(t) => StopKeeps(s, t);
    case Advance(t) => AdvanceKeeps(s, t); AdvanceAgrees(s, t);
  }

  // ---------- Runs ----------

  predicate Legal(s: State, actions: seq<Action>)
    decreases |actions|
  {
    actions == [] || (Readable(s) && Enabled(s, actions[0]) && Legal(Do(s, actions[0]), actions[1..]))
  }

  function Run(s: State, actions: seq<Action>): State
    requires Legal(s, actions)
    decreases |actions|
  {
    if actions == [] then s else Run(Do(s, actions[0]), actions[1..])
  }

  lemma {:induction false} RunKeeps(s: State, actions: seq<Action>)
    requires Valid(s) && Legal(s, actions)
    ensures Valid(Run(s, actions)) && s.settled <= Run(s, actions).settled
    decreases |actions|
  {
    if actions != [] {
      StepKeeps(s, actions[0]);
      hide Valid, Do, Enabled, Readable;
      RunKeeps(Do(s, actions[0]), actions[1..]);
    }
  }

  /** Whenever the lock of the applied configuration is free, after the first apply, the collector runs exactly the
    * configuration recorded as applied, which is that of a stored row no older than at any earlier moment of the run. */
  lemma AppliedIsLive(first: Settings, collector: CollectorConfig, earlier: seq<Action>, later: seq<Action>)
    requires Legal(Start(first, collector), earlier) && Legal(Run(Start(first, collector), earlier), later)
    ensures var before := Run(Start(first, collector), earlier);
            var s := Run(before, later);
            && (ConfigFree(s) && s.applied.Some? ==> s.collector == s.applied.value)
            && before.settled <= s.settled <= |s.rows|
            && (s.applied.Some? <==> s.settled > 0)
            && (s.applied.Some? ==> s.applied.value == ConfigFrom(s.rows[s.settled - 1])
                                    && Runs(s.applied.value, s.rows[s.settled - 1]))
  {
    StartIsValid(first, collector);
    RunKeeps(Start(first, collector), earlier);
    RunKeeps(Run(Start(first, collector), earlier), later);
    hide Run, ConfigFrom, Exclusive, TaskFits, Authored, Runs;
    var s := Run(Run(Start(first, collector), earlier), later);
    if s.applied.Some? {
      ConfigRuns(s.rows[s.settled - 1]);
    }
  }

  ghost predicate AllFinished(s: State) { forall t :: 0 <= t < |s.tasks| ==> s.tasks[t].Finished? }

  /** Once every started task has finished without an error, the collector runs the newest stored settings. */
  lemma Converges(first: Settings, collector: CollectorConfig, actions: seq<Action>)
    requires Legal(Start(first, collector), actions)
    requires var s := Run(Start(first, collector), actions); s.tasks != [] && AllFinished(s)
    ensures var s := Run(Start(first, collector), actions);
            s.rows != [] && Runs(s.collector, s.rows[|s.rows| - 1]) && s.applied == Some(s.collector)
  {
    var s := Run(Start(first, collector), actions);
    StartIsValid(first, collector);
    RunKeeps(Start(first, collector), actions);
    hide Run, Legal, ConfigFrom, Runs;
    FinishedIsNewest(s);
    ConfigRuns(s.rows[|s.rows| - 1]);
  }

  lemma FinishedIsNewest(s: State)
    requires Valid(s) && s.tasks != [] && AllFinished(s)
    ensures s.collector == ConfigFrom(s.rows[|s.rows| - 1]) && s.applied == Some(s.collector)
  {
    hide ConfigFrom;
    assert TaskFits(s, s.tasks[0]);
    if |s.rows| > 1 {
      assert Authored(s, |s.rows|);
      var t :| 0 <= t < |s.tasks| && (s.tasks[t].Failed? || MineOf(s.tasks[t]) == |s.rows|);
      assert TaskFits(s, s.tasks[t]);
    }
    assert s.settled == |s.rows|;
    assert !SomeConfigured(s);
  }

  /** Tasks that failed do no lasting harm: one task that has read the newest row and finished is enough. */
  lemma OneReaderIsEnough(s: State, t: nat)
    requires Valid(s) && ConfigFree(s) && t < |s.tasks|
    requires s.tasks[t].Finished? && ReadOf(s.tasks[t]) == |s.rows|
    ensures Runs(s.collector, s.rows[|s.rows| - 1]) && s.applied == Some(s.collector)
  {
    hide ConfigFrom, Runs;
    ConfigRuns(s.rows[|s.rows| - 1]);
    assert TaskFits(s, s.tasks[t]);
    assert !SomeConfigured(s) by {
      assert forall u :: 0 <= u < |s.tasks| ==> !HasConfigLock(s.tasks[u]);
    }
  }

  // ---------- No deadlock ----------

  ghost predicate AllEnded(s: State) { forall t :: 0 <= t < |s.tasks| ==> Ended(s.tasks[t]) }

  /** While a task is unfinished, some task can take its next step: the lock order admits no deadlock. */
  lemma NoDeadlock(s: State) returns (t: nat)
    requires Valid(s) && !AllEnded(s)
    ensures Enabled(s, Advance(t))
  {
    hide ConfigFrom, TaskFits, Authored, SomeConfigured;
    if !CollectorFree(s) {
      var u :| 0 <= u < |s.tasks| && HasCollectorLock(s.tasks[u]);
      return u;
    }
    if !ConfigFree(s) {
      var u :| 0 <= u < |s.tasks| && HasConfigLock(s.tasks[u]);
      return u;
    }
    var u :| 0 <= u < |s.tasks| && !Ended(s.tasks[u]);
    return u;
  }

  function StepsLeft(p: Phase): nat {
    match p
    case WaitsToCollect => 9
    case Collecting => 8
    case Committed(_) => 7
    case WaitsForConfig(_) => 6
    case HoldsConfig(_) => 5
    case HasRead(_, _) => 4
    case WaitsForCollector(_, _) => 3
    case HoldsBoth(_, _) => 2
    case Configured(_, _) => 1
    case _ => 0
  }

  function Work(tasks: seq<Phase>): nat {
    if tasks == [] then 0 else StepsLeft(tasks[0]) + Work(tasks[1..])
  }

  lemma {:induction false} WorkOfUpdate(tasks: seq<Phase>, t: nat, p: Phase)
    requires t < |tasks|
    ensures Work(tasks[t := p]) == Work(tasks) - StepsLeft(tasks[t]) + StepsLeft(p)
    decreases |tasks|
  {
    hide StepsLeft;
    if t == 0 {
      assert tasks[t := p][1..] == tasks[1..];
    } else {
      assert tasks[t := p][1..] == tasks[1..][t - 1 := p];
      WorkOfUpdate(tasks[1..], t - 1, p);
    }
  }

  lemma AdvanceWorks(s: State, t: nat)
    requires Valid(s) && Enabled(s, Advance(t))
    ensures Work(Do(s, Advance(t)).tasks) < Work(s.tasks)
    ensures forall u :: 0 <= u < |s.tasks| && !s.tasks[u].Failed? ==> !Do(s, Advance(t)).tasks[u].Failed?
    ensures |Do(s, Advance(t)).tasks| == |s.tasks|
  {
    var after := Do(s, Advance(t));
    AdvanceMovesOn(s, t);
    hide Do, Valid, Enabled, Work, StepsLeft;
    WorkOfUpdate(s.tasks, t, after.tasks[t]);
  }

  lemma AdvanceMovesOn(s: State, t: nat)
    requires Valid(s) && Enabled(s, Advance(t))
    ensures var after := Do(s, Advance(t));
            && |after.tasks| == |s.tasks| && after.tasks == s.tasks[t := after.tasks[t]]
            && StepsLeft(after.tasks[t]) < StepsLeft(s.tasks[t]) && !after.tasks[t].Failed?
  {
    hide ConfigFrom, TaskFits, Authored, Exclusive, SomeConfigured, Work;
  }

  /** From every reachable state the tasks under way can all be run to their end, and if none has failed the collector then
    * runs the newest settings. */
  lemma {:induction false} TasksCanFinish(s: State) returns (actions: seq<Action>)
    requires Valid(s)
    ensures forall i :: 0 <= i < |actions| ==> actions[i].Advance?
    ensures Legal(s, actions) && Valid(Run(s, actions)) && AllEnded(Run(s, actions))
    ensures |Run(s, actions).tasks| == |s.tasks|
    ensures (forall t :: 0 <= t < |s.tasks| ==> !s.tasks[t].Failed?) ==> AllFinished(Run(s, actions))
    decreases Work(s.tasks)
  {
    if AllEnded(s) {
      actions := [];
    } else {
      var t := NoDeadlock(s);
      AdvanceKeeps(s, t);
      AdvanceWorks(s, t);
      var next := Do(s, Advance(t));
      assert Readable(s);
      hide Valid, Do, Readable, Enabled, Work;
      var rest := TasksCanFinish(next);
      actions := [Advance(t)] + rest;
      assert actions[1..] == rest;
    }
  }
}

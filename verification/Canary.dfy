/** What an aborted canary rollout's status still proves about the steps it completed
    (argocdclient/canary_evidence.go), against a model of the controller that leaves that status. */
module Canary {
  import opened Status
  import opened Strings

  const STEP_ANALYSIS_ABORT := "Step-based analysis phase error/failed"

  datatype CanaryStep = CanaryStep(setWeight: int, waits: bool)

  datatype PluginOperation = Run | Terminate | Abort

  datatype PluginPhase = PluginRunning | Successful | PluginFailed | PluginError | Disabled

  /** Times are whole seconds, the resolution the status has. */
  datatype PluginStatus = PluginStatus(
    index: nat, name: string, operation: PluginOperation, phase: PluginPhase, finishedAt: Option<int>)

  datatype Evidence = Evidence(
    steps: seq<CanaryStep>, barrierPlugin: string, plugins: seq<PluginStatus>,
    currentStepIndex: Option<int>, message: string, pausedAt: Option<int>)

  predicate PausedAfter(pausedAt: Option<int>, finishedAt: Option<int>) {
    pausedAt.Some? && finishedAt.Some? && pausedAt.value > finishedAt.value
  }

  // ---- what the evidence says ----

  predicate BarrierRun(e: Evidence, p: PluginStatus) {
    p.name == e.barrierPlugin && p.operation.Run?
  }

  predicate PassedBarrier(e: Evidence, p: PluginStatus) {
    BarrierRun(e, p) && p.phase.Successful?
  }

  /** i is below the current step or below a step whose barrier the controller has started. */
  ghost predicate Reached(e: Evidence, i: int) {
    || (e.currentStepIndex.Some? && i < e.currentStepIndex.value)
    || (exists p :: p in e.plugins && BarrierRun(e, p) && i < p.index)
  }

  /** last is the highest passed barrier, -1 when none passed. */
  ghost predicate IsLastPassed(e: Evidence, last: int) {
    && (forall p :: p in e.plugins && PassedBarrier(e, p) ==> p.index <= last)
    && (last != -1 ==> exists p :: p in e.plugins && PassedBarrier(e, p) && p.index == last)
    && last >= -1
  }

  /** No step in [from, i) waits. */
  predicate NoWaitBefore(steps: seq<CanaryStep>, from: int, i: int) {
    forall j :: from <= j < i && 0 <= j < |steps| ==> !steps[j].waits
  }

  /** i lies after the last passed barrier and at or before the first waiting step behind it. */
  ghost predicate InWindow(e: Evidence, last: int, i: int) {
    last < i && NoWaitBefore(e.steps, last + 1, i)
  }

  /** Of the first n entries, m is the latest in which step k's barrier passed. */
  ghost predicate LatestPass(e: Evidence, n: nat, m: int, k: int) {
    && 0 <= m < n <= |e.plugins| && PassedBarrier(e, e.plugins[m]) && e.plugins[m].index == k
    && forall j :: m < j < n ==> !(PassedBarrier(e, e.plugins[j]) && e.plugins[j].index == k)
  }

  /** The abort, or a pause, happened at or after the first waiting step behind the last passed barrier. */
  ghost predicate WaitWasReached(e: Evidence, last: int) {
    || Contains(e.message, STEP_ANALYSIS_ABORT)
    || (exists m :: LatestPass(e, |e.plugins|, m, last) && PausedAfter(e.pausedAt, e.plugins[m].finishedAt))
  }

  /** That entry finished at f. */
  ghost predicate FinishedAt(e: Evidence, n: nat, k: int, f: Option<int>) {
    exists m :: LatestPass(e, n, m, k) && e.plugins[m].finishedAt == f
  }

  ghost predicate ShowsTraffic(e: Evidence) {
    exists last, i :: IsLastPassed(e, last) && 0 <= i < |e.steps| && e.steps[i].setWeight > 0
                      && (Reached(e, i) || (WaitWasReached(e, last) && InWindow(e, last, i)))
  }

  /** What the first loop has gathered from the first n entries. */
  ghost predicate Gathered(e: Evidence, n: nat, last: int, reached: int, finished: map<int, Option<int>>)
    requires n <= |e.plugins|
  {
    && last >= -1
    && (last != -1 ==> last in finished)
    && (forall j :: 0 <= j < n && PassedBarrier(e, e.plugins[j]) ==> e.plugins[j].index <= last && e.plugins[j].index in finished)
    && (forall k :: k in finished ==> FinishedAt(e, n, k, finished[k]))
    && (e.currentStepIndex.Some? ==> e.currentStepIndex.value <= reached)
    && (forall j :: 0 <= j < n && BarrierRun(e, e.plugins[j]) ==> e.plugins[j].index <= reached)
    && ( || (e.currentStepIndex.Some? && reached == e.currentStepIndex.value)
         || (exists p :: p in e.plugins && BarrierRun(e, p) && reached == p.index)
         || reached == -1)
  }

  lemma GatherNone(e: Evidence)
    ensures Gathered(e, 0, -1, if e.currentStepIndex.Some? then e.currentStepIndex.value else -1, map[])
  {
  }

  lemma GatherFinished(e: Evidence, n: nat, last: int, reached: int, finished: map<int, Option<int>>, k: int)
    requires n < |e.plugins| && Gathered(e, n, last, reached, finished)
    ensures var p := e.plugins[n];
            var finished' := if PassedBarrier(e, p) then finished[p.index as int := p.finishedAt] else finished;
            k in finished' ==> FinishedAt(e, n + 1, k, finished'[k])
  {
    var p := e.plugins[n];
    if PassedBarrier(e, p) && p.index == k {
      assert LatestPass(e, n + 1, n, k);
    } else if k in finished {
      var m :| LatestPass(e, n, m, k) && e.plugins[m].finishedAt == finished[k];
      assert LatestPass(e, n + 1, m, k);
    }
  }

  lemma GatherOne(e: Evidence, n: nat, last: int, reached: int, finished: map<int, Option<int>>)
    requires n < |e.plugins| && Gathered(e, n, last, reached, finished)
    ensures var p := e.plugins[n];
            Gathered(e, n + 1,
                     if PassedBarrier(e, p) && p.index > last then p.index else last,
                     if BarrierRun(e, p) && p.index > reached then p.index else reached,
                     if PassedBarrier(e, p) then finished[p.index as int := p.finishedAt] else finished)
  {
    hide FinishedAt;
    var p := e.plugins[n];
    assert p in e.plugins;
    var finished' := if PassedBarrier(e, p) then finished[p.index as int := p.finishedAt] else finished;
    forall k | k in finished' ensures FinishedAt(e, n + 1, k, finished'[k]) {
      GatherFinished(e, n, last, reached, finished, k);
    }
  }

  lemma OneLatestPass(e: Evidence, n: nat, m: int, o: int, k: int)
    requires LatestPass(e, n, m, k) && LatestPass(e, n, o, k)
    ensures m == o
  {
  }

  lemma GatheredMeans(e: Evidence, last: int, reached: int, finished: map<int, Option<int>>)
    requires Gathered(e, |e.plugins|, last, reached, finished)
    ensures last >= -1 && IsLastPassed(e, last) && forall other :: IsLastPassed(e, other) ==> other == last
    ensures forall i :: 0 <= i ==> (Reached(e, i) <==> i < reached)
    ensures WaitWasReached(e, last) <==>
            Contains(e.message, STEP_ANALYSIS_ABORT)
            || PausedAfter(e.pausedAt, if last in finished then finished[last] else None)
  {
    hide Contains;
    if last in finished {
      var m :| LatestPass(e, |e.plugins|, m, last) && e.plugins[m].finishedAt == finished[last];
      assert e.plugins[m] in e.plugins;
      forall o | LatestPass(e, |e.plugins|, o, last) ensures o == m { OneLatestPass(e, |e.plugins|, o, m, last); }
    }
  }

  /** MovedPastTrafficStep. */
  method MovedPastTrafficStep(e: Evidence) returns (moved: bool)
    ensures moved <==> ShowsTraffic(e)
  {
    hide Gathered, IsLastPassed, Reached, WaitWasReached;
    var last, reached := -1, -1;
    var finished: map<int, Option<int>> := map[];
    if e.currentStepIndex.Some? {
      reached := e.currentStepIndex.value;
    }
    GatherNone(e);
    for n := 0 to |e.plugins|
      invariant Gathered(e, n, last, reached, finished)
    {
      var p := e.plugins[n];
      GatherOne(e, n, last, reached, finished);
      if BarrierRun(e, p) {
        if p.index > reached { reached := p.index; }
        if p.phase.Successful? {
          if p.index > last { last := p.index; }
          finished := finished[p.index as int := p.finishedAt];
        }
      }
    }
    GatheredMeans(e, last, reached, finished);
    for i := 0 to |e.steps|
      invariant forall j :: 0 <= j < i ==> !(e.steps[j].setWeight > 0 && j < reached)
    {
      if e.steps[i].setWeight > 0 && i < reached {
        return true;
      }
    }
    if !Contains(e.message, STEP_ANALYSIS_ABORT) && !PausedAfter(e.pausedAt, if last in finished then finished[last] else None) {
      return false;
    }
    var i := last + 1;
    while i < |e.steps|
      invariant last + 1 <= i
      invariant NoWaitBefore(e.steps, last + 1, i)
      invariant forall j :: last < j < i && j < |e.steps| ==> e.steps[j].setWeight <= 0
    {
      if e.steps[i].setWeight > 0 {
        assert InWindow(e, last, i);
        return true;
      }
      if e.steps[i].waits {
        assert forall j :: i < j ==> !InWindow(e, last, j);
        return false;
      }
      i := i + 1;
    }
    return false;
  }

  // ---- the controller ----

  datatype StepKind = SetWeight(weight: int) | Pause | Analysis | Experiment | Plugin(name: string) | Instant

  function View(kind: StepKind): CanaryStep {
    CanaryStep(if kind.SetWeight? then kind.weight else 0, kind.Pause? || kind.Analysis? || kind.Experiment? || kind.Plugin?)
  }

  /** The rollout and its hidden history: completed holds the steps it really finished. The clock counts
      nanoseconds. */
  datatype Controller = Controller(
    steps: seq<StepKind>, index: nat, clock: nat, plugins: seq<PluginStatus>, pausedAt: Option<int>,
    aborted: bool, message: string, completed: set<nat>)

  const SECOND := 1_000_000_000

  function Seconds(clock: nat): int {
    clock / SECOND
  }

  function Fresh(steps: seq<StepKind>): Controller {
    Controller(steps, 0, 0, [], None, false, "", {})
  }

  datatype Event =
    | Wait(nanoseconds: nat)
    | CompleteStep                          // the current step is done; the index moves on
    | StartPlugin                           // the current step's Run entry is written
    | FinishPlugin(phase: PluginPhase)      // its Run entry ends
    | BeginPause                            // a pause, or an inconclusive step analysis or experiment
    | EndPause                              // the Paused condition turns False, at any later time
    | AbortByStepAnalysis(message: string)
    | AbortOtherwise(message: string)
    | RecordOther(entry: PluginStatus)      // an Abort or Terminate entry
    | ResetIndex                            // the reconcile that acts on the abort
    | HumanPause                            // a person pauses the rollout, wherever it is
    | HumanSkip                             // a person moves it past the current step

  function RunEntryAt(c: Controller, i: nat): (k: int)
    ensures -1 <= k < |c.plugins|
    ensures k >= 0 ==> c.plugins[k].operation.Run? && c.plugins[k].index == i
    ensures k == -1 ==> forall j :: 0 <= j < |c.plugins| ==> !(c.plugins[j].operation.Run? && c.plugins[j].index == i)
  {
    RunEntryBelow(c.plugins, i, |c.plugins|)
  }

  function RunEntryBelow(plugins: seq<PluginStatus>, i: nat, n: nat): (k: int)
    requires n <= |plugins|
    ensures -1 <= k < n
    ensures k >= 0 ==> plugins[k].operation.Run? && plugins[k].index == i
    ensures k == -1 ==> forall j :: 0 <= j < n ==> !(plugins[j].operation.Run? && plugins[j].index == i)
  {
    if n == 0 then -1
    else if plugins[n - 1].operation.Run? && plugins[n - 1].index == i then n - 1
    else RunEntryBelow(plugins, i, n - 1)
  }

  predicate Enabled(c: Controller, ev: Event) {
    match ev
    case Wait(_) => true
    case CompleteStep =>
      && !c.aborted && c.index < |c.steps|
      && (c.steps[c.index].Plugin? ==>
            var k := RunEntryAt(c, c.index);
            k >= 0 && (c.plugins[k].phase.Successful? || c.plugins[k].phase.Disabled?))
    case StartPlugin => !c.aborted && c.index < |c.steps| && c.steps[c.index].Plugin? && RunEntryAt(c, c.index) == -1
    case FinishPlugin(phase) =>
      && !c.aborted && c.index < |c.steps| && c.steps[c.index].Plugin?
      && RunEntryAt(c, c.index) >= 0 && c.plugins[RunEntryAt(c, c.index)].phase.PluginRunning?
    case BeginPause =>
      && !c.aborted && c.index < |c.steps| && c.pausedAt.None?
      && (c.steps[c.index].Pause? || c.steps[c.index].Analysis? || c.steps[c.index].Experiment?)
    case EndPause => true
    case AbortByStepAnalysis(message) => !c.aborted && c.index < |c.steps| && c.steps[c.index].Analysis?
    case AbortOtherwise(message) => !c.aborted && !Contains(message, STEP_ANALYSIS_ABORT)
    case RecordOther(entry) => c.aborted && !entry.operation.Run?
    case ResetIndex => c.aborted
    case HumanPause => !c.aborted && c.pausedAt.None?
    case HumanSkip => !c.aborted && c.index < |c.steps|
  }

  function Step(c: Controller, ev: Event): Controller
    requires Enabled(c, ev)
  {
    match ev
    case Wait(d) => c.(clock := c.clock + d)
    case CompleteStep => c.(index := c.index + 1, completed := c.completed + {c.index})
    case StartPlugin =>
      c.(plugins := c.plugins + [PluginStatus(c.index, c.steps[c.index].name, Run, PluginRunning, None)])
    case FinishPlugin(phase) =>
      var k := RunEntryAt(c, c.index);
      c.(plugins := c.plugins[k := c.plugins[k].(phase := phase, finishedAt := Some(Seconds(c.clock)))])
    case BeginPause => c.(pausedAt := Some(Seconds(c.clock)))
    case EndPause => c.(pausedAt := None)
    case AbortByStepAnalysis(message) => c.(aborted := true, message := message)
    case AbortOtherwise(message) => c.(aborted := true, message := message)
    case RecordOther(entry) => c.(plugins := c.plugins + [entry])
    case ResetIndex => c.(index := 0)
    case HumanPause => c.(pausedAt := Some(Seconds(c.clock)))
    case HumanSkip => c.(index := c.index + 1)
  }

  ghost predicate IsRun(states: seq<Controller>, events: seq<Event>) {
    && |states| == |events| + 1
    && states[0] == Fresh(states[0].steps)
    && forall i :: 0 <= i < |events| ==> Enabled(states[i], events[i]) && states[i + 1] == Step(states[i], events[i])
  }

  /** A read of the rollout's status: its steps, its Run entries in any order (some may be missing), its
      message, its index when set, and the Paused condition when the read carries it. */
  ghost predicate Observes(c: Controller, e: Evidence) {
    && |e.steps| == |c.steps| && (forall i :: 0 <= i < |c.steps| ==> e.steps[i] == View(c.steps[i]))
    && (forall p :: p in e.plugins && p.operation.Run? ==> p in c.plugins)
    && (e.currentStepIndex.Some? ==> e.currentStepIndex.value == c.index)
    && e.message == c.message
    && (e.pausedAt.Some? ==> e.pausedAt == c.pausedAt)
  }

  predicate Traffic(kind: StepKind) {
    kind.SetWeight? && kind.weight > 0
  }

  /** A step with traffic was really completed. */
  predicate TookTraffic(c: Controller) {
    exists i :: i in c.completed && i < |c.steps| && Traffic(c.steps[i])
  }

  predicate WaitBetween(steps: seq<StepKind>, from: nat, i: nat) {
    exists j :: from < j < i && j < |steps| && View(steps[j]).waits
  }

  predicate PassedAt(p: PluginStatus, i: nat) {
    p.operation.Run? && p.phase.Successful? && p.index == i
  }

  /** A pause at second t proves no wait: every plugin that had succeeded before it has a waiting step between
      itself and any step with traffic behind it. */
  predicate PauseProvesWait(c: Controller, t: int) {
    forall p, i ::
      p in c.plugins && PassedAt(p, p.index) && PausedAfter(Some(t), p.finishedAt) && p.index < i < |c.steps| && Traffic(c.steps[i])
      ==> WaitBetween(c.steps, p.index, i)
  }

  /** What a person may do: once a step with traffic is complete, anything; before that, skip a step without
      traffic, and pause where the pause proves a wait. */
  predicate Harmless(c: Controller, ev: Event)
    requires Enabled(c, ev)
  {
    match ev
    case HumanPause => TookTraffic(c) || PauseProvesWait(c, Seconds(c.clock))
    case HumanSkip => TookTraffic(c) || !Traffic(c.steps[c.index])
    case _ => true
  }

  ghost predicate IsHarmlessRun(states: seq<Controller>, events: seq<Event>) {
    IsRun(states, events) && forall i :: 0 <= i < |events| ==> Harmless(states[i], events[i])
  }

  /** How far a run got without completing traffic: no step below front has any, and every trace lies at or below it. */
  ghost predicate NoTrafficYet(c: Controller, front: nat) {
    && front <= |c.steps| && c.index <= front
    && (!c.aborted ==> c.index == front && c.message == "")
    && (forall i :: 0 <= i < front ==> !Traffic(c.steps[i]))
    && (forall p :: p in c.plugins && p.operation.Run? ==> RunTrace(c, front, p))
    && (c.pausedAt.Some? ==> c.pausedAt.value <= Seconds(c.clock) && PauseProvesWait(c, c.pausedAt.value))
    && (Contains(c.message, STEP_ANALYSIS_ABORT) ==> front < |c.steps| && c.steps[front].Analysis?)
  }

  ghost predicate Inv(c: Controller, front: nat) {
    TookTraffic(c) || NoTrafficYet(c, front)
  }

  ghost predicate RunTrace(c: Controller, front: nat, p: PluginStatus) {
    && p.index <= front && p.index < |c.steps|
    && c.steps[p.index].Plugin?
    && (p.finishedAt.Some? ==> p.finishedAt.value <= Seconds(c.clock))
  }

  lemma SecondsGrow(a: nat, b: nat)
    requires a <= b
    ensures Seconds(a) <= Seconds(b)
  {
  }

  lemma EmptyMessageHasNoMarker()
    ensures !Contains("", STEP_ANALYSIS_ABORT)
  {
  }

  /** A pause on a waiting step whose plugin, if it is one, has not succeeded proves that wait. */
  lemma PauseOnAWaitIsHarmless(c: Controller, front: nat)
    requires NoTrafficYet(c, front) && !c.aborted && c.index < |c.steps| && View(c.steps[c.index]).waits
    requires forall p :: p in c.plugins ==> !PassedAt(p, c.index)
    ensures PauseProvesWait(c, Seconds(c.clock))
  {
    forall p, i | p in c.plugins && PassedAt(p, p.index) && PausedAfter(Some(Seconds(c.clock)), p.finishedAt)
                  && p.index < i < |c.steps| && Traffic(c.steps[i])
      ensures WaitBetween(c.steps, p.index, i)
    {
      assert RunTrace(c, front, p) && !PassedAt(p, c.index);
      assert p.index < c.index < i && View(c.steps[c.index]).waits;
    }
  }

  /** What becomes of the plugin entries in one step. */
  lemma StepKeepsTraces(c: Controller, front: nat, ev: Event)
    requires NoTrafficYet(c, front) && Enabled(c, ev)
    ensures var c' := Step(c, ev);
            && (forall p :: p in c'.plugins && p.operation.Run? ==> RunTrace(c', front, p))
            && (forall p :: p in c'.plugins && p.operation.Run? && p !in c.plugins ==>
                  p.finishedAt.Some? ==> p.finishedAt.value == Seconds(c.clock))
  {
    var c' := Step(c, ev);
    SecondsGrow(c.clock, c'.clock);
    forall p | p in c'.plugins && p.operation.Run? ensures RunTrace(c', front, p) {
      if ev.FinishPlugin? {
        var k := RunEntryAt(c, c.index);
        assert c.plugins[k] in c.plugins && RunTrace(c, front, c.plugins[k]);
      }
      if p in c.plugins { assert RunTrace(c, front, p); }
    }
  }

  lemma StepKeepsPause(c: Controller, front: nat, ev: Event)
    requires NoTrafficYet(c, front) && !TookTraffic(c) && Enabled(c, ev) && Harmless(c, ev)
    ensures var c' := Step(c, ev);
            c'.pausedAt.Some? ==> c'.pausedAt.value <= Seconds(c'.clock) && PauseProvesWait(c', c'.pausedAt.value)
  {
    hide TookTraffic, Contains;
    var c' := Step(c, ev);
    SecondsGrow(c.clock, c'.clock);
    StepKeepsTraces(c, front, ev);
    if ev.BeginPause? {
      forall p | p in c.plugins ensures !PassedAt(p, c.index) {
        if p.operation.Run? { assert RunTrace(c, front, p); }
      }
      PauseOnAWaitIsHarmless(c, front);
    }
    if c'.pausedAt.Some? {
      var t := c'.pausedAt.value;
      assert PauseProvesWait(c, t);
      forall p, i | p in c'.plugins && PassedAt(p, p.index) && PausedAfter(Some(t), p.finishedAt)
                    && p.index < i < |c'.steps| && Traffic(c'.steps[i])
        ensures WaitBetween(c'.steps, p.index, i)
      {
        assert p in c.plugins;
      }
    }
  }

  lemma StepKeepsInv(c: Controller, front: nat, ev: Event) returns (front': nat)
    requires Inv(c, front) && Enabled(c, ev) && Harmless(c, ev)
    ensures Inv(Step(c, ev), front')
  {
    hide PauseProvesWait, RunTrace;
    var c' := Step(c, ev);
    front' := front;
    EmptyMessageHasNoMarker();
    if TookTraffic(c) {
      var i :| i in c.completed && i < |c.steps| && Traffic(c.steps[i]);
      assert i in c'.completed && i < |c'.steps| && Traffic(c'.steps[i]);
    } else {
      StepKeepsTraces(c, front, ev);
      StepKeepsPause(c, front, ev);
      if ev.CompleteStep? || ev.HumanSkip? {
        front' := front + 1;
        FurtherTraces(c', front);
        assert ev.CompleteStep? ==> c.index in c'.completed;
      }
    }
  }

  lemma FurtherTraces(c: Controller, front: nat)
    requires forall p :: p in c.plugins && p.operation.Run? ==> RunTrace(c, front, p)
    ensures forall p :: p in c.plugins && p.operation.Run? ==> RunTrace(c, front + 1, p)
  {
  }

  lemma {:induction false} RunKeepsInv(states: seq<Controller>, events: seq<Event>, n: nat) returns (front: nat)
    requires IsHarmlessRun(states, events) && n < |states|
    ensures Inv(states[n], front) && states[n].steps == states[0].steps
  {
    if n == 0 {
      EmptyMessageHasNoMarker();
      front := 0;
    } else {
      hide Inv;
      var before := RunKeepsInv(states, events, n - 1);
      front := StepKeepsInv(states[n - 1], before, events[n - 1]);
    }
  }

  /** What the status of a state without completed traffic can show has no traffic either. */
  lemma NothingToShow(c: Controller, front: nat, e: Evidence)
    requires NoTrafficYet(c, front) && Observes(c, e)
    ensures !ShowsTraffic(e)
  {
    hide Contains, WaitWasReached, IsLastPassed;
    forall last, i | IsLastPassed(e, last) && 0 <= i < |e.steps| && e.steps[i].setWeight > 0
      ensures !Reached(e, i) && !(WaitWasReached(e, last) && InWindow(e, last, i))
    {
      assert e.steps[i] == View(c.steps[i]) && Traffic(c.steps[i]) && i >= front;
      forall p | p in e.plugins && BarrierRun(e, p) ensures p.index <= i {
        assert RunTrace(c, front, p);
      }
      if WaitWasReached(e, last) {
        NoWindow(c, front, e, last, i);
      }
    }
  }

  lemma NoWindow(c: Controller, front: nat, e: Evidence, last: int, i: nat)
    requires NoTrafficYet(c, front) && Observes(c, e) && IsLastPassed(e, last) && WaitWasReached(e, last)
    requires front <= i < |c.steps| && Traffic(c.steps[i])
    ensures !InWindow(e, last, i)
  {
    hide Contains;
    if Contains(e.message, STEP_ANALYSIS_ABORT) {
      if p :| p in e.plugins && PassedBarrier(e, p) && p.index == last {
        assert RunTrace(c, front, p);
      }
      assert last < front < i && e.steps[front] == View(c.steps[front]);
    } else {
      var m :| LatestPass(e, |e.plugins|, m, last) && PausedAfter(e.pausedAt, e.plugins[m].finishedAt);
      var p := e.plugins[m];
      assert p in c.plugins && PassedAt(p, p.index);
      if last < i {
        var j :| last < j < i && View(c.steps[j]).waits;
        assert e.steps[j] == View(c.steps[j]);
      }
    }
  }

  /** Over every run in which people do only what is harmless, and every read of its status, an affirmative answer
      means a setWeight step above 0 was really completed. */
  lemma EvidenceIsSound(states: seq<Controller>, events: seq<Event>, n: nat, e: Evidence)
    requires IsHarmlessRun(states, events) && n < |states|
    requires Observes(states[n], e) && ShowsTraffic(e)
    ensures TookTraffic(states[n])
  {
    hide ShowsTraffic, Observes, TookTraffic, NoTrafficYet;
    var front := RunKeepsInv(states, events, n);
    if NoTrafficYet(states[n], front) {
      NothingToShow(states[n], front, e);
    }
  }

  // ---- what the evidence recognises ----

  /** The read has a highest passed barrier, or none. */
  lemma SomeLastPassed(e: Evidence) returns (last: int)
    ensures IsLastPassed(e, last)
  {
    last := -1;
    for n := 0 to |e.plugins|
      invariant last >= -1
      invariant forall j :: 0 <= j < n && PassedBarrier(e, e.plugins[j]) ==> e.plugins[j].index <= last
      invariant last != -1 ==> exists p :: p in e.plugins && PassedBarrier(e, p) && p.index == last
    {
      if PassedBarrier(e, e.plugins[n]) && e.plugins[n].index > last {
        last := e.plugins[n].index;
        assert e.plugins[n] in e.plugins;
      }
    }
  }

  lemma {:induction false} SomeLatestPass(e: Evidence, n: nat, k: int) returns (m: int)
    requires n <= |e.plugins| && exists j :: 0 <= j < n && PassedBarrier(e, e.plugins[j]) && e.plugins[j].index == k
    ensures LatestPass(e, n, m, k)
  {
    if PassedBarrier(e, e.plugins[n - 1]) && e.plugins[n - 1].index == k {
      m := n - 1;
    } else {
      m := SomeLatestPass(e, n - 1, k);
    }
  }

  /** Every Run entry belongs to the plugin step at its index, and an abort by step analysis keeps its message. */
  ghost predicate WellFormed(c: Controller) {
    && (forall p :: p in c.plugins && p.operation.Run? ==> p.index < |c.steps| && c.steps[p.index] == Plugin(p.name))
    && (!c.aborted ==> c.message == "")
  }

  lemma StepKeepsWellFormed(c: Controller, ev: Event)
    requires WellFormed(c) && Enabled(c, ev)
    ensures WellFormed(Step(c, ev)) && Step(c, ev).steps == c.steps
    ensures c.aborted ==> Step(c, ev).aborted && Step(c, ev).message == c.message
  {
    hide Contains;
    if ev.FinishPlugin? {
      assert c.plugins[RunEntryAt(c, c.index)] in c.plugins;
    }
  }

  lemma {:induction false} RunIsWellFormed(states: seq<Controller>, events: seq<Event>, n: nat)
    requires IsRun(states, events) && n < |states|
    ensures WellFormed(states[n]) && states[n].steps == states[0].steps
  {
    if n > 0 {
      RunIsWellFormed(states, events, n - 1);
      StepKeepsWellFormed(states[n - 1], events[n - 1]);
    }
  }

  lemma {:induction false} AbortStays(states: seq<Controller>, events: seq<Event>, m: nat, n: nat)
    requires IsRun(states, events) && m <= n < |states| && states[m].aborted
    ensures states[n].aborted && states[n].message == states[m].message
  {
    if m < n {
      AbortStays(states, events, m, n - 1);
      RunIsWellFormed(states, events, n - 1);
      StepKeepsWellFormed(states[n - 1], events[n - 1]);
    }
  }

  /** A setWeight step above 0 at position i. */
  ghost predicate TrafficAt(states: seq<Controller>, i: nat)
    requires states != []
  {
    i < |states[0].steps| && states[0].steps[i].SetWeight? && states[0].steps[i].weight > 0
  }

  lemma TrafficIsSeen(states: seq<Controller>, events: seq<Event>, n: nat, e: Evidence, i: nat)
    requires IsRun(states, events) && n < |states| && Observes(states[n], e) && TrafficAt(states, i)
    ensures i < |e.steps| && e.steps[i].setWeight > 0
  {
    RunIsWellFormed(states, events, n);
  }

  /** Once the barrier's plugin step behind a traffic step has started, every read that carries its Run entry, in any
      phase, shows traffic, whatever happened in between. */
  lemma StartedBarrierIsRecognised(states: seq<Controller>, events: seq<Event>, m: nat, n: nat, e: Evidence, i: nat)
    requires IsRun(states, events) && m < n < |states| && Observes(states[n], e)
    requires events[m] == StartPlugin && states[m].steps[states[m].index] == Plugin(e.barrierPlugin)
    requires exists p :: p in e.plugins && p.operation == Run && p.index == states[m].index
    requires TrafficAt(states, i) && i < states[m].index
    ensures ShowsTraffic(e)
  {
    RunIsWellFormed(states, events, m);
    RunIsWellFormed(states, events, n);
    TrafficIsSeen(states, events, n, e, i);
    var p :| p in e.plugins && p.operation == Run && p.index == states[m].index;
    assert p in states[n].plugins && states[n].steps[p.index] == Plugin(p.name);
    assert BarrierRun(e, p) && Reached(e, i);
    var last := SomeLastPassed(e);
  }

  /** Every read that carries an index past a traffic step shows traffic. */
  lemma IndexIsRecognised(states: seq<Controller>, events: seq<Event>, n: nat, e: Evidence, i: nat)
    requires IsRun(states, events) && n < |states| && Observes(states[n], e)
    requires e.currentStepIndex.Some? && TrafficAt(states, i) && i < states[n].index
    ensures ShowsTraffic(e)
  {
    TrafficIsSeen(states, events, n, e, i);
    assert Reached(e, i);
    var last := SomeLastPassed(e);
  }

  /** Every waiting step before position w lies at or before a barrier the read shows as passed. */
  ghost predicate OnlyPassedWaitsBefore(steps: seq<StepKind>, e: Evidence, w: nat) {
    forall j :: 0 <= j < w && j < |steps| && (steps[j].Pause? || steps[j].Analysis? || steps[j].Experiment? || steps[j].Plugin?) ==>
      exists p :: p in e.plugins && Passed(e, p) && j <= p.index
  }

  ghost predicate Passed(e: Evidence, p: PluginStatus) {
    p.operation == Run && p.name == e.barrierPlugin && p.phase == Successful
  }

  lemma ReachedOrInWindow(states: seq<Controller>, events: seq<Event>, n: nat, e: Evidence, last: int, i: nat, w: nat)
    requires IsRun(states, events) && n < |states| && Observes(states[n], e) && TrafficAt(states, i) && i < w
    requires OnlyPassedWaitsBefore(states[0].steps, e, w) && IsLastPassed(e, last)
    ensures Reached(e, i) || InWindow(e, last, i)
  {
    RunIsWellFormed(states, events, n);
    var c := states[n];
    if last >= i {
      var p :| p in e.plugins && PassedBarrier(e, p) && p.index == last;
      assert p in c.plugins && c.steps[p.index] == Plugin(p.name);
      assert last > i;
    } else {
      forall j | 0 <= j < i && j < |e.steps| && e.steps[j].waits ensures j <= last {
        assert e.steps[j] == View(c.steps[j]);
        var p :| p in e.plugins && Passed(e, p) && j <= p.index;
        assert PassedBarrier(e, p);
      }
    }
  }

  /** An abort by the step analysis at w shows the traffic before w, to every later read, as long as no other waiting
      step lies between the last barrier it shows as passed and w. */
  lemma AnalysisAbortIsRecognised(states: seq<Controller>, events: seq<Event>, m: nat, n: nat, e: Evidence, i: nat)
    requires IsRun(states, events) && m < n < |states| && Observes(states[n], e)
    requires events[m].AbortByStepAnalysis? && Contains(events[m].message, "Step-based analysis phase error/failed")
    requires TrafficAt(states, i) && i < states[m].index && OnlyPassedWaitsBefore(states[0].steps, e, states[m].index)
    ensures ShowsTraffic(e)
  {
    hide Contains;
    TrafficIsSeen(states, events, n, e, i);
    AbortStays(states, events, m + 1, n);
    assert e.message == events[m].message;
    var last := SomeLastPassed(e);
    ReachedOrInWindow(states, events, n, e, last, i, states[m].index);
    assert WaitWasReached(e, last);
  }

  /** So does a pause that began at w strictly after every barrier the read shows as passed had finished, when it shows
      one: whoever paused, and whatever aborted the rollout. */
  lemma PauseIsRecognised(states: seq<Controller>, events: seq<Event>, m: nat, n: nat, e: Evidence, i: nat)
    requires IsRun(states, events) && m < n < |states| && Observes(states[n], e)
    requires (events[m].BeginPause? || events[m].HumanPause?) && e.pausedAt == Some(states[m].clock / 1_000_000_000)
    requires exists p :: p in e.plugins && Passed(e, p)
    requires forall p :: p in e.plugins && Passed(e, p) ==> p.finishedAt.Some? && p.finishedAt.value < states[m].clock / 1_000_000_000
    requires TrafficAt(states, i) && i < states[m].index && OnlyPassedWaitsBefore(states[0].steps, e, states[m].index)
    ensures ShowsTraffic(e)
  {
    hide Contains;
    TrafficIsSeen(states, events, n, e, i);
    var last := SomeLastPassed(e);
    ReachedOrInWindow(states, events, n, e, last, i, states[m].index);
    var p :| p in e.plugins && Passed(e, p);
    assert PassedBarrier(e, p) && last != -1;
    var q :| q in e.plugins && PassedBarrier(e, q) && q.index == last;
    var j :| 0 <= j < |e.plugins| && e.plugins[j] == q;
    var k := SomeLatestPass(e, |e.plugins|, last);
    assert e.plugins[k] in e.plugins && Passed(e, e.plugins[k]);
    assert WaitWasReached(e, last);
  }

  /** A waiting first step, the barrier's own included, hides everything behind it from a read that shows no passed
      barrier: only an index or a later Run entry of the barrier can credit a step then. */
  lemma NoCreditBehindAFirstWait(states: seq<Controller>, events: seq<Event>, n: nat, e: Evidence)
    requires IsRun(states, events) && n < |states| && Observes(states[n], e)
    requires |states[0].steps| > 0 && !states[0].steps[0].SetWeight? && states[0].steps[0] != Instant
    requires forall p :: p in e.plugins ==> !Passed(e, p)
    requires forall p :: p in e.plugins && p.operation == Run && p.name == e.barrierPlugin ==> p.index == 0
    requires e.currentStepIndex == None || e.currentStepIndex == Some(0)
    ensures !ShowsTraffic(e)
  {
    hide Contains, WaitWasReached;
    RunIsWellFormed(states, events, n);
    assert e.steps[0] == View(states[n].steps[0]) && e.steps[0].waits && e.steps[0].setWeight == 0;
    forall last, i | IsLastPassed(e, last) && 0 <= i < |e.steps| && e.steps[i].setWeight > 0
      ensures !Reached(e, i) && !InWindow(e, last, i)
    {
      assert forall p :: p in e.plugins ==> (PassedBarrier(e, p) <==> Passed(e, p));
      assert last == -1 && i > 0;
    }
  }

  /** Shifting an entry's position over one that was taken out before it. */
  lemma SamePass(e: Evidence, n: nat, m: int, k: int)
    requires n < |e.plugins| && !(e.plugins[n].operation == Run && e.plugins[n].name == e.barrierPlugin) && m != n
    ensures var f := e.(plugins := e.plugins[..n] + e.plugins[n + 1..]);
            LatestPass(e, |e.plugins|, m, k) <==> LatestPass(f, |f.plugins|, if m < n then m else m - 1, k)
  {
    var f := e.(plugins := e.plugins[..n] + e.plugins[n + 1..]);
    assert forall j :: 0 <= j < n ==> f.plugins[j] == e.plugins[j];
    assert forall j :: n < j < |e.plugins| ==> f.plugins[j - 1] == e.plugins[j];
    assert forall j :: n <= j < |f.plugins| ==> f.plugins[j] == e.plugins[j + 1];
  }

  lemma SameRuns(e: Evidence, n: nat)
    requires n < |e.plugins| && !(e.plugins[n].operation == Run && e.plugins[n].name == e.barrierPlugin)
    ensures var f := e.(plugins := e.plugins[..n] + e.plugins[n + 1..]);
            && (forall i :: Reached(e, i) <==> Reached(f, i))
            && (forall last :: IsLastPassed(e, last) <==> IsLastPassed(f, last))
  {
    var f := e.(plugins := e.plugins[..n] + e.plugins[n + 1..]);
    assert e.plugins == e.plugins[..n] + [e.plugins[n]] + e.plugins[n + 1..];
    forall p | BarrierRun(e, p) ensures p in e.plugins <==> p in f.plugins {}
    assert forall p :: BarrierRun(e, p) <==> BarrierRun(f, p);
    assert forall p :: PassedBarrier(e, p) <==> PassedBarrier(f, p);
  }

  /** Nothing but the barrier's own Run entries counts among the plugin entries: any other can be taken out. */
  lemma OnlyBarrierRunsCount(e: Evidence, n: nat)
    requires n < |e.plugins| && !(e.plugins[n].operation == Run && e.plugins[n].name == e.barrierPlugin)
    ensures ShowsTraffic(e) <==> ShowsTraffic(e.(plugins := e.plugins[..n] + e.plugins[n + 1..]))
  {
    hide Reached, IsLastPassed, WaitWasReached, NoWaitBefore;
    var f := e.(plugins := e.plugins[..n] + e.plugins[n + 1..]);
    SameRuns(e, n);
    forall last ensures WaitWasReached(e, last) <==> WaitWasReached(f, last) {
      SameWait(e, n, last);
    }
    assert forall last, i :: InWindow(e, last, i) <==> InWindow(f, last, i);
  }

  lemma WaitStays(e: Evidence, n: nat, last: int, m: int)
    requires n < |e.plugins| && !(e.plugins[n].operation == Run && e.plugins[n].name == e.barrierPlugin)
    requires LatestPass(e, |e.plugins|, m, last) && PausedAfter(e.pausedAt, e.plugins[m].finishedAt)
    ensures WaitWasReached(e.(plugins := e.plugins[..n] + e.plugins[n + 1..]), last)
  {
    hide Contains;
    var f := e.(plugins := e.plugins[..n] + e.plugins[n + 1..]);
    var o := if m < n then m else m - 1;
    SamePass(e, n, m, last);
    assert f.plugins[o] == e.plugins[m] && LatestPass(f, |f.plugins|, o, last);
  }

  lemma WaitWasThere(e: Evidence, n: nat, last: int, m: int)
    requires n < |e.plugins| && !(e.plugins[n].operation == Run && e.plugins[n].name == e.barrierPlugin)
    requires var f := e.(plugins := e.plugins[..n] + e.plugins[n + 1..]);
             LatestPass(f, |f.plugins|, m, last) && PausedAfter(f.pausedAt, f.plugins[m].finishedAt)
    ensures WaitWasReached(e, last)
  {
    hide Contains;
    var f := e.(plugins := e.plugins[..n] + e.plugins[n + 1..]);
    var o := if m < n then m else m + 1;
    SamePass(e, n, o, last);
    assert e.plugins[o] == f.plugins[m] && LatestPass(e, |e.plugins|, o, last);
  }

  lemma SameWait(e: Evidence, n: nat, last: int)
    requires n < |e.plugins| && !(e.plugins[n].operation == Run && e.plugins[n].name == e.barrierPlugin)
    ensures var f := e.(plugins := e.plugins[..n] + e.plugins[n + 1..]);
            WaitWasReached(e, last) <==> WaitWasReached(f, last)
  {
    hide Contains;
    var f := e.(plugins := e.plugins[..n] + e.plugins[n + 1..]);
    if m :| LatestPass(e, |e.plugins|, m, last) && PausedAfter(e.pausedAt, e.plugins[m].finishedAt) {
      WaitStays(e, n, last, m);
    }
    if m :| LatestPass(f, |f.plugins|, m, last) && PausedAfter(f.pausedAt, f.plugins[m].finishedAt) {
      WaitWasThere(e, n, last, m);
    }
  }

  // ---- what people must not do ----

  ghost predicate Overclaims(states: seq<Controller>, events: seq<Event>, e: Evidence) {
    && IsRun(states, events)
    && var end := states[|events|]; Observes(end, e) && ShowsTraffic(e) && !TookTraffic(end)
  }

  /** An enabled event extends a run. */
  lemma Extend(states: seq<Controller>, events: seq<Event>, ev: Event, next: Controller)
    requires IsRun(states, events)
    requires Enabled(states[|events|], ev) && next == Step(states[|events|], ev)
    ensures IsRun(states + [next], events + [ev])
  {
  }

  function Views(steps: seq<StepKind>): seq<CanaryStep> {
    seq(|steps|, i requires 0 <= i < |steps| => View(steps[i]))
  }

  /** The skip itself already reads as traffic. */
  lemma HarmfulSkipOverclaims(states: seq<Controller>, events: seq<Event>) returns (next: Controller, e: Evidence)
    requires IsRun(states, events)
    requires Enabled(states[|events|], HumanSkip) && !Harmless(states[|events|], HumanSkip)
    ensures next == Step(states[|events|], HumanSkip) && Overclaims(states + [next], events + [HumanSkip], e)
  {
    var c := states[|events|];
    next := Step(c, HumanSkip);
    Extend(states, events, HumanSkip, next);
    e := Evidence(Views(c.steps), "", [], Some(next.index), next.message, None);
    assert IsLastPassed(e, -1) && e.steps[c.index].setWeight > 0 && Reached(e, c.index);
  }

  /** So does the pause, as long as it lasts. */
  lemma HarmfulPauseOverclaims(states: seq<Controller>, events: seq<Event>) returns (next: Controller, e: Evidence)
    requires IsRun(states, events)
    requires Enabled(states[|events|], HumanPause) && !Harmless(states[|events|], HumanPause)
    ensures next == Step(states[|events|], HumanPause) && Overclaims(states + [next], events + [HumanPause], e)
  {
    hide Contains;
    var c := states[|events|];
    var t := Seconds(c.clock);
    next := Step(c, HumanPause);
    Extend(states, events, HumanPause, next);
    var p, i :| p in c.plugins && PassedAt(p, p.index) && PausedAfter(Some(t), p.finishedAt)
                && p.index < i < |c.steps| && Traffic(c.steps[i]) && !WaitBetween(c.steps, p.index, i);
    e := Evidence(Views(c.steps), p.name, [p], None, next.message, Some(t));
    assert p in e.plugins && e.plugins[0] == p;
    assert IsLastPassed(e, p.index);
    assert LatestPass(e, 1, 0, p.index);
    assert InWindow(e, p.index, i) && e.steps[i].setWeight > 0;
  }

  /** After any run in which people did only harmless things, what a person may do next is harmless if and only if no
      read of the status it leaves claims traffic that was not taken. */
  lemma HarmlessExactlyWhenNothingIsOverclaimed(states: seq<Controller>, events: seq<Event>, ev: Event)
    requires IsHarmlessRun(states, events) && Enabled(states[|events|], ev)
    ensures Harmless(states[|events|], ev) <==>
            forall e :: !Overclaims(states + [Step(states[|events|], ev)], events + [ev], e)
  {
    hide ShowsTraffic, Observes, TookTraffic, Enabled, Step;
    var c := states[|events|];
    var next := Step(c, ev);
    var states', events' := states + [next], events + [ev];
    Extend(states, events, ev, next);
    if Harmless(c, ev) {
      forall e ensures !Overclaims(states', events', e) {
        if Observes(next, e) && ShowsTraffic(e) {
          EvidenceIsSound(states', events', |events'|, e);
        }
      }
    } else if ev.HumanSkip? {
      var _, e := HarmfulSkipOverclaims(states, events);
      assert Overclaims(states', events', e);
    } else {
      var _, e := HarmfulPauseOverclaims(states, events);
      assert Overclaims(states', events', e);
    }
  }

  // ---- on which kinds of step a pause is always harmless ----

  /** A harmless run that stands on a step of the kind, free to be paused. */
  ghost predicate StandsOn(states: seq<Controller>, events: seq<Event>, kind: StepKind) {
    && IsHarmlessRun(states, events)
    && var c := states[|events|];
    Enabled(c, HumanPause) && c.index < |c.steps| && c.steps[c.index] == kind
  }

  ghost predicate AlwaysHarmless(kind: StepKind) {
    forall states, events :: StandsOn(states, events, kind) ==> Harmless(states[|events|], HumanPause)
  }

  lemma HarmlessOn(states: seq<Controller>, events: seq<Event>, kind: StepKind)
    requires StandsOn(states, events, kind) && View(kind).waits && !kind.Plugin?
    ensures Harmless(states[|events|], HumanPause)
  {
    hide TookTraffic, Step, Contains;
    var c := states[|events|];
    var front := RunKeepsInv(states, events, |events|);
    if !TookTraffic(c) {
      forall p | p in c.plugins ensures !PassedAt(p, c.index) {
        if p.operation.Run? { assert RunTrace(c, front, p); }
      }
      PauseOnAWaitIsHarmless(c, front);
    }
  }

  /** A run whose plugin succeeded at once and two seconds ago. */
  lemma PluginRun(steps: seq<StepKind>, name: string) returns (states: seq<Controller>, events: seq<Event>)
    requires |steps| > 0 && steps[0] == Plugin(name)
    ensures IsHarmlessRun(states, events)
    ensures states[|events|] ==
            Controller(steps, 0, 2 * SECOND, [PluginStatus(0, name, Run, Successful, Some(0))], None, false, "", {})
  {
    var s0 := Fresh(steps);
    var s1 := s0.(plugins := [PluginStatus(0, name, Run, PluginRunning, None)]);
    var s2 := s0.(plugins := [PluginStatus(0, name, Run, Successful, Some(0))]);
    var s3 := s2.(clock := 2 * SECOND);
    assert RunEntryAt(s1, 0) == 0;
    states, events := [s0, s1, s2, s3], [StartPlugin, FinishPlugin(Successful), Event.Wait(2 * SECOND)];
  }

  lemma ExtendHarmless(states: seq<Controller>, events: seq<Event>, ev: Event, next: Controller)
    requires IsHarmlessRun(states, events)
    requires Enabled(states[|events|], ev) && Harmless(states[|events|], ev) && next == Step(states[|events|], ev)
    ensures IsHarmlessRun(states + [next], events + [ev])
  {
  }

  /** On any other kind of step a harmless run can stand where a pause is not. */
  lemma HarmfulOn(kind: StepKind) returns (states: seq<Controller>, events: seq<Event>)
    requires kind.Plugin? || !View(kind).waits
    ensures StandsOn(states, events, kind) && !Harmless(states[|events|], HumanPause)
  {
    var steps := [if kind.Plugin? then kind else Plugin("b"), if kind.Plugin? then SetWeight(10) else kind, SetWeight(10)];
    states, events := PluginRun(steps, steps[0].name);
    var c := states[|events|];
    var entry := c.plugins[0];
    assert entry in c.plugins && PassedAt(entry, 0) && PausedAfter(Some(2), entry.finishedAt);
    assert Seconds(c.clock) == 2 && Traffic(steps[2]) && !WaitBetween(steps, 0, 2);
    assert !PauseProvesWait(c, 2);
    if !kind.Plugin? {
      assert RunEntryAt(c, 0) == 0;
      var next := c.(index := 1, completed := {0});
      ExtendHarmless(states, events, CompleteStep, next);
      states, events := states + [next], events + [CompleteStep];
      assert !PauseProvesWait(next, 2);
      assert StandsOn(states, events, kind);
    }
  }

  /** A pause on a step is harmless in every harmless run exactly when the step waits and is no plugin. */
  lemma PausesAreHarmlessExactlyOn(kind: StepKind)
    ensures AlwaysHarmless(kind) <==> kind.Pause? || kind.Analysis? || kind.Experiment?
  {
    hide Harmless, Enabled, Step;
    if kind.Pause? || kind.Analysis? || kind.Experiment? {
      forall states, events | StandsOn(states, events, kind) ensures Harmless(states[|events|], HumanPause) {
        HarmlessOn(states, events, kind);
      }
    } else {
      var states, events := HarmfulOn(kind);
    }
  }
}

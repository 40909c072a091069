/** The slip a push creates, and the row it opens for the jobs that claim and report
    (slippy/push.go: initializeSlipForPush). */
module PushRow {
  import opened Status
  import opened Rows
  import opened Claim
  import opened ClaimProtocol
  import opened PostJobs
  import opened Pipeline
  import opened Lookups
  import opened ReconcileFacts

  datatype DispatchIntent = IntentUnspecified | IntentNothing | IntentSomething | IntentUnknown

  /** What the push was told: the components it tracks and whether it dispatches work. */
  datatype Push = Push(components: seq<string>, dispatch: DispatchIntent, at: int)
  {
    predicate DispatchesNothing() {
      dispatch.IntentNothing? || (!dispatch.IntentSomething? && components == [])
    }

    predicate HasComponents() {
      components != [] && !DispatchesNothing()
    }
  }

  function PendingItems(push: Push): (items: seq<Component>)
    ensures push.DispatchesNothing() ==> items == []
    ensures !push.DispatchesNothing() ==> |items| == |push.components|
    ensures forall i :: 0 <= i < |items| ==> items[i].name == push.components[i] && items[i].status == Pending
  {
    if push.DispatchesNothing() then []
    else seq(|push.components|, i requires 0 <= i < |push.components| => Component(push.components[i], Pending))
  }

  /** The status the step at position i starts with. */
  function StartStatus(steps: seq<StepConfig>, i: nat, push: Push): StepStatus
    requires i < |steps|
  {
    if i == 0 && (steps[i].aggregates == "" || push.HasComponents()) then Running else Pending
  }

  function StartSteps(steps: seq<StepConfig>, n: nat, push: Push): map<string, StepStatus>
    requires n <= |steps|
  {
    if n == 0 then map[] else StartSteps(steps, n - 1, push)[steps[n - 1].name := StartStatus(steps, n - 1, push)]
  }

  function StartAggregates(steps: seq<StepConfig>, n: nat, push: Push): map<string, seq<Component>>
    requires n <= |steps|
  {
    if n == 0 then map[]
    else if steps[n - 1].aggregates != "" then StartAggregates(steps, n - 1, push)[steps[n - 1].name := PendingItems(push)]
    else StartAggregates(steps, n - 1, push)
  }

  function SeedEntry(step: string, status: StepStatus, at: int): Entry {
    Entry(step, "", status, at, LIBRARY_ACTOR, "processing push event")
  }

  /** The slip without its identity; no configuration means a lone push_parsed step. */
  function PushSlip(config: Option<seq<StepConfig>>, push: Push): Snapshot {
    match config
    case None => Snapshot(SlipInProgress, map[PUSH_PARSED := Running], map[], [SeedEntry(PUSH_PARSED, Running, push.at)])
    case Some(steps) =>
      var started := StartSteps(steps, |steps|, push);
      var first := if steps == [] then "" else steps[0].name;
      Snapshot(SlipInProgress, started, StartAggregates(steps, |steps|, push),
               [SeedEntry(first, if first in started then started[first] else Pending, push.at)])
  }

  /** initializeSlipForPush. */
  method InitializeSlipForPush(config: Option<seq<StepConfig>>, push: Push) returns (slip: Snapshot)
    ensures slip == PushSlip(config, push)
  {
    var steps: map<string, StepStatus> := map[];
    var aggregates: map<string, seq<Component>> := map[];
    var firstStep := "";
    if config.Some? {
      for i := 0 to |config.value|
        invariant steps == StartSteps(config.value, i, push) && aggregates == StartAggregates(config.value, i, push)
        invariant firstStep == if i == 0 then "" else config.value[0].name
      {
        var step := config.value[i];
        var status := Pending;
        if i == 0 {
          firstStep := step.name;
          if step.aggregates == "" || push.HasComponents() {
            status := Running;
          }
        }
        steps := steps[step.name := status];
        if step.aggregates != "" {
          var items: seq<Component> := [];
          if !push.DispatchesNothing() {
            for j := 0 to |push.components|
              invariant items == PendingItems(push)[..j]
            {
              items := items + [Component(push.components[j], Pending)];
            }
            assert PendingItems(push)[..|push.components|] == PendingItems(push);
          }
          aggregates := aggregates[step.name := items];
        }
      }
    } else {
      firstStep := PUSH_PARSED;
      steps := map[PUSH_PARSED := Running];
    }
    var firstStatus := Pending;
    if firstStep in steps {
      firstStatus := steps[firstStep];
    }
    slip := Snapshot(SlipInProgress, steps, aggregates, [SeedEntry(firstStep, firstStatus, push.at)]);
  }

  // ---- what the row reads at first ----

  lemma {:induction false} StartStepsAre(steps: seq<StepConfig>, n: nat, push: Push)
    requires Pipeline.DistinctNames(steps) && n <= |steps|
    ensures var m := StartSteps(steps, n, push);
            && (forall s :: s in m <==> exists i :: 0 <= i < n && steps[i].name == s)
            && (forall i :: 0 <= i < n ==> m[steps[i].name] == StartStatus(steps, i, push))
  {
    if n > 0 {
      StartStepsAre(steps, n - 1, push);
      assert forall i :: 0 <= i < n - 1 ==> steps[i].name != steps[n - 1].name;
    }
  }

  predicate Aggregates(steps: seq<StepConfig>, n: nat, a: string)
    requires n <= |steps|
  {
    exists i :: 0 <= i < n && steps[i].name == a && steps[i].aggregates != ""
  }

  lemma {:induction false} StartAggregatesAre(steps: seq<StepConfig>, n: nat, push: Push, a: string)
    requires n <= |steps|
    ensures var m := StartAggregates(steps, n, push);
            && (a in m <==> Aggregates(steps, n, a))
            && (a in m ==> m[a] == PendingItems(push))
  {
    if n > 0 {
      StartAggregatesAre(steps, n - 1, push, a);
      assert Aggregates(steps, n, a) <==> Aggregates(steps, n - 1, a) || (steps[n - 1].name == a && steps[n - 1].aggregates != "");
    }
  }

  lemma LookupNames(steps: seq<StepConfig>)
    requires Pipeline.DistinctNames(steps)
    ensures forall i :: 0 <= i < |steps| ==> steps[i].name in LookupOf(steps).steps
    ensures forall i :: 0 <= i < |steps| && steps[i].aggregates != "" ==> steps[i].name in LookupOf(steps).componentOf
    ensures forall i, j :: 0 <= i < j < |steps| ==> steps[i].name != steps[j].name
  {
    forall i | 0 <= i < |steps|
      ensures steps[i].name in LookupOf(steps).steps
      ensures steps[i].aggregates != "" ==> steps[i].name in LookupOf(steps).componentOf
    {
      ByNameAt(steps, i);
    }
  }

  /** What a push's slip holds: its first step runs unless it is an aggregate with nothing to track, every other step is
      pending, every aggregate lists each tracked component as pending, in order, and the history one entry that says
      how the first step starts. */
  lemma PushSlipMeans(config: Option<seq<StepConfig>>, push: Push)
    requires config.Some? ==> Pipeline.DistinctNames(config.value)
    ensures var slip := PushSlip(config, push);
            && slip.status == SlipInProgress
            && (config.None? ==> slip.steps == map["push_parsed" := Running] && slip.aggregates == map[])
            && (config.Some? ==>
                  && (forall s :: s in slip.steps <==> exists i :: 0 <= i < |config.value| && config.value[i].name == s)
                  && (forall i :: 0 <= i < |config.value| ==>
                        slip.steps[config.value[i].name] ==
                        if i == 0 && (config.value[0].aggregates == "" || (push.components != [] && push.dispatch != IntentNothing))
                        then Running else Pending)
                  && (forall a :: a in slip.aggregates <==>
                        exists i :: 0 <= i < |config.value| && config.value[i].name == a && config.value[i].aggregates != "")
                  && (forall a :: a in slip.aggregates ==> TracksAll(push, slip.aggregates[a])))
            && |slip.history| == 1 && slip.history[0].component == "" && slip.history[0].actor == LIBRARY_ACTOR
            && slip.history[0].at == push.at
            && slip.history[0].step == (if config.None? then "push_parsed" else if config.value == [] then "" else config.value[0].name)
            && slip.history[0].status == (if slip.history[0].step in slip.steps then slip.steps[slip.history[0].step] else Pending)
  {
    if config.Some? {
      var steps := config.value;
      StartStepsAre(steps, |steps|, push);
      forall a
        ensures a in StartAggregates(steps, |steps|, push) <==> Aggregates(steps, |steps|, a)
        ensures a in StartAggregates(steps, |steps|, push) ==> TracksAll(push, StartAggregates(steps, |steps|, push)[a])
      {
        StartAggregatesAre(steps, |steps|, push, a);
      }
    }
  }

  /** Each of the push's components as pending, in order, unless it said that it dispatches nothing. */
  predicate TracksAll(push: Push, items: seq<Component>) {
    && |items| == (if push.dispatch == IntentNothing then 0 else |push.components|)
    && forall j :: 0 <= j < |items| ==> items[j] == Component(push.components[j], Pending)
  }

  /** The first step reads running from the start. */
  predicate StartsRunning(steps: seq<StepConfig>, push: Push) {
    steps != [] && StartStatus(steps, 0, push).Running? && steps[0].name != PUSH_PARSED
  }

  /** The row of an accepted configuration's push, new or written over an unclaimed one whose reported states it
      keeps: no job is at work, nothing is stalled, the first step alone may be owed a report, and the run reads in
      flight exactly when it is. */
  lemma PushOpensTheRow(steps: seq<StepConfig>, push: Push, s: Store, id: string)
    requires ValidConfig(steps)
    requires id in s ==> forall a :: a in LookupOf(steps).componentOf ==> DistinctComponents(Active(LookupOf(steps), s[id].events, a))
    ensures var cfg := LookupOf(steps);
            var w := World(Upsert(s, id, PushSlip(Some(steps), push))[id], cfg.steps);
            && Opened(cfg, w) && RolledUp(cfg, w.row)
            && (forall k :: !AtWork(cfg, w, k)) && (forall a :: !Stalled(cfg, w, a))
            && (forall x :: Owed(w, x) <==> StartsRunning(steps, push) && x == steps[0].name)
            && (InFlight(w.row) <==> StartsRunning(steps, push))
  {
    hide AggregateMap, GoodNames, NoSharedColumn, AllPrerequisitesKnown, Graph.Acyclic, LookupOf;
    var cfg := LookupOf(steps);
    var row := Upsert(s, id, PushSlip(Some(steps), push))[id];
    var w := World(row, cfg.steps);
    LookupNames(steps);
    StartStepsAre(steps, |steps|, push);
    forall a ensures a in row.aggregates ==> row.aggregates[a] == PendingItems(push) && a in cfg.componentOf {
      StartAggregatesAre(steps, |steps|, push, a);
    }
    ValidLookupIsConsistent(steps);
    assert NoneRuns(PendingItems(push));
    if id !in s {
      forall a ensures Active(cfg, row.events, a) == {} {}
    }
    forall x | x in row.steps
      ensures row.steps[x].IsRunning() <==> StartStatus(steps, 0, push).Running? && x == steps[0].name
      ensures row.steps[x].Pending? || row.steps[x].Running?
    {
      var i :| 0 <= i < |steps| && steps[i].name == x;
      assert row.steps[x] == StartStatus(steps, i, push);
    }
    NewRowIsRolledUp(cfg, row);
    NoItemRuns(row);
    forall k ensures !AtWork(cfg, w, k) {
      if k.component != "" && Resolve(cfg, k.step).Some? { ResolvesToAnAggregate(cfg, k.step); }
    }
  }

  lemma NoItemRuns(row: Row)
    requires forall a :: a in row.aggregates ==> NoneRuns(row.aggregates[a])
    ensures forall a :: a in row.aggregates ==> !ComponentInFlight(row.aggregates[a])
  {
    forall a | a in row.aggregates ensures !ComponentInFlight(row.aggregates[a]) {
      assert forall i :: 0 <= i < |row.aggregates[a]| ==> row.aggregates[a][i] in row.aggregates[a];
    }
  }

  /** A job claims such a row, new or unclaimed, exactly when it names the status in progress, or names none while the
      first step has not been started; the claimed row then starts the runs a claim outlives. */
  lemma PushedRowIsClaimedExactlyWhen(steps: seq<StepConfig>, push: Push, s: Store, id: string, expected: seq<SlipStatus>,
                                      actor: Utf8.Bytes, at: int)
    requires ValidConfig(steps)
    requires id in s ==> !s[id].Claimed()
    requires id in s ==> forall a :: a in LookupOf(steps).componentOf ==> DistinctComponents(Active(LookupOf(steps), s[id].events, a))
    ensures var cfg := LookupOf(steps);
            var row := ClaimRow(Upsert(s, id, PushSlip(Some(steps), push))[id], expected, actor, at);
            && (row.Claimed() <==> SlipInProgress in expected || (expected == [] && !StartsRunning(steps, push)))
            && Opened(cfg, World(row, cfg.steps))
  {
    hide ValidConfig, LookupOf, StartSteps, StartAggregates, InFlight;
    PushOpensTheRow(steps, push, s, id);
  }
}

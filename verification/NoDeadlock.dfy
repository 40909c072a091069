/** A validated pipeline always has something to do (slippy/pipeline_config.go, slippy/prereqs.go). */
module NoDeadlock {
  import opened Status
  import opened Rows
  import opened Graph
  import opened Pipeline
  import opened Lookups
  import opened Prereqs

  predicate Succeeded(row: Row, name: string) {
    name in row.steps && row.steps[name].IsSuccess()
  }

  /** The step at i is not done, and CheckPrerequisites reports what it waits for completed. */
  ghost predicate CanGo(steps: seq<StepConfig>, row: Row, i: nat, prereqs: seq<string>)
    requires i < |steps|
  {
    !Succeeded(row, steps[i].name) && Verdict(Some(LookupOf(steps)), row, prereqs, "") == PrereqCompleted
  }

  ghost predicate Unfinished(steps: seq<StepConfig>, row: Row) {
    exists i :: 0 <= i < |steps| && !Succeeded(row, steps[i].name)
  }

  // ---- what a completed verdict means on a validated configuration ----

  ghost predicate CleanPrereqs(prereqs: seq<string>) {
    forall p :: p in prereqs ==> CleanName(p)
  }

  lemma IdentifierIsClean(name: string)
    requires IsIdentifier(name)
    ensures CleanName(name)
  {
    assert IdentifierPart(name[0]) && IdentifierPart(name[|name| - 1]);
  }

  lemma NamedIsClean(steps: seq<StepConfig>, name: string)
    requires GoodNames(steps) && Named(steps, name)
    ensures CleanName(name)
  {
    var i :| 0 <= i < |steps| && steps[i].name == name;
    assert GoodName(steps[i].name);
    IdentifierIsClean(name);
  }

  lemma StepStatusOf(cfg: Lookup, row: Row, p: string)
    ensures StatusOf(Some(cfg), row, p, "") == if p in row.steps then row.steps[p] else Pending
  {
  }

  lemma CompletedMeans(cfg: Lookup, row: Row, prereqs: seq<string>)
    requires CleanPrereqs(prereqs)
    ensures Verdict(Some(cfg), row, prereqs, "") == PrereqCompleted <==> forall p :: p in prereqs ==> Succeeded(row, p)
  {
    hide CleanName, Names, StatusOf;
    CleanNames(prereqs);
    forall p ensures StatusOf(Some(cfg), row, p, "").IsSuccess() <==> Succeeded(row, p) {
      StepStatusOf(cfg, row, p);
    }
  }

  // ---- explicit prerequisites ----

  lemma PrereqsAreClean(steps: seq<StepConfig>, i: nat)
    requires GoodNames(steps) && AllPrerequisitesKnown(steps) && i < |steps|
    ensures CleanPrereqs(steps[i].prerequisites)
  {
    hide Named, CleanName, GoodNames;
    assert KnownPrerequisites(steps, steps[i]);
    forall p | p in steps[i].prerequisites ensures CleanName(p) { NamedIsClean(steps, p); }
  }

  ghost function Unsuccessful(steps: seq<StepConfig>, row: Row): set<string> {
    set i | 0 <= i < |steps| && !Succeeded(row, steps[i].name) :: steps[i].name
  }

  /** A step the graph does not hold back within the unsuccessful ones can go. */
  lemma FreeStep(steps: seq<StepConfig>, row: Row, g: Digraph) returns (i: nat)
    requires Unfinished(steps, row) && !Stuck(g, Unsuccessful(steps, row))
    ensures i < |steps| && !Succeeded(row, steps[i].name)
    ensures forall p :: Edge(g, steps[i].name, p) && Named(steps, p) ==> Succeeded(row, p)
  {
    var s := Unsuccessful(steps, row);
    var a :| a in s && !WaitsInside(g, s, a);
    i :| 0 <= i < |steps| && !Succeeded(row, steps[i].name) && steps[i].name == a;
    forall p | Edge(g, a, p) && Named(steps, p) ensures Succeeded(row, p) {
      var j :| 0 <= j < |steps| && steps[j].name == p;
      assert p in s || Succeeded(row, p);
    }
  }

  lemma SomeoneIsUnsuccessful(steps: seq<StepConfig>, row: Row)
    requires Unfinished(steps, row)
    ensures Unsuccessful(steps, row) != {}
  {
    var i :| 0 <= i < |steps| && !Succeeded(row, steps[i].name);
    assert steps[i].name in Unsuccessful(steps, row);
  }

  /** In every state in which some step has not succeeded, some unsuccessful step's own prerequisites are all
      reported completed. */
  lemma ValidNeverDeadlocks(steps: seq<StepConfig>, row: Row) returns (i: nat)
    requires ValidConfig(steps) && Unfinished(steps, row)
    ensures i < |steps| && CanGo(steps, row, i, steps[i].prerequisites)
  {
    hide CleanName, Stuck, Unsuccessful, Unfinished, Named, ByName, Verdict, GoodNames, NoSharedColumn, UniqueAggregates;
    var g := GraphOf(steps);
    AcyclicExactlyWhenNothingIsStuck(g);
    SomeoneIsUnsuccessful(steps, row);
    i := FreeStep(steps, row, g);
    GraphOfIs(steps);
    ByNameAt(steps, i);
    PrereqsAreClean(steps, i);
    CompletedMeans(LookupOf(steps), row, steps[i].prerequisites);
    assert KnownPrerequisites(steps, steps[i]);
  }

  // ---- effective prerequisites ----

  lemma EffectiveIsKnown(steps: seq<StepConfig>, i: nat, p: string)
    requires AllPrerequisitesKnown(steps) && i < |steps| && p in Effective(steps, i)
    ensures Named(steps, p)
  {
    if p in steps[i].prerequisites {
      assert KnownPrerequisites(steps, steps[i]);
    } else {
      GatesAre(steps[..i], p);
      var j :| 0 <= j < i && steps[..i][j].name == p;
      assert steps[j].name == p;
    }
  }

  lemma EffectiveIsClean(steps: seq<StepConfig>, i: nat)
    requires GoodNames(steps) && AllPrerequisitesKnown(steps) && i < |steps|
    ensures CleanPrereqs(Effective(steps, i))
  {
    hide Named, CleanName, GoodNames, Effective;
    forall p | p in Effective(steps, i) ensures CleanName(p) {
      EffectiveIsKnown(steps, i, p);
      NamedIsClean(steps, p);
    }
  }

  ghost predicate EffectivelyLive(steps: seq<StepConfig>, row: Row) {
    Unfinished(steps, row) ==> exists i :: 0 <= i < |steps| && CanGo(steps, row, i, Effective(steps, i))
  }

  lemma AcyclicIsLive(steps: seq<StepConfig>, row: Row)
    requires ValidConfig(steps) && Acyclic(EffectiveGraph(steps))
    ensures EffectivelyLive(steps, row)
  {
    hide CleanName, Stuck, Unsuccessful, Unfinished, Named, ByName, Verdict, GoodNames, NoSharedColumn, UniqueAggregates, Effective, LookupOf;
    if Unfinished(steps, row) {
      var g := EffectiveGraph(steps);
      AcyclicExactlyWhenNothingIsStuck(g);
      SomeoneIsUnsuccessful(steps, row);
      var i := FreeStep(steps, row, g);
      ByNameAt(steps, i);
      EffectiveIsClean(steps, i);
      CompletedMeans(LookupOf(steps), row, Effective(steps, i));
      forall p | p in Effective(steps, i) ensures Succeeded(row, p) {
        EffectiveIsKnown(steps, i, p);
        assert Edge(g, steps[i].name, p);
      }
    }
  }

  /** Exactly the steps of s are still pending. */
  function Waiting(steps: seq<StepConfig>, s: set<string>): Row {
    Row(SlipInProgress, SlipUnset, map n | n in ByName(steps) :: if n in s then Pending else Completed, map[], map[], [])
  }

  lemma WaitingMeans(steps: seq<StepConfig>, s: set<string>, a: string)
    requires a in ByName(steps)
    ensures Succeeded(Waiting(steps, s), a) <==> a !in s
  {
  }

  /** What the names of a configuration must be for its verdicts to mean what they say. */
  ghost predicate WellNamed(steps: seq<StepConfig>) {
    GoodNames(steps) && Pipeline.DistinctNames(steps) && AllPrerequisitesKnown(steps)
  }

  lemma ValidIsWellNamed(steps: seq<StepConfig>)
    requires ValidConfig(steps)
    ensures WellNamed(steps)
  {
  }

  lemma StuckStepCannotGo(steps: seq<StepConfig>, s: set<string>, i: nat)
    requires WellNamed(steps) && Stuck(EffectiveGraph(steps), s) && i < |steps|
    ensures !CanGo(steps, Waiting(steps, s), i, Effective(steps, i))
  {
    hide CleanName, ByName, Verdict, GoodNames, Effective, LookupOf, Waiting, Succeeded,
      AllPrerequisitesKnown, WaitsInside;
    var g, row, name := EffectiveGraph(steps), Waiting(steps, s), steps[i].name;
    ByNameAt(steps, i);
    WaitingMeans(steps, s, name);
    if name in s {
      var p := NextInside(g, s, name);
      assert p in Effective(steps, i);
      EffectiveIsClean(steps, i);
      CompletedMeans(LookupOf(steps), row, Effective(steps, i));
      assert p in s && WaitsInside(g, s, p);
      var _ := NextInside(g, s, p);
      WaitingMeans(steps, s, p);
    }
  }

  lemma StuckIsNotLive(steps: seq<StepConfig>, s: set<string>)
    requires WellNamed(steps) && s != {} && Stuck(EffectiveGraph(steps), s)
    ensures !EffectivelyLive(steps, Waiting(steps, s))
  {
    hide ByName, CanGo, WellNamed, Effective, Waiting, Succeeded;
    var a :| a in s;
    var b := NextInside(EffectiveGraph(steps), s, a);
    NameAt(steps, a);
    WaitingMeans(steps, s, a);
    forall i | 0 <= i < |steps| ensures !CanGo(steps, Waiting(steps, s), i, Effective(steps, i)) {
      StuckStepCannotGo(steps, s, i);
    }
  }

  lemma NameAt(steps: seq<StepConfig>, a: string)
    requires a in ByName(steps)
    ensures ByName(steps)[a] < |steps| && steps[ByName(steps)[a]].name == a
  {
  }

  /** With gates counted in, a validated configuration can always go on exactly when its effective graph is
      acyclic, which Validate does not check. */
  lemma EffectivelyLiveExactlyWhenAcyclic(steps: seq<StepConfig>)
    requires ValidConfig(steps)
    ensures (forall row :: EffectivelyLive(steps, row)) <==> Acyclic(EffectiveGraph(steps))
  {
    ValidIsWellNamed(steps);
    hide ValidConfig, EffectivelyLive, Stuck, WellNamed;
    var g := EffectiveGraph(steps);
    AcyclicExactlyWhenNothingIsStuck(g);
    if Acyclic(g) {
      forall row ensures EffectivelyLive(steps, row) { AcyclicIsLive(steps, row); }
    } else {
      var s: set<string> :| s != {} && Stuck(g, s);
      StuckIsNotLive(steps, s);
    }
  }

  /** In particular it can when every explicit prerequisite is listed before its step. */
  lemma ListedEarlierIsLive(steps: seq<StepConfig>, row: Row)
    requires ValidConfig(steps) && ListedEarlier(steps)
    ensures EffectivelyLive(steps, row)
  {
    ListedEarlierIsAcyclic(steps);
    AcyclicIsLive(steps, row);
  }
}

/** The lookups a parsed configuration carries and the prerequisites it really imposes
    (slippy/pipeline_config.go: initialize, GetEffectivePrerequisites). */
module Lookups {
  import opened Rows
  import opened Graph
  import opened Pipeline
  import opened Sorting

  // ---- what initialize builds ----

  /** Each name's step, by its position. */
  function ByName(steps: seq<StepConfig>): (m: map<string, nat>)
    ensures forall n :: n in m ==> m[n] < |steps| && steps[m[n]].name == n
  {
    if steps == [] then map[] else ByName(steps[..|steps| - 1])[steps[|steps| - 1].name := |steps| - 1]
  }

  /** The aggregate step of each component type. */
  function AggregateMap(steps: seq<StepConfig>): map<string, string> {
    if steps == [] then map[]
    else
      var last := steps[|steps| - 1];
      var before := AggregateMap(steps[..|steps| - 1]);
      if last.aggregates != "" then before[last.aggregates := last.name] else before
  }

  function Gates(steps: seq<StepConfig>): seq<string> {
    if steps == [] then []
    else
      var last := steps[|steps| - 1];
      Gates(steps[..|steps| - 1]) + if last.isGate then [last.name] else []
  }

  /** GetComponentStep, for the steps that aggregate something. */
  function ComponentMap(steps: seq<StepConfig>): map<string, string> {
    map n | n in ByName(steps) && steps[ByName(steps)[n]].aggregates != "" :: steps[ByName(steps)[n]].aggregates
  }

  function LookupOf(steps: seq<StepConfig>): Lookup {
    Lookup(ByName(steps).Keys, AggregateMap(steps), ComponentMap(steps))
  }

  /** What the step at position i waits for: its own prerequisites and every gate listed before it. */
  function Effective(steps: seq<StepConfig>, i: nat): seq<string>
    requires i < |steps|
  {
    steps[i].prerequisites + Gates(steps[..i])
  }

  function CharCode(c: char): int {
    c as int
  }

  class PipelineConfig {
    const steps: seq<StepConfig>
    var stepsByName: map<string, nat>
    var aggregateMap: map<string, string>
    var gateSteps: seq<string>

    ghost predicate Initialized()
      reads this
    {
      stepsByName == ByName(steps) && aggregateMap == AggregateMap(steps) && gateSteps == Gates(steps)
    }

    constructor (steps: seq<StepConfig>)
      ensures this.steps == steps
    {
      this.steps := steps;
      stepsByName, aggregateMap, gateSteps := map[], map[], [];
    }

    method Initialize()
      modifies this
      ensures Initialized()
    {
      stepsByName, aggregateMap, gateSteps := map[], map[], [];
      for i := 0 to |steps|
        invariant stepsByName == ByName(steps[..i]) && aggregateMap == AggregateMap(steps[..i]) && gateSteps == Gates(steps[..i])
      {
        assert steps[..i + 1][..i] == steps[..i];
        var step := steps[i];
        stepsByName := stepsByName[step.name := i];
        if step.aggregates != "" {
          aggregateMap := aggregateMap[step.aggregates := step.name];
        }
        if step.isGate {
          gateSteps := gateSteps + [step.name];
        }
      }
      assert steps[..|steps|] == steps;
    }

    /** Every prerequisite once, in order; an unknown step has none. */
    method GetEffectivePrerequisites(stepName: string) returns (prereqs: seq<string>)
      requires Initialized() && Pipeline.DistinctNames(steps)
      ensures stepName !in ByName(steps) ==> prereqs == []
      ensures stepName in ByName(steps) ==>
                forall p :: p in prereqs <==> p in Effective(steps, ByName(steps)[stepName])
      ensures Ascending(CharCode, prereqs)
      ensures forall i, j :: 0 <= i < j < |prereqs| ==> prereqs[i] != prereqs[j]
    {
      if stepName !in stepsByName {
        return [];
      }
      var order := stepsByName[stepName];
      var prereqSet: set<string> := {};
      var explicit := steps[order].prerequisites;
      for i := 0 to |explicit|
        invariant forall p :: p in prereqSet <==> p in explicit[..i]
      {
        assert explicit[..i + 1] == explicit[..i] + [explicit[i]];
        prereqSet := prereqSet + {explicit[i]};
      }
      assert explicit[..|explicit|] == explicit;
      for i := 0 to |gateSteps|
        invariant forall p :: p in prereqSet <==>
                    p in explicit || (p in gateSteps[..i] && p in stepsByName && stepsByName[p] < order)
      {
        assert gateSteps[..i + 1] == gateSteps[..i] + [gateSteps[i]];
        var gate := gateSteps[i];
        if gate in stepsByName && stepsByName[gate] < order {
          prereqSet := prereqSet + {gate};
        }
      }
      assert gateSteps[..|gateSteps|] == gateSteps;
      forall p ensures p in gateSteps && p in stepsByName && stepsByName[p] < order <==> p in Gates(steps[..order]) {
        GatesBefore(steps, order, p);
      }
      prereqs := SortKeys(CharCode, prereqSet);
      AscendingIsDistinct(CharCode, prereqs);
    }
  }

  // ---- reading the lookups of a configuration with distinct names ----

  lemma {:induction false} ByNameAt(steps: seq<StepConfig>, i: nat)
    requires Pipeline.DistinctNames(steps) && i < |steps|
    ensures steps[i].name in ByName(steps) && ByName(steps)[steps[i].name] == i
  {
    var n := |steps| - 1;
    if i < n {
      ByNameAt(steps[..n], i);
      assert steps[i].name != steps[n].name;
    }
  }

  lemma {:induction false} GatesAre(steps: seq<StepConfig>, p: string)
    ensures p in Gates(steps) <==> exists i :: 0 <= i < |steps| && steps[i].name == p && steps[i].isGate
  {
    if steps != [] {
      var n := |steps| - 1;
      GatesAre(steps[..n], p);
      forall i | 0 <= i < n ensures steps[..n][i] == steps[i] {}
    }
  }

  lemma GatesBefore(steps: seq<StepConfig>, order: nat, p: string)
    requires Pipeline.DistinctNames(steps) && order <= |steps|
    ensures p in Gates(steps) && p in ByName(steps) && ByName(steps)[p] < order <==> p in Gates(steps[..order])
  {
    hide ByName, Gates;
    GatesAre(steps, p);
    GatesAre(steps[..order], p);
    if i :| 0 <= i < |steps| && steps[i].name == p && steps[i].isGate {
      ByNameAt(steps, i);
      if i < order {
        assert steps[..order][i] == steps[i];
      }
    }
    if i :| 0 <= i < order && steps[..order][i].name == p && steps[..order][i].isGate {
      ByNameAt(steps, i);
    }
  }

  lemma {:induction false} AggregateMapAt(steps: seq<StepConfig>, i: nat)
    requires UniqueAggregates(steps) && i < |steps| && steps[i].aggregates != ""
    ensures steps[i].aggregates in AggregateMap(steps) && AggregateMap(steps)[steps[i].aggregates] == steps[i].name
  {
    var n := |steps| - 1;
    if i < n {
      assert steps[..n][i] == steps[i];
      AggregateMapAt(steps[..n], i);
      assert steps[i].aggregates != steps[n].aggregates;
    }
  }

  lemma {:induction false} AggregateMapOnlyHolds(steps: seq<StepConfig>, c: string)
    requires c in AggregateMap(steps)
    ensures exists i :: 0 <= i < |steps| && steps[i].aggregates == c != "" && steps[i].name == AggregateMap(steps)[c]
  {
    var n := |steps| - 1;
    if steps[n].aggregates == "" || steps[n].aggregates != c {
      AggregateMapOnlyHolds(steps[..n], c);
      var i :| 0 <= i < n && steps[..n][i].aggregates == c != "" && steps[..n][i].name == AggregateMap(steps[..n])[c];
      assert steps[i] == steps[..n][i];
    }
  }

  /** The lookups of an accepted configuration are each other's inverse: an aggregate step and its component
      type name each other, and nothing else does. */
  lemma ValidLookupIsConsistent(steps: seq<StepConfig>)
    requires ValidConfig(steps)
    ensures ConsistentLookup(LookupOf(steps))
  {
    hide AggregateMap, GoodNames, NoSharedColumn, AllPrerequisitesKnown, Acyclic;
    var cfg := LookupOf(steps);
    forall a | a in cfg.componentOf
      ensures a in cfg.steps && cfg.componentOf[a] in cfg.aggregateOf && cfg.aggregateOf[cfg.componentOf[a]] == a
    {
      var i := ByName(steps)[a];
      assert a in ComponentMap(steps) && steps[i].name == a && steps[i].aggregates == ComponentMap(steps)[a];
      AggregateMapAt(steps, i);
    }
    forall c | c in cfg.aggregateOf
      ensures cfg.aggregateOf[c] in cfg.componentOf && cfg.componentOf[cfg.aggregateOf[c]] == c
    {
      AggregateMapOnlyHolds(steps, c);
      var i :| 0 <= i < |steps| && steps[i].aggregates == c != "" && steps[i].name == cfg.aggregateOf[c];
      ByNameAt(steps, i);
    }
  }

  // ---- the two prerequisite graphs ----

  lemma {:induction false} GraphOfIs(steps: seq<StepConfig>)
    requires Pipeline.DistinctNames(steps)
    ensures GraphOf(steps) == map n | n in ByName(steps) :: steps[ByName(steps)[n]].prerequisites
  {
    if steps != [] {
      var n := |steps| - 1;
      var before := steps[..n];
      GraphOfIs(before);
      forall x | x in ByName(before) ensures steps[ByName(before)[x]] == before[ByName(before)[x]] {}
    }
  }

  /** The graph of what GetEffectivePrerequisites answers. */
  function EffectiveGraph(steps: seq<StepConfig>): Digraph {
    map n | n in ByName(steps) :: Effective(steps, ByName(steps)[n])
  }

  /** Every explicit prerequisite is the name of a step listed earlier. */
  ghost predicate ListedEarlier(steps: seq<StepConfig>) {
    forall i, p :: 0 <= i < |steps| && p in steps[i].prerequisites ==> exists j :: 0 <= j < i && steps[j].name == p
  }

  function StepNames(steps: seq<StepConfig>): seq<string> {
    seq(|steps|, i requires 0 <= i < |steps| => steps[i].name)
  }

  lemma EffectiveListedEarlier(steps: seq<StepConfig>, i: nat, p: string)
    requires ListedEarlier(steps) && i < |steps| && p in Effective(steps, i)
    ensures p in StepNames(steps)[..i]
  {
    if p in steps[i].prerequisites {
      var j :| 0 <= j < i && steps[j].name == p;
      assert StepNames(steps)[..i][j] == p;
    } else {
      GatesAre(steps[..i], p);
      var j :| 0 <= j < i && steps[..i][j].name == p;
      assert StepNames(steps)[..i][j] == p;
    }
  }

  /** Listing explicit prerequisites first makes the effective graph acyclic too: the list is an order. */
  lemma ListedEarlierIsAcyclic(steps: seq<StepConfig>)
    requires Pipeline.DistinctNames(steps) && ListedEarlier(steps)
    ensures Acyclic(EffectiveGraph(steps))
  {
    hide ByName, Effective, ListedEarlier;
    var g, order := EffectiveGraph(steps), StepNames(steps);
    forall i | 0 <= i < |order|
      ensures order[i] in g && forall b :: b in g[order[i]] && b in g ==> b in order[..i]
    {
      ByNameAt(steps, i);
      forall b | b in g[order[i]] ensures b in order[..i] { EffectiveListedEarlier(steps, i, b); }
    }
    forall x | x in g ensures x in order {
      assert order[ByName(steps)[x]] == x;
    }
    OrderedIsAcyclic(g, order);
  }
}

/** Configurations Validate accepts that the rest of the library cannot serve
    (slippy/pipeline_config.go). */
module AcceptedConfigs {
  import opened Status
  import opened Rows
  import opened Graph
  import opened Pipeline
  import opened Lookups
  import opened NoDeadlock
  import opened ClaimProtocol
  import opened SlipColumns
  import opened SlipStore
  import opened SlipRoundTrip
  import opened PostJobs
  import opened ChainedAggregates

  lemma LowerLength(name: string)
    ensures |ToLower(name)| == |name|
    ensures name != "" ==> ToLower(name)[0] == LowerChar(name[0])
  {
  }

  /** A short name that starts with none of the letters the short reserved columns start with. */
  lemma ShortNameIsGood(name: string)
    requires IsIdentifier(name) && |name| <= 7 && LowerChar(name[0]) !in {'s', 'v', 'b'}
    ensures GoodName(name)
  {
    LowerLength(name);
    assert |ToLower(CLAIM_MARKER)| == 12;
    assert |"version"| == 7 && |"branch"| == 6 && |"status"| == 6 && |"sign"| == 4 && |"ancestry"| == 8;
    assert |"correlation_id"| > 7 && |"repository"| > 7 && |"commit_sha"| > 7 && |"created_at"| > 7 && |"updated_at"| > 7
           && |"step_details"| > 7 && |"state_history"| > 7 && |CLAIMED_FROM| > 7 && |RELEASE_MARKER| > 7;
  }

  function Step(name: string, prerequisites: seq<string>): StepConfig {
    StepConfig(name, prerequisites, "", false)
  }

  function GateTooEarly(): seq<StepConfig> {
    [Step("a", []), Step("gate", ["late"]).(isGate := true), Step("late", ["a"])]
  }

  lemma NoAggregateNoClash(a: StepConfig, b: StepConfig)
    requires a.aggregates == "" && b.aggregates == "" && ToLower(a.name) != ToLower(b.name)
    ensures Claims(a) !! Claims(b)
  {
    ClaimsAre(a);
    ClaimsAre(b);
    var x, y := ToLower(StatusColumn(a.name)), ToLower(StatusColumn(b.name));
    assert x[..|a.name|] == ToLower(a.name) && y[..|b.name|] == ToLower(b.name);
    assert |a.name| != |b.name| ==> |x| != |y|;
  }

  lemma GateTooEarlyNames()
    ensures GoodNames(GateTooEarly()) && Pipeline.DistinctNames(GateTooEarly())
  {
    hide GoodName;
    ShortNameIsGood("a");
    ShortNameIsGood("gate");
    ShortNameIsGood("late");
  }

  lemma GateTooEarlyColumns()
    ensures NoSharedColumn(GateTooEarly())
  {
    hide Claims, ToLower;
    var steps := GateTooEarly();
    LowerLength("a");
    LowerLength("gate");
    LowerLength("late");
    NoAggregateNoClash(steps[0], steps[1]);
    NoAggregateNoClash(steps[0], steps[2]);
    NoAggregateNoClash(steps[1], steps[2]);
  }

  lemma GateTooEarlyGraph()
    ensures Acyclic(GraphOf(GateTooEarly()))
  {
    hide Acyclic;
    var steps := GateTooEarly();
    assert steps[..2] == [steps[0], steps[1]] && steps[..2][..1] == [steps[0]] && steps[..2][..1][..0] == [];
    assert GraphOf(steps[..2][..1]) == map["a" := []];
    assert GraphOf(steps[..2]) == map["a" := [], "gate" := ["late"]];
    var g: Digraph := map["a" := [], "gate" := ["late"], "late" := ["a"]];
    assert GraphOf(steps) == g;
    var order := ["a", "late", "gate"];
    assert order[..1] == ["a"] && order[..2] == ["a", "late"];
    OrderedIsAcyclic(g, order);
  }

  lemma GateTooEarlyIsAccepted()
    ensures ValidConfig(GateTooEarly())
  {
    hide Acyclic, GoodNames, NoSharedColumn, GraphOf;
    var steps := GateTooEarly();
    GateTooEarlyNames();
    GateTooEarlyColumns();
    GateTooEarlyGraph();
    assert steps[0].name == "a" && steps[2].name == "late";
    assert AllPrerequisitesKnown(steps);
  }

  lemma GateTooEarlyIsStuck()
    ensures Stuck(EffectiveGraph(GateTooEarly()), {"gate", "late"})
  {
    hide ByName, Gates;
    var steps := GateTooEarly();
    var g := EffectiveGraph(steps);
    ByNameAt(steps, 1);
    ByNameAt(steps, 2);
    assert steps[..2][1] == steps[1];
    GatesAre(steps[..2], "gate");
    assert Edge(g, "gate", "late") && Edge(g, "late", "gate");
    assert WaitsInside(g, {"gate", "late"}, "gate") && WaitsInside(g, {"gate", "late"}, "late");
  }

  /** A gate listed before a step it waits for: accepted, and yet once the first step is done nothing can go
      on, since the gate waits for the step and the step for the gate. */
  lemma AcceptedGateDeadlocks() returns (row: Row)
    ensures ValidConfig(GateTooEarly()) && !EffectivelyLive(GateTooEarly(), row)
  {
    hide ValidConfig, Stuck, EffectivelyLive, EffectiveGraph, WellNamed;
    GateTooEarlyIsAccepted();
    ValidIsWellNamed(GateTooEarly());
    GateTooEarlyIsStuck();
    var s := {"gate", "late"};
    assert "gate" in s;
    StuckIsNotLive(GateTooEarly(), s);
    row := Waiting(GateTooEarly(), s);
  }

  function Chained(): seq<StepConfig> {
    [StepConfig("images", [], "image", false), StepConfig("deploys", [], "images", false)]
  }

  lemma ChainedNames()
    ensures GoodNames(Chained()) && Pipeline.DistinctNames(Chained())
  {
    hide GoodName;
    ShortNameIsGood("images");
    ShortNameIsGood("deploys");
  }

  lemma ChainedColumns()
    ensures NoSharedColumn(Chained())
  {
    hide Claims, ToLower;
    var steps := Chained();
    ClaimsAre(steps[0]);
    ClaimsAre(steps[1]);
    LowerLength("images");
    LowerLength("deploys");
    LowerLength(StatusColumn("images"));
    LowerLength(StatusColumn("deploys"));
    assert StatusColumn("images")[0] == 'i' && StatusColumn("deploys")[0] == 'd';
  }

  lemma ChainedGraph()
    ensures Acyclic(GraphOf(Chained()))
  {
    hide Acyclic;
    var steps := Chained();
    assert steps[..1] == [steps[0]] && steps[..1][..0] == [];
    var g: Digraph := map["images" := [], "deploys" := []];
    assert GraphOf(steps[..1]) == map["images" := []];
    assert GraphOf(steps) == g;
    OrderedIsAcyclic(g, ["images", "deploys"]);
  }

  lemma ChainedIsAccepted()
    ensures ValidConfig(Chained())
    ensures PostJobs.Chained(LookupOf(Chained()), "images")
  {
    hide Acyclic, GoodNames, NoSharedColumn, GraphOf, ByName, AggregateMap;
    var steps := Chained();
    ChainedNames();
    ChainedColumns();
    ChainedGraph();
    assert AllPrerequisitesKnown(steps);
    ByNameAt(steps, 0);
    AggregateMapAt(steps, 1);
    assert "images" in ComponentMap(steps);
  }

  lemma ChainedNamesAreNoMarkers()
    ensures !ReservedMarkerStep("images") && !ReservedMarkerStep("image")
    ensures "image" == ComponentMap(Chained())["images"]
  {
    hide AggregateMap, GoodNames, NoSharedColumn, GraphOf;
    assert ToLower("images")[0] == 'i' && ToLower("image")[0] == 'i';
    ChainedNames();
    ByNameAt(Chained(), 0);
  }

  /** An aggregate step named after another's component type: accepted, and yet its lookup is chained. On every row a
      push creates for it, three reports of components leave the step running for good, with every reported state
      completed; and a start of the step itself is not seen by the release that clears the claim. */
  lemma AcceptedConfigIsChained(w: World) returns (worlds: seq<World>, labels: seq<Label>, start: StepWrite)
    requires Created(LookupOf(Chained()), w)
    ensures ValidConfig(Chained())
    ensures var cfg := LookupOf(Chained());
            && IsInterleaving(cfg, worlds, labels) && worlds[0] == w && |labels| == 3
            && InFlight(worlds[3].row) && worlds[3].row.claimedFrom == w.row.claimedFrom
            && (forall k :: k in worlds[3].row.events ==> worlds[3].row.events[k] == Completed)
            && (forall actor, at :: ReleaseRow(worlds[3].row, actor, at) == worlds[3].row)
    ensures var cfg := LookupOf(Chained());
            && Enabled(cfg, w, Write(start))
            && var after := PostJobs.Written(cfg, w, start);
            && AtWork(cfg, after, EventKey("images", ""))
            && (!InFlight(w.row) ==> forall actor, at :: !ReleaseRow(after.row, actor, at).Claimed())
  {
    hide ValidConfig, LookupOf, InFlight, PostJobs.Written, ReleaseRow, ComponentMap, ReservedMarkerStep;
    ChainedIsAccepted();
    ChainedNamesAreNoMarkers();
    ValidLookupIsConsistent(Chained());
    ChainedComponent();
    assert "images" != PUSH_PARSED by { assert |"images"| == 6 && |PUSH_PARSED| == 11; }
    worlds, labels := ComponentReportsStrandTheClaim(LookupOf(Chained()), w, "images");
    start := ChainedStartIsUnseen(LookupOf(Chained()), w, "images");
  }

  lemma ChainedComponent()
    ensures LookupOf(Chained()).componentOf == ComponentMap(Chained())
  {
  }

  // ---- a step called by a reserved word ----

  function Ordered(): seq<StepConfig> {
    [StepConfig("order", [], "item", false)]
  }

  lemma OrderedIsAccepted()
    ensures ValidConfig(Ordered())
  {
    hide Acyclic, GoodName, Claims;
    var steps := Ordered();
    ShortNameIsGood("order");
    assert GraphOf(steps[..0]) == map[];
    var g: Digraph := map["order" := []];
    assert GraphOf(steps) == g;
    OrderedIsAcyclic(g, ["order"]);
  }

  /** An aggregate step called `order`: accepted, and yet wherever that is a reserved word no slip is ever written
      and none can be loaded. */
  lemma AcceptedConfigIsNeverStored(words: set<string>, row: DbRow, slip: Slip, now: int, forCreate: bool, zero: int)
    requires ReservedWords(words) && "order" in words && CLAIMED_FROM in row && row[CLAIMED_FROM].Overall?
    ensures ValidConfig(Ordered())
    ensures SlipRoundTrip.Written(Ordered(), words, row, slip, now, forCreate, zero) == None
    ensures Load(Ordered(), words, row) == None
  {
    hide ValidConfig, ReservedWords, SlipRoundTrip.Written, Load;
    OrderedIsAccepted();
    assert AlreadyLower("order");
    LowerStays("order");
    assert Ordered()[0].aggregates != "" && !NoReservedWord(Ordered(), words);
    WriteThenLoad(Ordered(), words, row, slip, now, forCreate, zero);
  }
}

/** The pipeline configuration: what Validate accepts, and the lookups initialize builds
    (slippy/pipeline_config.go, slippy/columns.go). */
module Pipeline {
  import opened Status
  import opened Rows
  import opened Graph

  datatype StepConfig = StepConfig(name: string, prerequisites: seq<string>, aggregates: string, isGate: bool)

  // ---- the columns a configuration generates ----

  const FIXED_COLUMNS := [
    "correlation_id", "repository", "branch", "commit_sha",
    "created_at", "updated_at", "status", "step_details", "state_history"]

  const CLAIMED_FROM := "claimed_from"

  const MAX_STEP_NAME_LEN := 63 - |"_status"|

  function StatusColumn(stepName: string): string {
    stepName + "_status"
  }

  /** generatedColumnsFor. */
  function GeneratedColumns(step: StepConfig): seq<string> {
    [StatusColumn(step.name)] + if step.aggregates != "" then [step.name] else []
  }

  /** Identifiers as Postgres reads them unquoted: folded to lower case. */
  function Folded(columns: seq<string>): set<string> {
    if columns == [] then {} else Folded(columns[..|columns| - 1]) + {ToLower(columns[|columns| - 1])}
  }

  /** The columns a step puts into the schema. */
  function Claims(step: StepConfig): set<string> {
    Folded(GeneratedColumns(step))
  }

  lemma ClaimsAre(step: StepConfig)
    ensures Claims(step) == {ToLower(StatusColumn(step.name))} + if step.aggregates != "" then {ToLower(step.name)} else {}
  {
    var first := [StatusColumn(step.name)];
    assert first[..0] == [];
    assert Folded(first) == {ToLower(StatusColumn(step.name))};
    if step.aggregates != "" {
      assert GeneratedColumns(step)[..1] == first;
    }
  }

  predicate IdentifierStart(c: char) {
    'A' <= c <= 'Z' || 'a' <= c <= 'z' || c == '_'
  }

  predicate IdentifierPart(c: char) {
    IdentifierStart(c) || '0' <= c <= '9'
  }

  predicate IsIdentifier(s: string) {
    s != "" && IdentifierStart(s[0]) && forall i :: 0 <= i < |s| ==> IdentifierPart(s[i])
  }

  predicate ReservedColumn(lowered: string) {
    lowered in FIXED_COLUMNS || lowered in [CLAIMED_FROM, "sign", "version", "ancestry"]
  }

  // ---- what Validate accepts ----

  predicate GoodName(name: string) {
    IsIdentifier(name) && |name| <= MAX_STEP_NAME_LEN && !ReservedColumn(ToLower(name)) && !ReservedMarkerStep(name)
  }

  ghost predicate GoodNames(steps: seq<StepConfig>) {
    forall i :: 0 <= i < |steps| ==> GoodName(steps[i].name)
  }

  ghost predicate NoSharedColumn(steps: seq<StepConfig>) {
    forall i, j :: 0 <= i < j < |steps| ==> Claims(steps[i]) !! Claims(steps[j])
  }

  ghost predicate DistinctNames(steps: seq<StepConfig>) {
    forall i, j :: 0 <= i < j < |steps| ==> steps[i].name != steps[j].name
  }

  predicate Named(steps: seq<StepConfig>, name: string) {
    exists i :: 0 <= i < |steps| && steps[i].name == name
  }

  predicate KnownPrerequisites(steps: seq<StepConfig>, step: StepConfig) {
    forall p :: p in step.prerequisites ==> Named(steps, p)
  }

  ghost predicate AllPrerequisitesKnown(steps: seq<StepConfig>) {
    forall i :: 0 <= i < |steps| ==> KnownPrerequisites(steps, steps[i])
  }

  ghost predicate UniqueAggregates(steps: seq<StepConfig>) {
    forall i, j :: 0 <= i < j < |steps| && steps[i].aggregates != "" ==> steps[i].aggregates != steps[j].aggregates
  }

  function GraphOf(steps: seq<StepConfig>): Digraph {
    if steps == [] then map[]
    else
      var last := steps[|steps| - 1];
      GraphOf(steps[..|steps| - 1])[last.name := last.prerequisites]
  }

  ghost predicate ValidConfig(steps: seq<StepConfig>) {
    && steps != [] && steps[0].prerequisites == []
    && GoodNames(steps) && DistinctNames(steps) && NoSharedColumn(steps)
    && AllPrerequisitesKnown(steps)
    && Acyclic(GraphOf(steps))
    && UniqueAggregates(steps)
  }

  /** The names Validate accepts, letter by letter. */
  lemma GoodNameMeans(name: string)
    ensures GoodName(name) <==>
            && 1 <= |name| <= 56 && !('0' <= name[0] <= '9')
            && (forall i :: 0 <= i < |name| ==>
                  'A' <= name[i] <= 'Z' || 'a' <= name[i] <= 'z' || name[i] == '_' || '0' <= name[i] <= '9')
            && ToLower(name) !in FIXED_COLUMNS
            && ToLower(name) != "claimed_from" && ToLower(name) != "sign" && ToLower(name) != "version" && ToLower(name) != "ancestry"
            && ToLower(name) != "slip_claimed" && ToLower(name) != "slip_released"
  {
    hide ToLower;
  }

  /** No column the one step generates folds to one of the other's. */
  ghost predicate FoldApart(a: StepConfig, b: StepConfig) {
    forall c, k :: c in GeneratedColumns(a) && k in GeneratedColumns(b) ==> ToLower(c) != ToLower(k)
  }

  lemma ColumnsApart(a: StepConfig, b: StepConfig)
    ensures Claims(a) !! Claims(b) <==> FoldApart(a, b)
  {
    hide ToLower, GeneratedColumns, Folded;
    FoldedIs(GeneratedColumns(a));
    FoldedIs(GeneratedColumns(b));
    if Claims(a) !! Claims(b) {
      forall c, k | c in GeneratedColumns(a) && k in GeneratedColumns(b) ensures ToLower(c) != ToLower(k) {
        assert ToLower(c) in Claims(a) && ToLower(k) in Claims(b);
      }
    }
  }

  lemma NamesAndAggregates(steps: seq<StepConfig>)
    ensures DistinctNames(steps) <==>
            forall i, j :: 0 <= i < |steps| && 0 <= j < |steps| && i != j ==> steps[i].name != steps[j].name
    ensures UniqueAggregates(steps) <==>
            forall i, j :: 0 <= i < |steps| && 0 <= j < |steps| && i != j && steps[i].aggregates == steps[j].aggregates ==>
              steps[i].aggregates == ""
    ensures AllPrerequisitesKnown(steps) <==>
            forall i, p :: 0 <= i < |steps| && p in steps[i].prerequisites ==> exists j :: 0 <= j < |steps| && steps[j].name == p
  {
    assert forall p :: Named(steps, p) <==> exists j :: 0 <= j < |steps| && steps[j].name == p;
    if AllPrerequisitesKnown(steps) {
      forall i, p | 0 <= i < |steps| && p in steps[i].prerequisites ensures Named(steps, p) {
        assert KnownPrerequisites(steps, steps[i]);
      }
    }
  }

  lemma SharedColumns(steps: seq<StepConfig>)
    requires forall i, j :: 0 <= i < j < |steps| ==> (Claims(steps[i]) !! Claims(steps[j]) <==> FoldApart(steps[i], steps[j]))
    ensures NoSharedColumn(steps) <==> forall i, j :: 0 <= i < j < |steps| ==> FoldApart(steps[i], steps[j])
  {
    hide Claims, FoldApart;
  }

  /** What Validate accepts, written out: the first step waits for nothing, names are good and distinct, no two
      generated columns fold together, every prerequisite is a step, no step waits for itself through others, and no
      component type is aggregated twice. */
  lemma ValidConfigMeans(steps: seq<StepConfig>)
    ensures ValidConfig(steps) <==>
            && |steps| > 0 && steps[0].prerequisites == []
            && (forall i :: 0 <= i < |steps| ==> GoodName(steps[i].name))
            && (forall i, j :: 0 <= i < |steps| && 0 <= j < |steps| && i != j ==> steps[i].name != steps[j].name)
            && (forall i, j :: 0 <= i < j < |steps| ==> FoldApart(steps[i], steps[j]))
            && (forall i, p :: 0 <= i < |steps| && p in steps[i].prerequisites ==> exists j :: 0 <= j < |steps| && steps[j].name == p)
            && (forall path :: !IsCycle(GraphOf(steps), path))
            && (forall i, j :: 0 <= i < |steps| && 0 <= j < |steps| && i != j && steps[i].aggregates == steps[j].aggregates ==>
                  steps[i].aggregates == "")
  {
    hide GoodName, ToLower, IsCycle, GraphOf, GeneratedColumns, DistinctNames, UniqueAggregates, AllPrerequisitesKnown, Claims,
      NoSharedColumn, FoldApart;
    NamesAndAggregates(steps);
    forall i, j | 0 <= i < j < |steps| ensures Claims(steps[i]) !! Claims(steps[j]) <==> FoldApart(steps[i], steps[j]) {
      ColumnsApart(steps[i], steps[j]);
    }
    SharedColumns(steps);
    assert ValidConfig(steps) <==>
           && |steps| > 0 && steps[0].prerequisites == [] && GoodNames(steps) && DistinctNames(steps) && NoSharedColumn(steps)
           && AllPrerequisitesKnown(steps) && Acyclic(GraphOf(steps)) && UniqueAggregates(steps);
    assert GoodNames(steps) <==> forall i :: 0 <= i < |steps| ==> GoodName(steps[i].name);
    assert Acyclic(GraphOf(steps)) <==> forall path :: !IsCycle(GraphOf(steps), path);
  }

  lemma {:induction false} FoldedIs(columns: seq<string>)
    ensures forall x :: x in Folded(columns) <==> exists c :: c in columns && ToLower(c) == x
  {
    hide ToLower;
    if columns != [] {
      var n := |columns| - 1;
      FoldedIs(columns[..n]);
      assert columns == columns[..n] + [columns[n]];
    }
  }

  /** An aggregate step generates a column of its own name beside its status column. */
  lemma GeneratedColumnsAre(step: StepConfig, c: string)
    ensures c in GeneratedColumns(step) <==> c == step.name + "_status" || (step.aggregates != "" && c == step.name)
  {
  }

  // ---- the errors, and what each one says ----

  datatype ConfigError =
    | NoSteps
    | FirstStepHasPrerequisites
    | EmptyName
    | DuplicateName(name: string)
    | NotAnIdentifier(name: string)
    | NameTooLong(name: string)
    | FixedColumnName(name: string)
    | MarkerName(name: string)
    | ColumnCollision(first: string, second: string, column: string)
    | UnknownPrerequisite(step: string, prereq: string)
    | Circular(path: seq<string>)
    | AggregateUsedTwice(aggregate: string, first: string, second: string)

  ghost predicate Collide(steps: seq<StepConfig>, first: string, second: string, column: string) {
    exists i, j :: 0 <= i < j < |steps| && steps[i].name == first && steps[j].name == second
                   && column in Claims(steps[i]) && column in Claims(steps[j])
  }

  ghost predicate ShareAggregate(steps: seq<StepConfig>, aggregate: string, first: string, second: string) {
    exists i, j :: 0 <= i < j < |steps| && steps[i].name == first && steps[j].name == second
                   && steps[i].aggregates == steps[j].aggregates == aggregate != ""
  }

  /** The named step's name has the fault the error reports. */
  predicate DefectiveName(name: string, e: ConfigError) {
    match e
    case EmptyName => name == ""
    case NotAnIdentifier(n) => n == name && !IsIdentifier(name)
    case NameTooLong(n) => n == name && |name| > MAX_STEP_NAME_LEN
    case FixedColumnName(n) => n == name && ReservedColumn(ToLower(name))
    case MarkerName(n) => n == name && ReservedMarkerStep(name)
    case _ => false
  }

  /** The fault an error reports is really there. */
  ghost predicate IsFault(steps: seq<StepConfig>, e: ConfigError) {
    match e
    case NoSteps => steps == []
    case FirstStepHasPrerequisites => steps != [] && steps[0].prerequisites != []
    case DuplicateName(name) => exists i, j :: 0 <= i < j < |steps| && steps[i].name == steps[j].name == name
    case ColumnCollision(first, second, column) => Collide(steps, first, second, column)
    case UnknownPrerequisite(step, prereq) =>
      !Named(steps, prereq) && exists i :: 0 <= i < |steps| && steps[i].name == step && prereq in steps[i].prerequisites
    case Circular(path) => IsCycle(GraphOf(steps), path)
    case AggregateUsedTwice(aggregate, first, second) => ShareAggregate(steps, aggregate, first, second)
    case _ => exists i :: 0 <= i < |steps| && DefectiveName(steps[i].name, e)
  }

  // ---- validateStepIdentifier ----

  function ClaimAll(claimed: map<string, string>, columns: seq<string>, name: string): (m: map<string, string>)
    ensures m.Keys == claimed.Keys + Folded(columns)
    ensures forall c :: c in m ==> m[c] == if c in Folded(columns) then name else claimed[c]
  {
    if columns == [] then claimed
    else ClaimAll(claimed, columns[..|columns| - 1], name)[ToLower(columns[|columns| - 1]) := name]
  }

  lemma OwnColumnsDiffer(step: StepConfig, i: nat)
    requires i < |GeneratedColumns(step)|
    ensures var columns := GeneratedColumns(step);
            ToLower(columns[i]) !in Folded(columns[..i]) && Folded(columns[..i + 1]) == Folded(columns[..i]) + {ToLower(columns[i])}
  {
    var columns := GeneratedColumns(step);
    assert columns[..i + 1][..i] == columns[..i];
    if i == 1 {
      assert columns[..1][..0] == [];
      assert Folded(columns[..1]) == {ToLower(columns[0])};
      assert |ToLower(columns[0])| != |ToLower(columns[1])|;
    }
  }

  method ClaimColumns(step: StepConfig, claimed: map<string, string>)
    returns (err: Option<ConfigError>, claimed': map<string, string>)
    ensures err.None? <==> Claims(step) !! claimed.Keys
    ensures err.None? ==> claimed' == ClaimAll(claimed, GeneratedColumns(step), step.name)
    ensures err.Some? ==> exists c :: c in Claims(step) && c in claimed && err.value == ColumnCollision(claimed[c], step.name, c)
  {
    hide ToLower;
    var columns := GeneratedColumns(step);
    claimed' := claimed;
    for i := 0 to |columns|
      invariant Folded(columns[..i]) !! claimed.Keys && Folded(columns[..i]) <= Claims(step)
      invariant claimed' == ClaimAll(claimed, columns[..i], step.name)
    {
      OwnColumnsDiffer(step, i);
      FoldedMember(columns, i);
      var ident := ToLower(columns[i]);
      if ident in claimed' {
        assert ident in Claims(step) && ident in claimed;
        return Some(ColumnCollision(claimed'[ident], step.name, ident)), claimed;
      }
      assert columns[..i + 1][..i] == columns[..i];
      claimed' := claimed'[ident := step.name];
    }
    assert columns[..|columns|] == columns;
    return None, claimed';
  }

  lemma {:induction false} FoldedMember(columns: seq<string>, i: nat)
    requires i < |columns|
    ensures ToLower(columns[i]) in Folded(columns)
  {
    hide ToLower;
    if i < |columns| - 1 {
      FoldedMember(columns[..|columns| - 1], i);
    }
  }

  method ValidateStepIdentifier(step: StepConfig, claimed: map<string, string>)
    returns (err: Option<ConfigError>, claimed': map<string, string>)
    ensures err.None? <==> GoodName(step.name) && Claims(step) !! claimed.Keys
    ensures err.None? ==> claimed' == ClaimAll(claimed, GeneratedColumns(step), step.name)
    ensures err.Some? ==> || DefectiveName(step.name, err.value)
                          || (exists c :: c in Claims(step) && c in claimed && err.value == ColumnCollision(claimed[c], step.name, c))
  {
    hide Claims, IsIdentifier, ReservedColumn, ReservedMarkerStep;
    if !IsIdentifier(step.name) {
      return Some(NotAnIdentifier(step.name)), claimed;
    }
    if |step.name| > MAX_STEP_NAME_LEN {
      return Some(NameTooLong(step.name)), claimed;
    }
    if ReservedColumn(ToLower(step.name)) {
      return Some(FixedColumnName(step.name)), claimed;
    }
    if ReservedMarkerStep(step.name) {
      return Some(MarkerName(step.name)), claimed;
    }
    err, claimed' := ClaimColumns(step, claimed);
  }

  // ---- Validate ----

  /** What the first loop knows after the first n steps: which step generates each column. */
  ghost predicate Tracks(steps: seq<StepConfig>, n: nat, seen: set<string>, claimed: map<string, string>)
    requires n <= |steps|
  {
    && (forall i :: 0 <= i < n ==> steps[i].name in seen)
    && (forall x :: x in seen ==> exists i :: 0 <= i < n && steps[i].name == x)
    && (forall i, c :: 0 <= i < n && c in Claims(steps[i]) ==> c in claimed)
    && (forall c :: c in claimed ==> exists i :: 0 <= i < n && c in Claims(steps[i]) && steps[i].name == claimed[c])
  }

  lemma TracksOnward(steps: seq<StepConfig>, n: nat, seen: set<string>, claimed: map<string, string>)
    requires n < |steps| && Tracks(steps, n, seen, claimed)
    requires Claims(steps[n]) !! claimed.Keys
    ensures Tracks(steps, n + 1, seen + {steps[n].name}, ClaimAll(claimed, GeneratedColumns(steps[n]), steps[n].name))
  {
    hide Folded, GeneratedColumns;
    var step := steps[n];
    var claimed' := ClaimAll(claimed, GeneratedColumns(step), step.name);
    forall c | c in claimed' ensures exists i :: 0 <= i < n + 1 && c in Claims(steps[i]) && steps[i].name == claimed'[c] {
      if c in Claims(step) {
        assert steps[n].name == claimed'[c];
      } else {
        var i :| 0 <= i < n && c in Claims(steps[i]) && steps[i].name == claimed[c];
      }
    }
    forall x | x in seen + {step.name} ensures exists i :: 0 <= i < n + 1 && steps[i].name == x {
      if x in seen {
        var i :| 0 <= i < n && steps[i].name == x;
      } else {
        assert steps[n].name == x;
      }
    }
  }

  /** The first loop of Validate. */
  method CheckNames(steps: seq<StepConfig>) returns (err: Option<ConfigError>, seen: set<string>)
    ensures err.None? <==> GoodNames(steps) && DistinctNames(steps) && NoSharedColumn(steps)
    ensures err.None? ==> forall x :: x in seen <==> Named(steps, x)
    ensures err.Some? ==> IsFault(steps, err.value)
  {
    hide Claims, GoodName, Tracks;
    seen := {};
    var claimed: map<string, string> := map[];
    assert Tracks(steps, 0, {}, map[]) by { TracksNothing(steps); }
    for n := 0 to |steps|
      invariant Tracks(steps, n, seen, claimed)
      invariant GoodNames(steps[..n]) && DistinctNames(steps[..n]) && NoSharedColumn(steps[..n])
    {
      var step := steps[n];
      if step.name == "" {
        NoEmptyName(steps, n);
        return Some(EmptyName), seen;
      }
      if step.name in seen {
        DuplicateIsFault(steps, n, seen, claimed);
        return Some(DuplicateName(step.name)), seen;
      }
      var fault, claimed' := ValidateStepIdentifier(step, claimed);
      if fault.Some? {
        IdentifierFault(steps, n, seen, claimed, fault.value);
        return fault, seen;
      }
      GoodSoFar(steps, n, seen, claimed);
      TracksOnward(steps, n, seen, claimed);
      seen := seen + {step.name};
      claimed := claimed';
    }
    assert steps[..|steps|] == steps;
    SeenMeans(steps, seen, claimed);
    return None, seen;
  }

  lemma TracksNothing(steps: seq<StepConfig>)
    ensures Tracks(steps, 0, {}, map[])
  {
  }

  lemma SeenMeans(steps: seq<StepConfig>, seen: set<string>, claimed: map<string, string>)
    requires Tracks(steps, |steps|, seen, claimed)
    ensures forall x :: x in seen <==> Named(steps, x)
  {
  }

  lemma NoEmptyName(steps: seq<StepConfig>, n: nat)
    requires n < |steps| && steps[n].name == ""
    ensures IsFault(steps, EmptyName) && !GoodNames(steps)
  {
    assert !GoodName(steps[n].name);
  }

  lemma DuplicateIsFault(steps: seq<StepConfig>, n: nat, seen: set<string>, claimed: map<string, string>)
    requires n < |steps| && Tracks(steps, n, seen, claimed) && steps[n].name in seen
    ensures IsFault(steps, DuplicateName(steps[n].name)) && !DistinctNames(steps)
  {
    var i :| 0 <= i < n && steps[i].name == steps[n].name;
  }

  lemma IdentifierFault(steps: seq<StepConfig>, n: nat, seen: set<string>, claimed: map<string, string>, e: ConfigError)
    requires n < |steps| && Tracks(steps, n, seen, claimed)
    requires || DefectiveName(steps[n].name, e)
             || exists c :: c in Claims(steps[n]) && c in claimed && e == ColumnCollision(claimed[c], steps[n].name, c)
    ensures IsFault(steps, e)
    ensures !(GoodNames(steps) && NoSharedColumn(steps))
  {
    hide Claims, ReservedColumn, ReservedMarkerStep;
    if DefectiveName(steps[n].name, e) {
      assert !GoodName(steps[n].name);
    } else {
      var c :| c in Claims(steps[n]) && c in claimed && e == ColumnCollision(claimed[c], steps[n].name, c);
      var i :| 0 <= i < n && c in Claims(steps[i]) && steps[i].name == claimed[c];
      assert !(Claims(steps[i]) !! Claims(steps[n]));
    }
  }

  lemma GoodSoFar(steps: seq<StepConfig>, n: nat, seen: set<string>, claimed: map<string, string>)
    requires n < |steps| && Tracks(steps, n, seen, claimed)
    requires GoodNames(steps[..n]) && DistinctNames(steps[..n]) && NoSharedColumn(steps[..n])
    requires GoodName(steps[n].name) && steps[n].name !in seen && Claims(steps[n]) !! claimed.Keys
    ensures GoodNames(steps[..n + 1]) && DistinctNames(steps[..n + 1]) && NoSharedColumn(steps[..n + 1])
  {
    hide Claims, GoodName;
    var before, after := steps[..n], steps[..n + 1];
    forall i | 0 <= i < n ensures after[i] == before[i] {}
    forall i | 0 <= i < n ensures Claims(steps[i]) !! Claims(steps[n]) {
      assert forall c :: c in Claims(steps[i]) ==> c in claimed;
    }
  }

  /** The second loop of Validate. */
  method CheckPrerequisiteNames(steps: seq<StepConfig>, seen: set<string>) returns (err: Option<ConfigError>)
    requires forall x :: x in seen <==> Named(steps, x)
    ensures err.None? <==> AllPrerequisitesKnown(steps)
    ensures err.Some? ==> IsFault(steps, err.value)
  {
    hide Named;
    for i := 0 to |steps|
      invariant forall j :: 0 <= j < i ==> KnownPrerequisites(steps, steps[j])
    {
      var prereqs := steps[i].prerequisites;
      for k := 0 to |prereqs|
        invariant forall m :: 0 <= m < k ==> Named(steps, prereqs[m])
      {
        if prereqs[k] !in seen {
          assert prereqs[k] in steps[i].prerequisites;
          assert !KnownPrerequisites(steps, steps[i]);
          return Some(UnknownPrerequisite(steps[i].name, prereqs[k]));
        }
      }
    }
    return None;
  }

  /** The last loop of Validate. */
  method CheckAggregates(steps: seq<StepConfig>) returns (err: Option<ConfigError>)
    ensures err.None? <==> UniqueAggregates(steps)
    ensures err.Some? ==> IsFault(steps, err.value)
  {
    var users: map<string, string> := map[];
    for i := 0 to |steps|
      invariant forall j :: 0 <= j < i && steps[j].aggregates != "" ==> steps[j].aggregates in users
      invariant forall a :: a in users ==> a != "" && exists j :: 0 <= j < i && steps[j].aggregates == a && steps[j].name == users[a]
      invariant forall j, k :: 0 <= j < k < i && steps[j].aggregates != "" ==> steps[j].aggregates != steps[k].aggregates
    {
      var a := steps[i].aggregates;
      if a != "" {
        if a in users {
          var j :| 0 <= j < i && steps[j].aggregates == a && steps[j].name == users[a];
          assert ShareAggregate(steps, a, steps[j].name, steps[i].name);
          return Some(AggregateUsedTwice(a, users[a], steps[i].name));
        }
        users := users[a := steps[i].name];
      }
    }
    return None;
  }

  /** detectCircularDependencies. */
  method DetectCircularDependencies(steps: seq<StepConfig>) returns (cycle: Option<seq<string>>)
    ensures cycle.None? <==> Acyclic(GraphOf(steps))
    ensures cycle.Some? ==> IsCycle(GraphOf(steps), cycle.value)
  {
    var graph: Digraph := map[];
    var names: seq<string> := [];
    for i := 0 to |steps|
      invariant graph == GraphOf(steps[..i])
      invariant forall x :: x in names <==> x in graph
    {
      assert steps[..i + 1][..i] == steps[..i];
      graph := graph[steps[i].name := steps[i].prerequisites];
      names := names + [steps[i].name];
    }
    assert steps[..|steps|] == steps;
    cycle := FindCycle(graph, names);
  }

  /** Validate accepts exactly the valid configurations, and an error it reports is really there. */
  method Validate(steps: seq<StepConfig>) returns (err: Option<ConfigError>)
    ensures err.None? <==> ValidConfig(steps)
    ensures err.Some? ==> IsFault(steps, err.value)
  {
    hide Acyclic, IsCycle, GoodNames, NoSharedColumn, DistinctNames, AllPrerequisitesKnown, UniqueAggregates, Named;
    if |steps| == 0 {
      return Some(NoSteps);
    }
    if |steps[0].prerequisites| > 0 {
      return Some(FirstStepHasPrerequisites);
    }
    var fault, seen := CheckNames(steps);
    if fault.Some? {
      return fault;
    }
    fault := CheckPrerequisiteNames(steps, seen);
    if fault.Some? {
      return fault;
    }
    var cycle := DetectCircularDependencies(steps);
    if cycle.Some? {
      return Some(Circular(cycle.value));
    }
    err := CheckAggregates(steps);
  }
}

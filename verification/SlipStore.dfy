/** A slip written to its row and read back (slippy/postgres_store.go). Timestamps are instants; JSON columns
    hold the values they encode. */
module SlipStore {
  import opened Status
  import opened Rows
  import opened Pipeline
  import opened SlipColumns

  datatype Step = Step(
    status: StepStatus, startedAt: Option<int>, completedAt: Option<int>, actor: string, error: string, heldReason: string)

  datatype Slip = Slip(
    id: string, repository: string, branch: string, commit: string, createdAt: int, updatedAt: int,
    status: SlipStatus, claimedFrom: SlipStatus,
    steps: map<string, Step>, aggregates: map<string, seq<Component>>, history: seq<Entry>)

  /** step_details: what is known of each step beside its status; an absent member is empty. */
  datatype Detail = Detail(startedAt: Option<int>, completedAt: Option<int>, actor: string, error: string, heldReason: string)

  datatype Value =
    | Text(text: string)
    | Instant(at: int)
    | Overall(status: SlipStatus)
    | OfStep(step: StepStatus)
    | Details(details: map<string, Detail>)
    | History(entries: seq<Entry>)
    | ItemList(items: seq<Component>)

  const NO_STATUS := UnknownStep("")

  // ---- slipValues ----

  predicate Bare(step: Step) {
    step.startedAt.None? && step.completedAt.None? && step.actor == "" && step.error == "" && step.heldReason == ""
  }

  /** buildStepDetailsMap. */
  function DetailsOf(steps: map<string, Step>): map<string, Detail> {
    map n | n in steps && !Bare(steps[n]) ::
      Detail(steps[n].startedAt, steps[n].completedAt, steps[n].actor, steps[n].error, steps[n].heldReason)
  }

  function StoredStatus(slip: Slip, name: string): StepStatus {
    if name in slip.steps && slip.steps[name].status != NO_STATUS then slip.steps[name].status else Pending
  }

  function StoredItems(slip: Slip, column: string): seq<Component> {
    if column in slip.aggregates then slip.aggregates[column] else []
  }

  function CoreValues(slip: Slip, now: int, forCreate: bool, zero: int): seq<Value> {
    [Text(slip.id), Text(slip.repository), Text(slip.branch), Text(slip.commit),
     Instant(if forCreate && slip.createdAt == zero then now else slip.createdAt), Instant(now),
     Overall(if slip.status.SlipUnset? then SlipPending else slip.status),
     Details(DetailsOf(slip.steps)), History(slip.history)]
  }

  function StepValues(steps: seq<StepConfig>, slip: Slip): seq<Value> {
    seq(|steps|, i requires 0 <= i < |steps| => OfStep(StoredStatus(slip, steps[i].name)))
  }

  function AggregateValues(columns: seq<string>, slip: Slip): seq<Value> {
    seq(|columns|, i requires 0 <= i < |columns| => ItemList(StoredItems(slip, columns[i])))
  }

  /** slipValues: one value for each of Columns, in their order. */
  method SlipValues(steps: seq<StepConfig>, slip: Slip, now: int, forCreate: bool, zero: int) returns (vals: seq<Value>)
    ensures vals == CoreValues(slip, now, forCreate, zero) + StepValues(steps, slip) + AggregateValues(AggregateColumns(steps), slip)
    ensures |vals| == |Columns(steps)|
  {
    var createdAt := slip.createdAt;
    if forCreate && createdAt == zero {
      createdAt := now;
    }
    var status := slip.status;
    if status.SlipUnset? {
      status := SlipPending;
    }
    vals := [Text(slip.id), Text(slip.repository), Text(slip.branch), Text(slip.commit), Instant(createdAt), Instant(now),
             Overall(status), Details(DetailsOf(slip.steps)), History(slip.history)];
    for i := 0 to |steps|
      invariant vals == CoreValues(slip, now, forCreate, zero) + StepValues(steps, slip)[..i]
    {
      var st := Pending;
      if steps[i].name in slip.steps && slip.steps[steps[i].name].status != NO_STATUS {
        st := slip.steps[steps[i].name].status;
      }
      vals := vals + [OfStep(st)];
    }
    assert StepValues(steps, slip)[..|steps|] == StepValues(steps, slip);
    var columns := ListAggregateColumns(steps);
    for i := 0 to |columns|
      invariant vals == CoreValues(slip, now, forCreate, zero) + StepValues(steps, slip) + AggregateValues(columns, slip)[..i]
    {
      var items := if columns[i] in slip.aggregates then slip.aggregates[columns[i]] else [];
      vals := vals + [ItemList(items)];
    }
    assert AggregateValues(columns, slip)[..|columns|] == AggregateValues(columns, slip);
  }

  // ---- the row ----

  /** A row by column; claimed_from is only ever written by the claim operations. */
  type DbRow = map<string, Value>

  predicate EndsInStatus(c: string) {
    |c| >= 7 && c[|c| - 7..] == "_status"
  }

  /** The words, in lower case, that the database will not read as a column where one is spliced unquoted. Which
      they are depends on its version; none is a column of every slip and none reads like a status column. */
  ghost predicate ReservedWords(words: set<string>) {
    forall w :: w in words ==> w !in FIXED_COLUMNS && w != CLAIMED_FROM && !EndsInStatus(w)
  }

  /** Spliced into a statement, every column reads as a column. */
  predicate Spliced(cols: seq<string>, words: set<string>) {
    forall c :: c in cols ==> IsIdentifier(c) && ToLower(c) !in words
  }

  /** INSERT ... ON CONFLICT DO UPDATE: refused when a name does not read as a column or two are the same. */
  predicate Accepts(cols: seq<string>, words: set<string>) {
    Spliced(cols, words) && forall i, j :: 0 <= i < j < |cols| ==> PgName(cols[i]) != PgName(cols[j])
  }

  /** No aggregate step, whose name is a column of its own, is called by a reserved word. */
  predicate NoReservedWord(steps: seq<StepConfig>, words: set<string>) {
    forall i :: 0 <= i < |steps| && steps[i].aggregates != "" ==> ToLower(steps[i].name) !in words
  }

  function Assign(row: DbRow, cols: seq<string>, vals: seq<Value>): DbRow
    requires |cols| == |vals|
  {
    if cols == [] then row
    else
      var n := |cols| - 1;
      Assign(row, cols[..n], vals[..n])[PgName(cols[n]) := vals[n]]
  }

  function Select(row: DbRow, cols: seq<string>, words: set<string>): Option<seq<Value>> {
    if Spliced(cols, words) && forall c :: c in cols ==> PgName(c) in row then
      Some(seq(|cols|, i requires 0 <= i < |cols| && cols[i] in cols => row[PgName(cols[i])]))
    else None
  }

  lemma {:induction false} AssignAt(row: DbRow, cols: seq<string>, vals: seq<Value>, i: nat)
    requires |cols| == |vals| && i < |cols|
    requires forall i, j :: 0 <= i < j < |cols| ==> PgName(cols[i]) != PgName(cols[j])
    ensures var t := Assign(row, cols, vals); PgName(cols[i]) in t && t[PgName(cols[i])] == vals[i]
  {
    hide PgName;
    var n := |cols| - 1;
    if i < n {
      assert cols[..n][i] == cols[i] && vals[..n][i] == vals[i];
      AssignAt(row, cols[..n], vals[..n], i);
    }
  }

  lemma {:induction false} AssignElsewhere(row: DbRow, cols: seq<string>, vals: seq<Value>, name: string)
    requires |cols| == |vals| && forall i :: 0 <= i < |cols| ==> PgName(cols[i]) != name
    ensures name in Assign(row, cols, vals) <==> name in row
    ensures name in row ==> Assign(row, cols, vals)[name] == row[name]
  {
    hide PgName;
    if cols != [] {
      AssignElsewhere(row, cols[..|cols| - 1], vals[..|cols| - 1], name);
    }
  }

  lemma StatusColumnIsNoWord(name: string, words: set<string>)
    requires ReservedWords(words)
    ensures ToLower(StatusColumn(name)) !in words
  {
    var c := ToLower(StatusColumn(name));
    assert c[|c| - 7..] == "_status";
  }

  /** What a configuration splices reads as columns exactly when no aggregate step is called by a reserved word. */
  lemma SplicedExactlyWhen(steps: seq<StepConfig>, words: set<string>)
    requires ValidConfig(steps) && ReservedWords(words)
    ensures Spliced(SelectColumns(steps), words) <==> NoReservedWord(steps, words)
    ensures Spliced(Columns(steps), words) <==> NoReservedWord(steps, words)
  {
    hide ValidConfig, IsIdentifier, ToLower, Whole, EndsInStatus;
    var cols := Columns(steps);
    FixedAreLower();
    LowerStays(CLAIMED_FROM);
    forall c | c in SelectColumns(steps) && NoReservedWord(steps, words) ensures ToLower(c) !in words {
      if c in FIXED_COLUMNS {
        LowerStays(c);
      } else if c in StatusColumns(steps) {
        var i :| 0 <= i < |steps| && StatusColumns(steps)[i] == c;
        StatusColumnIsNoWord(steps[i].name, words);
      } else if c in AggregateColumns(steps) {
        AggregateColumnsAre(steps, c);
      }
    }
    forall c | c in SelectColumns(steps) ensures IsIdentifier(c) {
      SelectColumnsAreWhole(steps, c);
      assert Whole(c) ==> IsIdentifier(c) by { WholeIsIdentifier(c); }
    }
    forall i | 0 <= i < |steps| && steps[i].aggregates != "" && Spliced(cols, words) ensures ToLower(steps[i].name) !in words {
      AggregatesAreListed(steps, i);
      assert steps[i].name in cols;
    }
  }

  lemma WholeIsIdentifier(c: string)
    requires Whole(c)
    ensures IsIdentifier(c)
  {
  }

  lemma {:induction false} AggregatesAreListed(steps: seq<StepConfig>, i: nat)
    requires i < |steps| && steps[i].aggregates != ""
    ensures steps[i].name in AggregateColumns(steps)
  {
    var n := |steps| - 1;
    if i < n {
      assert steps[..n][i] == steps[i];
      AggregatesAreListed(steps[..n], i);
    }
  }

  /** The write of an accepted configuration goes through exactly when no aggregate step is called by a reserved
      word; the read then gives back every value at its own position, and claimed_from stays what it was. */
  lemma ReadsBackWhatWasWritten(steps: seq<StepConfig>, words: set<string>, row: DbRow, vals: seq<Value>)
    requires ValidConfig(steps) && ReservedWords(words) && |vals| == |Columns(steps)| && CLAIMED_FROM in row
    ensures Accepts(Columns(steps), words) <==> NoReservedWord(steps, words)
    ensures Select(Assign(row, Columns(steps), vals), SelectColumns(steps), words) ==
            if NoReservedWord(steps, words) then Some(vals + [row[CLAIMED_FROM]]) else None
  {
    hide ValidConfig, PgName, Columns, Spliced, NoReservedWord, ReservedWords, Assign;
    var cols, all := Columns(steps), SelectColumns(steps);
    var t := Assign(row, cols, vals);
    SplicedExactlyWhen(steps, words);
    ColumnsAreApart(steps);
    ClaimedFromIsItself();
    forall i | 0 <= i < |cols| ensures PgName(cols[i]) != CLAIMED_FROM {
      PgNamesDistinct(steps, i, |cols|);
      assert all[i] == cols[i] && all[|cols|] == CLAIMED_FROM;
    }
    AssignElsewhere(row, cols, vals, CLAIMED_FROM);
    forall i | 0 <= i < |all| ensures PgName(all[i]) in t && t[PgName(all[i])] == (vals + [row[CLAIMED_FROM]])[i] {
      if i < |cols| { AssignAt(row, cols, vals, i); }
    }
    forall c | c in all ensures PgName(c) in t {
      var i :| 0 <= i < |all| && all[i] == c;
    }
    if NoReservedWord(steps, words) {
      assert Select(t, all, words).value == vals + [row[CLAIMED_FROM]];
    }
  }

  lemma ColumnsAreApart(steps: seq<StepConfig>)
    requires ValidConfig(steps)
    ensures forall i, j :: 0 <= i < j < |Columns(steps)| ==> PgName(Columns(steps)[i]) != PgName(Columns(steps)[j])
  {
    hide ValidConfig, PgName, Columns;
    var cols, all := Columns(steps), SelectColumns(steps);
    forall i, j | 0 <= i < j < |cols| ensures PgName(cols[i]) != PgName(cols[j]) {
      PgNamesDistinct(steps, i, j);
      assert all[i] == cols[i] && all[j] == cols[j];
    }
  }

  lemma ClaimedFromIsItself()
    ensures PgName(CLAIMED_FROM) == CLAIMED_FROM
  {
    FixedAreLower();
    LowerStays(CLAIMED_FROM);
    assert |CLAIMED_FROM| == 12;
  }

  // ---- newSlipScan ----

  /** The scan destinations; claimedFrom is SlipUnset when the column is NULL. */
  datatype Scan = Scan(
    id: string, repository: string, branch: string, commit: string, createdAt: int, updatedAt: int,
    status: SlipStatus, details: map<string, Detail>, history: seq<Entry>,
    stepStatuses: seq<StepStatus>, items: seq<seq<Component>>, claimedFrom: SlipStatus)

  const CORE := 9

  /** Each value has the type of the destination at its position: n steps, then m aggregates, then the claim. */
  predicate Fits(n: nat, m: nat, vals: seq<Value>) {
    && |vals| == CORE + n + m + 1
    && (forall i :: 0 <= i < 4 ==> vals[i].Text?) && vals[4].Instant? && vals[5].Instant?
    && vals[6].Overall? && vals[7].Details? && vals[8].History?
    && (forall i :: CORE <= i < CORE + n ==> vals[i].OfStep?)
    && (forall i :: CORE + n <= i < CORE + n + m ==> vals[i].ItemList?)
    && vals[CORE + n + m].Overall?
  }

  function ScanOf(n: nat, m: nat, vals: seq<Value>): Scan
    requires Fits(n, m, vals)
  {
    Scan(vals[0].text, vals[1].text, vals[2].text, vals[3].text, vals[4].at, vals[5].at,
         vals[6].status, vals[7].details, vals[8].entries,
         seq(n, i requires 0 <= i < n => vals[CORE + i].step),
         seq(m, i requires 0 <= i < m => vals[CORE + n + i].items),
         vals[CORE + n + m].status)
  }

  // ---- populate ----

  function Blank(status: StepStatus): Step {
    Step(status, None, None, "", "", "")
  }

  /** stepsFromStatuses. */
  function StepsFrom(steps: seq<StepConfig>, statuses: seq<StepStatus>): map<string, Step>
    requires |steps| == |statuses|
  {
    if steps == [] then map[]
    else
      var n := |steps| - 1;
      StepsFrom(steps[..n], statuses[..n])[steps[n].name := Blank(statuses[n])]
  }

  /** decodeAggregates. */
  function AggregatesFrom(columns: seq<string>, items: seq<seq<Component>>): map<string, seq<Component>>
    requires |columns| == |items|
  {
    if columns == [] then map[]
    else
      var n := |columns| - 1;
      AggregatesFrom(columns[..n], items[..n])[columns[n] := items[n]]
  }

  function WithDetail(step: Step, d: Detail): Step {
    Step(step.status,
         if d.startedAt.Some? then d.startedAt else step.startedAt,
         if d.completedAt.Some? then d.completedAt else step.completedAt,
         if d.actor != "" then d.actor else step.actor,
         if d.error != "" then d.error else step.error,
         if d.heldReason != "" then d.heldReason else step.heldReason)
  }

  function Merged(steps: map<string, Step>, details: map<string, Detail>): map<string, Step> {
    map n | n in steps :: if n in details then WithDetail(steps[n], details[n]) else steps[n]
  }

  /** A step's own entry that starts it (running), or one that ends it (any terminal status). */
  predicate Marks(e: Entry, step: string, ends: bool) {
    e.component == "" && e.step == step && if ends then e.status.IsTerminal() else e.status.Running?
  }

  function FirstAt(history: seq<Entry>, step: string, ends: bool): (at: Option<int>)
    ensures at.None? <==> forall i :: 0 <= i < |history| ==> !Marks(history[i], step, ends)
    ensures at.Some? ==> exists i :: 0 <= i < |history| && Marks(history[i], step, ends) && history[i].at == at.value
                                     && forall j :: 0 <= j < i ==> !Marks(history[j], step, ends)
  {
    if history == [] then None
    else
      var n := |history| - 1;
      var before := FirstAt(history[..n], step, ends);
      assert forall i :: 0 <= i < n ==> history[..n][i] == history[i];
      if before.Some? then before
      else if Marks(history[n], step, ends) then Some(history[n].at)
      else None
  }

  function Fill(step: Step, started: Option<int>, completed: Option<int>): Step {
    step.(startedAt := if step.startedAt.None? then started else step.startedAt,
          completedAt := if step.completedAt.None? then completed else step.completedAt)
  }

  function Timed(steps: map<string, Step>, history: seq<Entry>): map<string, Step> {
    map n | n in steps :: Fill(steps[n], FirstAt(history, n, false), FirstAt(history, n, true))
  }

  function Loaded(steps: seq<StepConfig>, sc: Scan): Slip
    requires |sc.stepStatuses| == |steps| && |sc.items| == |AggregateColumns(steps)|
  {
    Slip(sc.id, sc.repository, sc.branch, sc.commit, sc.createdAt, sc.updatedAt, sc.status, sc.claimedFrom,
         Timed(Merged(StepsFrom(steps, sc.stepStatuses), sc.details), sc.history),
         AggregatesFrom(AggregateColumns(steps), sc.items), sc.history)
  }

  /** What a history says of one step's timing. */
  datatype Timing = Timing(started: Option<int>, completed: Option<int>)

  ghost predicate TimingOf(timing: map<string, Timing>, history: seq<Entry>) {
    forall n ::
      (if n in timing then timing[n] else Timing(None, None)) == Timing(FirstAt(history, n, false), FirstAt(history, n, true))
  }

  /** A slip being read, its maps filled in place. */
  class SlipRecord {
    var slip: Slip

    constructor (id: string)
      ensures slip == Slip(id, "", "", "", 0, 0, SlipUnset, SlipUnset, map[], map[], [])
    {
      slip := Slip(id, "", "", "", 0, 0, SlipUnset, SlipUnset, map[], map[], []);
    }

    /** mergeStepDetailsJSON; the details are met in any order. */
    method MergeStepDetails(details: map<string, Detail>)
      modifies this
      ensures slip == old(slip).(steps := Merged(old(slip.steps), details))
    {
      var rest := details.Keys;
      while rest != {}
        invariant rest <= details.Keys
        invariant slip == old(slip).(steps := slip.steps) && slip.steps.Keys == old(slip.steps).Keys
        invariant forall n :: n in slip.steps ==>
                    slip.steps[n] == if n in details && n !in rest then WithDetail(old(slip.steps)[n], details[n]) else old(slip.steps)[n]
        decreases rest
      {
        var name :| name in rest;
        rest := rest - {name};
        if name in slip.steps {
          slip := slip.(steps := slip.steps[name := WithDetail(slip.steps[name], details[name])]);
        }
      }
      assert slip.steps == Merged(old(slip.steps), details);
    }

    /** reconstructStepTimingFromHistory. */
    method ReconstructStepTiming()
      modifies this
      ensures slip == old(slip).(steps := Timed(old(slip.steps), old(slip.history)))
    {
      var timing: map<string, Timing> := map[];
      var history := slip.history;
      for i := 0 to |history|
        invariant slip == old(slip)
        invariant TimingOf(timing, history[..i])
      {
        timing := Note(timing, history, i);
      }
      assert history[..|history|] == history;
      var rest := timing.Keys;
      while rest != {}
        invariant rest <= timing.Keys
        invariant slip == old(slip).(steps := slip.steps) && slip.steps.Keys == old(slip.steps).Keys
        invariant forall n :: n in slip.steps ==>
                    slip.steps[n] == if n in timing && n !in rest then Fill(old(slip.steps)[n], timing[n].started, timing[n].completed)
                                     else old(slip.steps)[n]
        decreases rest
      {
        var name :| name in rest;
        rest := rest - {name};
        if name in slip.steps {
          slip := slip.(steps := slip.steps[name := Fill(slip.steps[name], timing[name].started, timing[name].completed)]);
        }
      }
      assert slip.steps == Timed(old(slip.steps), history);
    }

    /** The first loop's body: the first start and the first end of each step are kept. */
    static method Note(timing: map<string, Timing>, history: seq<Entry>, i: nat) returns (timing': map<string, Timing>)
      requires i < |history| && TimingOf(timing, history[..i])
      ensures TimingOf(timing', history[..i + 1])
    {
      var entry := history[i];
      timing' := timing;
      ghost var after := history[..i + 1];
      assert after[..i] == history[..i] && after[i] == entry;
      if entry.component == "" {
        var t := if entry.step in timing then timing[entry.step] else Timing(None, None);
        if entry.status.Running? && t.started.None? {
          t := t.(started := Some(entry.at));
        }
        if entry.status.IsTerminal() && t.completed.None? {
          t := t.(completed := Some(entry.at));
        }
        timing' := timing[entry.step := t];
      }
    }

    /** populate. */
    method Populate(steps: seq<StepConfig>, columns: seq<string>, sc: Scan)
      requires |sc.stepStatuses| == |steps| && columns == AggregateColumns(steps) && |sc.items| == |columns|
      modifies this
      ensures slip == Loaded(steps, sc)
    {
      slip := Slip(sc.id, sc.repository, sc.branch, sc.commit, sc.createdAt, sc.updatedAt, sc.status, sc.claimedFrom,
                   map[], map[], []);
      var stepMap := StepMap(steps, sc.stepStatuses);
      slip := slip.(steps := stepMap);
      MergeStepDetails(sc.details);
      var aggregates := AggregateMapOf(columns, sc.items);
      slip := slip.(aggregates := aggregates, history := sc.history);
      ReconstructStepTiming();
    }

    static method StepMap(steps: seq<StepConfig>, statuses: seq<StepStatus>) returns (m: map<string, Step>)
      requires |steps| == |statuses|
      ensures m == StepsFrom(steps, statuses)
    {
      m := map[];
      for i := 0 to |steps|
        invariant m == StepsFrom(steps[..i], statuses[..i])
      {
        assert steps[..i + 1][..i] == steps[..i] && statuses[..i + 1][..i] == statuses[..i];
        m := m[steps[i].name := Blank(statuses[i])];
      }
      assert steps[..|steps|] == steps && statuses[..|steps|] == statuses;
    }

    static method AggregateMapOf(columns: seq<string>,
                                 items: seq<seq<Component>>) returns (m: map<string, seq<Component>>)
      requires |columns| == |items|
      ensures m == AggregatesFrom(columns, items)
    {
      m := map[];
      for i := 0 to |columns|
        invariant m == AggregatesFrom(columns[..i], items[..i])
      {
        assert columns[..i + 1][..i] == columns[..i] && items[..i + 1][..i] == items[..i];
        m := m[columns[i] := items[i]];
      }
      assert columns[..|columns|] == columns && items[..|columns|] == items;
    }
  }
}

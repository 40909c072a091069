/** Writing a slip and loading it back, and the two reads of one row (slippy/postgres_store.go). */
module SlipRoundTrip {
  import opened Status
  import opened Rows
  import opened Pipeline
  import opened SlipColumns
  import opened SlipStore

  function ValuesOf(steps: seq<StepConfig>, slip: Slip, now: int, forCreate: bool, zero: int): (vals: seq<Value>)
    ensures |vals| == |Columns(steps)|
  {
    CoreValues(slip, now, forCreate, zero) + StepValues(steps, slip) + AggregateValues(AggregateColumns(steps), slip)
  }

  /** The upsert; None when the database refuses it. */
  function Written(steps: seq<StepConfig>, words: set<string>, row: DbRow, slip: Slip, now: int, forCreate: bool,
                   zero: int): Option<DbRow> {
    if Accepts(Columns(steps), words) then Some(Assign(row, Columns(steps), ValuesOf(steps, slip, now, forCreate, zero)))
    else None
  }

  /** The full read; None when the database refuses it, a column is missing or one holds a value of another type. */
  function Load(steps: seq<StepConfig>, words: set<string>, row: DbRow): Option<Slip> {
    var got := Select(row, SelectColumns(steps), words);
    if got.Some? && Fits(|steps|, |AggregateColumns(steps)|, got.value) then
      Some(Loaded(steps, ScanOf(|steps|, |AggregateColumns(steps)|, got.value)))
    else None
  }

  // ---- what a stored slip reads as ----

  function Own(slip: Slip, name: string): Step {
    if name in slip.steps then slip.steps[name] else Blank(Pending)
  }

  /** One configured step: pending when unset or absent, its own timing where it has any, else the first entry of
      the history that starts or ends it. */
  function NormalStep(slip: Slip, name: string): Step {
    Fill(Own(slip, name).(status := StoredStatus(slip, name)),
         FirstAt(slip.history, name, false), FirstAt(slip.history, name, true))
  }

  function NameSet(steps: seq<StepConfig>): set<string> {
    set i | 0 <= i < |steps| :: steps[i].name
  }

  function Normal(steps: seq<StepConfig>, slip: Slip, now: int, forCreate: bool, zero: int, claim: SlipStatus): Slip {
    slip.(createdAt := if forCreate && slip.createdAt == zero then now else slip.createdAt,
          updatedAt := now,
          status := if slip.status.SlipUnset? then SlipPending else slip.status,
          claimedFrom := claim,
          steps := map n | n in NameSet(steps) :: NormalStep(slip, n),
          aggregates := map c | c in AggregateColumns(steps) :: StoredItems(slip, c))
  }

  // ---- the proof, part by part ----

  lemma {:induction false} StepsFromAt(steps: seq<StepConfig>, statuses: seq<StepStatus>, i: nat)
    requires |steps| == |statuses| && Pipeline.DistinctNames(steps) && i < |steps|
    ensures var from := StepsFrom(steps, statuses); steps[i].name in from && from[steps[i].name] == Blank(statuses[i])
  {
    var n := |steps| - 1;
    if i < n {
      assert steps[..n][i] == steps[i] && statuses[..n][i] == statuses[i];
      StepsFromAt(steps[..n], statuses[..n], i);
      assert steps[i].name != steps[n].name;
    }
  }

  lemma {:induction false} StepsFromKeys(steps: seq<StepConfig>, statuses: seq<StepStatus>)
    requires |steps| == |statuses|
    ensures StepsFrom(steps, statuses).Keys == NameSet(steps)
  {
    if steps != [] {
      var n := |steps| - 1;
      StepsFromKeys(steps[..n], statuses[..n]);
      NameSetOnward(steps, n);
    }
  }

  lemma NameSetOnward(steps: seq<StepConfig>, n: nat)
    requires |steps| == n + 1
    ensures NameSet(steps) == NameSet(steps[..n]) + {steps[n].name}
  {
    forall i | 0 <= i < n ensures steps[i].name in NameSet(steps[..n]) { assert steps[..n][i] == steps[i]; }
    forall i | 0 <= i < n ensures steps[..n][i].name in NameSet(steps) { assert steps[..n][i] == steps[i]; }
  }

  lemma {:induction false} AggregatesFromIs(columns: seq<string>, items: seq<seq<Component>>, slip: Slip)
    requires |columns| == |items| && forall i :: 0 <= i < |columns| ==> items[i] == StoredItems(slip, columns[i])
    ensures AggregatesFrom(columns, items) == map c | c in columns :: StoredItems(slip, c)
  {
    if columns != [] {
      var n := |columns| - 1;
      AggregatesFromIs(columns[..n], items[..n], slip);
      assert columns == columns[..n] + [columns[n]];
    }
  }

  /** Merging the stored details gives each configured step back as it was, under its stored status. */
  lemma MergedIsOwn(slip: Slip, name: string)
    ensures var blank := Blank(StoredStatus(slip, name)); var details := DetailsOf(slip.steps);
            (if name in details then WithDetail(blank, details[name]) else blank)
            == Own(slip, name).(status := StoredStatus(slip, name))
  {
  }

  function StatusSeq(steps: seq<StepConfig>, slip: Slip): (ss: seq<StepStatus>)
    ensures |ss| == |steps|
  {
    seq(|steps|, i requires 0 <= i < |steps| => StoredStatus(slip, steps[i].name))
  }

  function ItemSeq(columns: seq<string>, slip: Slip): seq<seq<Component>> {
    seq(|columns|, i requires 0 <= i < |columns| => StoredItems(slip, columns[i]))
  }

  function Read(steps: seq<StepConfig>, slip: Slip): map<string, Step> {
    Timed(Merged(StepsFrom(steps, StatusSeq(steps, slip)), DetailsOf(slip.steps)), slip.history)
  }

  lemma LoadedStep(steps: seq<StepConfig>, slip: Slip, i: nat)
    requires Pipeline.DistinctNames(steps) && i < |steps|
    ensures var name := steps[i].name; name in Read(steps, slip) && Read(steps, slip)[name] == NormalStep(slip, name)
  {
    hide StepsFrom, DetailsOf, FirstAt, WithDetail, Fill, StoredStatus;
    StepsFromAt(steps, StatusSeq(steps, slip), i);
    MergedIsOwn(slip, steps[i].name);
  }

  lemma LoadedSteps(steps: seq<StepConfig>, slip: Slip)
    requires Pipeline.DistinctNames(steps)
    ensures Read(steps, slip) == map n | n in NameSet(steps) :: NormalStep(slip, n)
  {
    hide StepsFrom, DetailsOf, NormalStep, StatusSeq;
    StepsFromKeys(steps, StatusSeq(steps, slip));
    forall n | n in NameSet(steps) ensures n in Read(steps, slip) && Read(steps, slip)[n] == NormalStep(slip, n) {
      var i :| 0 <= i < |steps| && steps[i].name == n;
      LoadedStep(steps, slip, i);
    }
  }

  /** Where each part of a list of four stands. */
  lemma PartsAt(a: seq<Value>, b: seq<Value>, c: seq<Value>, last: Value)
    ensures var all := a + b + c + [last];
            && |all| == |a| + |b| + |c| + 1
            && (forall i :: 0 <= i < |a| ==> all[i] == a[i])
            && (forall i :: |a| <= i < |a| + |b| ==> all[i] == b[i - |a|])
            && (forall i :: |a| + |b| <= i < |a| + |b| + |c| ==> all[i] == c[i - |a| - |b|])
            && all[|a| + |b| + |c|] == last
  {
  }

  lemma ScanIs(steps: seq<StepConfig>, slip: Slip, now: int, forCreate: bool, zero: int, claim: SlipStatus)
    ensures var columns := AggregateColumns(steps);
            var vals := ValuesOf(steps, slip, now, forCreate, zero) + [Overall(claim)];
            && Fits(|steps|, |columns|, vals)
            && ScanOf(|steps|, |columns|, vals) ==
               Scan(slip.id, slip.repository, slip.branch, slip.commit,
                    if forCreate && slip.createdAt == zero then now else slip.createdAt, now,
                    if slip.status.SlipUnset? then SlipPending else slip.status,
                    DetailsOf(slip.steps), slip.history, StatusSeq(steps, slip), ItemSeq(columns, slip), claim)
  {
    hide AggregateColumns, StoredStatus, StoredItems, DetailsOf;
    var columns := AggregateColumns(steps);
    var core, sv, av := CoreValues(slip, now, forCreate, zero), StepValues(steps, slip), AggregateValues(columns, slip);
    PartsAt(core, sv, av, Overall(claim));
    var vals := core + sv + av + [Overall(claim)];
    var sc := ScanOf(|steps|, |columns|, vals);
    assert sc.stepStatuses == StatusSeq(steps, slip);
    assert sc.items == ItemSeq(columns, slip);
  }

  /** Under an accepted configuration a slip is written exactly when no aggregate step is called by a reserved
      word, and then loading it gives its normal form, with the claim the row already held and never one the slip
      carried; otherwise no row can be loaded at all. */
  lemma WriteThenLoad(steps: seq<StepConfig>, words: set<string>, row: DbRow, slip: Slip, now: int, forCreate: bool, zero: int)
    requires ValidConfig(steps) && ReservedWords(words) && CLAIMED_FROM in row && row[CLAIMED_FROM].Overall?
    ensures var written := Written(steps, words, row, slip, now, forCreate, zero);
            && (written.Some? <==> NoReservedWord(steps, words))
            && (written.Some? ==>
                  Load(steps, words, written.value) == Some(Normal(steps, slip, now, forCreate, zero, row[CLAIMED_FROM].status)))
            && (written.None? ==> forall other :: Load(steps, words, other) == None)
  {
    hide ValidConfig, Timed, Merged, Columns, SelectColumns, NormalStep, Fits, ScanOf, Assign, AggregateColumns,
      AggregatesFrom, StoredItems, Select, ValuesOf, NameSet, Accepts, NoReservedWord, ReservedWords;
    var claim := row[CLAIMED_FROM].status;
    var columns := AggregateColumns(steps);
    ReadsBackWhatWasWritten(steps, words, row, ValuesOf(steps, slip, now, forCreate, zero));
    ScanIs(steps, slip, now, forCreate, zero, claim);
    NamesAreDistinct(steps);
    LoadedSteps(steps, slip);
    AggregatesFromIs(columns, ItemSeq(columns, slip), slip);
    forall other ensures Select(other, SelectColumns(steps), words).Some? ==> NoReservedWord(steps, words) {
      SelectIsSpliced(steps, words, other);
    }
  }

  lemma SelectIsSpliced(steps: seq<StepConfig>, words: set<string>, row: DbRow)
    requires ValidConfig(steps) && ReservedWords(words)
    ensures Select(row, SelectColumns(steps), words).Some? ==> NoReservedWord(steps, words)
  {
    hide ValidConfig, Spliced, NoReservedWord, ReservedWords;
    SplicedExactlyWhen(steps, words);
  }

  /** Entry i of the history is the first that marks the step itself as running, or as ended. */
  ghost predicate FirstOf(history: seq<Entry>, step: string, ends: bool, i: nat) {
    && i < |history| && MarksStep(history[i], step, ends)
    && forall j :: 0 <= j < i ==> !MarksStep(history[j], step, ends)
  }

  predicate MarksStep(e: Entry, step: string, ends: bool) {
    && e.step == step && e.component == ""
    && if ends then e.status in {Completed, Skipped, Failed, Errored, Aborted, TimedOut} else e.status == Running
  }

  /** A recorded time survives; a missing one is that of the first entry that marks it, if any. */
  ghost predicate TimeKept(history: seq<Entry>, step: string, ends: bool, recorded: Option<int>, loaded: Option<int>) {
    if recorded.Some? then loaded == recorded
    else
      && (loaded.Some? ==> exists i: nat :: FirstOf(history, step, ends, i) && loaded.value == history[i].at)
      && (loaded.None? ==> forall i :: 0 <= i < |history| ==> !MarksStep(history[i], step, ends))
  }

  /** What a slip that was written is loaded as, field by field. */
  lemma LoadedIsWritten(steps: seq<StepConfig>, words: set<string>, row: DbRow, slip: Slip, now: int, forCreate: bool, zero: int)
    requires ValidConfig(steps) && ReservedWords(words) && CLAIMED_FROM in row && row[CLAIMED_FROM].Overall?
    requires forall i :: 0 <= i < |steps| && steps[i].aggregates != "" ==> ToLower(steps[i].name) !in words
    ensures var written := Written(steps, words, row, slip, now, forCreate, zero);
            && written.Some? && Load(steps, words, written.value).Some?
            && var loaded := Load(steps, words, written.value).value;
            && loaded.id == slip.id && loaded.repository == slip.repository && loaded.branch == slip.branch
            && loaded.commit == slip.commit && loaded.history == slip.history
            && loaded.createdAt == (if forCreate && slip.createdAt == zero then now else slip.createdAt) && loaded.updatedAt == now
            && loaded.status == (if slip.status == SlipUnset then SlipPending else slip.status)
            && loaded.claimedFrom == row[CLAIMED_FROM].status
            && (forall n :: n in loaded.steps <==> exists i :: 0 <= i < |steps| && steps[i].name == n)
            && (forall a :: a in loaded.aggregates <==> exists i :: 0 <= i < |steps| && steps[i].name == a && steps[i].aggregates != "")
            && (forall a :: a in loaded.aggregates ==>
                  loaded.aggregates[a] == if a in slip.aggregates then slip.aggregates[a] else [])
            && (forall n :: n in loaded.steps && n in slip.steps ==>
                  && loaded.steps[n].status == (if slip.steps[n].status == UnknownStep("") then Pending else slip.steps[n].status)
                  && loaded.steps[n].actor == slip.steps[n].actor && loaded.steps[n].error == slip.steps[n].error
                  && loaded.steps[n].heldReason == slip.steps[n].heldReason
                  && TimeKept(slip.history, n, false, slip.steps[n].startedAt, loaded.steps[n].startedAt)
                  && TimeKept(slip.history, n, true, slip.steps[n].completedAt, loaded.steps[n].completedAt))
            && (forall n :: n in loaded.steps && n !in slip.steps ==>
                  && loaded.steps[n].status == Pending && loaded.steps[n].actor == "" && loaded.steps[n].error == ""
                  && loaded.steps[n].heldReason == ""
                  && TimeKept(slip.history, n, false, None, loaded.steps[n].startedAt)
                  && TimeKept(slip.history, n, true, None, loaded.steps[n].completedAt))
  {
    hide ValidConfig, ReservedWords, Written, Load, TimeKept, NormalStep, AggregateColumns, ToLower, StoredItems;
    WriteThenLoad(steps, words, row, slip, now, forCreate, zero);
    var written := Written(steps, words, row, slip, now, forCreate, zero);
    assert NoReservedWord(steps, words) && written.Some?;
    var loaded := Load(steps, words, written.value).value;
    assert loaded == Normal(steps, slip, now, forCreate, zero, row[CLAIMED_FROM].status);
    forall n ensures n in loaded.steps <==> exists i :: 0 <= i < |steps| && steps[i].name == n {}
    forall a ensures a in AggregateColumns(steps) <==> exists i :: 0 <= i < |steps| && steps[i].name == a && steps[i].aggregates != "" {
      AggregateColumnsExactly(steps, a);
    }
    forall n | n in loaded.steps ensures loaded.steps[n] == NormalStep(slip, n) && NormalStepMeans(slip, n) {
      NormalStepIs(slip, n);
    }
    assert forall a :: StoredItems(slip, a) == if a in slip.aggregates then slip.aggregates[a] else [] by {
      ItemsAreStored(slip);
    }
  }

  lemma AggregateColumnsExactly(steps: seq<StepConfig>, a: string)
    ensures a in AggregateColumns(steps) <==> exists i :: 0 <= i < |steps| && steps[i].name == a && steps[i].aggregates != ""
  {
    if a in AggregateColumns(steps) {
      AggregateColumnsAre(steps, a);
    } else if i :| 0 <= i < |steps| && steps[i].name == a && steps[i].aggregates != "" {
      AggregatesAreListed(steps, i);
    }
  }

  lemma ItemsAreStored(slip: Slip)
    ensures forall a :: StoredItems(slip, a) == if a in slip.aggregates then slip.aggregates[a] else []
  {
  }

  ghost predicate NormalStepMeans(slip: Slip, n: string) {
    var loaded, own := NormalStep(slip, n), Own(slip, n);
    && own == (if n in slip.steps then slip.steps[n] else Step(Pending, None, None, "", "", ""))
    && loaded.status == (if own.status == UnknownStep("") then Pending else own.status)
    && loaded.actor == own.actor && loaded.error == own.error && loaded.heldReason == own.heldReason
    && TimeKept(slip.history, n, false, own.startedAt, loaded.startedAt)
    && TimeKept(slip.history, n, true, own.completedAt, loaded.completedAt)
  }

  lemma NormalStepIs(slip: Slip, n: string)
    ensures NormalStepMeans(slip, n)
  {
    FirstTimeIs(slip.history, n, false);
    FirstTimeIs(slip.history, n, true);
  }

  lemma FirstTimeIs(history: seq<Entry>, n: string, ends: bool)
    ensures TimeKept(history, n, ends, None, FirstAt(history, n, ends))
  {
    assert forall e: Entry :: Marks(e, n, ends) <==> MarksStep(e, n, ends);
    var at := FirstAt(history, n, ends);
    if at.Some? {
      var i :| 0 <= i < |history| && Marks(history[i], n, ends) && history[i].at == at.value
               && forall j :: 0 <= j < i ==> !Marks(history[j], n, ends);
      assert FirstOf(history, n, ends, i);
    }
  }

  lemma NamesAreDistinct(steps: seq<StepConfig>)
    requires ValidConfig(steps)
    ensures Pipeline.DistinctNames(steps)
  {
  }

  lemma StepIsStable(steps: seq<StepConfig>, slip: Slip, once: Slip, n: string)
    requires n in once.steps && once.steps[n] == NormalStep(slip, n) && once.history == slip.history
    ensures NormalStep(once, n) == NormalStep(slip, n)
  {
    hide FirstAt;
  }

  /** Loading and writing again changes nothing but the timestamps the store sets itself. */
  lemma NormalFormIsStable(steps: seq<StepConfig>, slip: Slip, now: int, forCreate: bool, zero: int, claim: SlipStatus,
                           later: int)
    ensures var once := Normal(steps, slip, now, forCreate, zero, claim);
            Normal(steps, once, later, false, zero, claim) == once.(updatedAt := later)
  {
    hide NormalStep, NameSet, AggregateColumns;
    var once := Normal(steps, slip, now, forCreate, zero, claim);
    var twice := Normal(steps, once, later, false, zero, claim);
    forall n | n in NameSet(steps) ensures twice.steps[n] == once.steps[n] {
      StepIsStable(steps, slip, once, n);
    }
    assert twice.steps == once.steps;
    assert twice.aggregates == once.aggregates;
  }

  // ---- the claim's own read ----

  /** claimStateColumns. */
  function ClaimStateColumns(steps: seq<StepConfig>): seq<string> {
    [CLAIMED_FROM, "status"] + StatusColumns(steps) + AggregateColumns(steps)
  }

  /** loadClaimStateTx: everything the claim decisions read, and no more. */
  function ClaimState(steps: seq<StepConfig>, words: set<string>, row: DbRow): Option<Slip> {
    var n, m := |steps|, |AggregateColumns(steps)|;
    var got := Select(row, ClaimStateColumns(steps), words);
    if got.Some? && ClaimStateFits(n, m, got.value) then
      var vals := got.value;
      Some(Slip("", "", "", "", 0, 0, vals[1].status, vals[0].status,
                StepsFrom(steps, seq(n, i requires 0 <= i < n => vals[2 + i].step)),
                AggregatesFrom(AggregateColumns(steps), seq(m, i requires 0 <= i < m => vals[2 + n + i].items)), []))
    else None
  }

  predicate ClaimStateFits(n: nat, m: nat, vals: seq<Value>) {
    && |vals| == 2 + n + m && vals[0].Overall? && vals[1].Overall?
    && (forall i :: 2 <= i < 2 + n ==> vals[i].OfStep?)
    && (forall i :: 2 + n <= i < 2 + n + m ==> vals[i].ItemList?)
  }

  /** Where each claim-state column stands in the full select list. */
  function Position(steps: seq<StepConfig>, i: nat): nat {
    if i == 0 then |Columns(steps)| else if i == 1 then 6 else CORE + i - 2
  }

  lemma SameColumn(steps: seq<StepConfig>, i: nat)
    requires i < |ClaimStateColumns(steps)|
    ensures Position(steps, i) < |SelectColumns(steps)| && SelectColumns(steps)[Position(steps, i)] == ClaimStateColumns(steps)[i]
  {
  }

  lemma ClaimStateReadsTheSameValues(steps: seq<StepConfig>, words: set<string>, row: DbRow)
    requires Load(steps, words, row).Some?
    ensures Select(row, ClaimStateColumns(steps), words).Some?
    ensures var vals, got := Select(row, SelectColumns(steps), words).value, Select(row, ClaimStateColumns(steps), words).value;
            && |got| == |ClaimStateColumns(steps)|
            && forall i :: 0 <= i < |got| ==> Position(steps, i) < |vals| && got[i] == vals[Position(steps, i)]
  {
    hide PgName, ClaimStateColumns, SelectColumns, Loaded, ScanOf, Fits, Position;
    var all, cols := SelectColumns(steps), ClaimStateColumns(steps);
    forall i | 0 <= i < |cols|
      ensures Position(steps, i) < |all| && PgName(cols[i]) in row
      ensures row[PgName(cols[i])] == Select(row, all, words).value[Position(steps, i)]
    {
      SameColumn(steps, i);
      assert all[Position(steps, i)] in all;
    }
    forall c | c in cols ensures PgName(c) in row && c in all {
      var i :| 0 <= i < |cols| && cols[i] == c;
      SameColumn(steps, i);
    }
  }

  /** Whatever row the full read can hydrate, the claim's read of it sees the same claim, the same status, the
      same status of every step and the same components. */
  lemma BothReadsAgree(steps: seq<StepConfig>, words: set<string>, row: DbRow)
    requires Load(steps, words, row).Some?
    ensures var full, partial := Load(steps, words, row).value, ClaimState(steps, words, row);
            && partial.Some?
            && partial.value.claimedFrom == full.claimedFrom && partial.value.status == full.status
            && partial.value.steps.Keys == full.steps.Keys
            && (forall n :: n in full.steps ==> partial.value.steps[n].status == full.steps[n].status)
            && partial.value.aggregates == full.aggregates
  {
    hide PgName, StepsFrom, AggregatesFrom, FirstAt, Select, SelectColumns, AggregateColumns, StatusColumns;
    var n, m := |steps|, |AggregateColumns(steps)|;
    ClaimStateReadsTheSameValues(steps, words, row);
    var vals, got := Select(row, SelectColumns(steps), words).value, Select(row, ClaimStateColumns(steps), words).value;
    ColumnCounts(steps);
    forall i | 0 <= i < |got| ensures got[i] == vals[Position(steps, i)] {}
    var sc := ScanOf(n, m, vals);
    assert seq(n, i requires 0 <= i < n => got[2 + i].step) == sc.stepStatuses;
    assert seq(m, i requires 0 <= i < m => got[2 + n + i].items) == sc.items;
  }

  lemma ColumnCounts(steps: seq<StepConfig>)
    ensures |ClaimStateColumns(steps)| == 2 + |steps| + |AggregateColumns(steps)|
    ensures |Columns(steps)| == CORE + |steps| + |AggregateColumns(steps)|
  {
  }
}

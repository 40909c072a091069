/** One routing_slips row with its component states, and the step writes that change it
    (slippy/types.go, slippy/postgres_store_updates.go). */
module Rows {
  import opened Status
  import opened Aggregate
  import Utf8

  const PUSH_PARSED := "push_parsed"
  const CLAIM_MARKER := "slip_claimed"
  const RELEASE_MARKER := "slip_released"

  /** The lookups PipelineConfig.initialize builds: the configured steps, the aggregate step each
      component type rolls into, and the component type of each aggregate step. */
  datatype Lookup = Lookup(steps: set<string>, aggregateOf: map<string, string>, componentOf: map<string, string>)

  /** What initialize yields for a config whose aggregates are unique. */
  predicate ConsistentLookup(cfg: Lookup) {
    && (forall a :: a in cfg.componentOf ==>
          a in cfg.steps && cfg.componentOf[a] in cfg.aggregateOf && cfg.aggregateOf[cfg.componentOf[a]] == a)
    && (forall c :: c in cfg.aggregateOf ==>
          cfg.aggregateOf[c] in cfg.componentOf && cfg.componentOf[cfg.aggregateOf[c]] == c)
  }

  datatype Component = Component(name: string, status: StepStatus)

  /** at is the timestamp; actor is a Go string, so it may hold any bytes. */
  datatype Entry = Entry(step: string, component: string, status: StepStatus, at: int, actor: Utf8.Bytes, message: string)

  /** The primary key of slip_component_states within one slip; component "" is the step itself. */
  datatype EventKey = EventKey(step: string, component: string)

  datatype Row = Row(
    status: SlipStatus,
    claimedFrom: SlipStatus,
    steps: map<string, StepStatus>,
    aggregates: map<string, seq<Component>>,
    events: map<EventKey, StepStatus>,
    history: seq<Entry>)
  {
    predicate Claimed() {
      !claimedFrom.SlipUnset?
    }
  }

  /** RunInFlight: a step, or a component inside an aggregate, is running or held; push_parsed never counts. */
  predicate InFlight(row: Row) {
    || (exists s :: s in row.steps && s != PUSH_PARSED && row.steps[s].IsRunning())
    || (exists a :: a in row.aggregates && a != PUSH_PARSED && ComponentInFlight(row.aggregates[a]))
  }

  predicate ComponentInFlight(items: seq<Component>) {
    exists i :: 0 <= i < |items| && items[i].status.IsRunning()
  }

  // ---- the marker namespace ----

  /** The part of strings.ToLower that matters for comparing with an ASCII name: A-Z, and the two
      code points outside ASCII whose lower case is inside it. */
  function LowerChar(c: char): char {
    if 'A' <= c <= 'Z' then c - 'A' + 'a'
    else if c == '\U{0130}' then 'i'
    else if c == '\U{212A}' then 'k'
    else c
  }

  function ToLower(s: string): (t: string)
    ensures |t| == |s|
  {
    seq(|s|, i requires 0 <= i < |s| => LowerChar(s[i]))
  }

  /** Lower case letter by letter. */
  lemma LowerIsTheAlphabet(s: string, i: nat)
    requires i < |s|
    ensures |ToLower(s)| == |s|
    ensures 'A' <= s[i] <= 'Z' ==> ToLower(s)[i] == "abcdefghijklmnopqrstuvwxyz"[s[i] as int - 65]
    ensures s[i] < 'A' || 'Z' < s[i] < '\U{0080}' ==> ToLower(s)[i] == s[i]
  {
  }

  predicate ReservedMarkerStep(name: string) {
    ToLower(name) == CLAIM_MARKER || ToLower(name) == RELEASE_MARKER
  }

  /** GuardReservedStepWrite: true when a caller-supplied write may proceed. */
  predicate GuardAllows(stepName: string, entry: Option<Entry>) {
    && !(stepName != "" && ReservedMarkerStep(stepName))
    && (entry.Some? ==> !(entry.value.step != "" && ReservedMarkerStep(entry.value.step)))
  }

  predicate IsMarker(e: Entry) {
    e.step == CLAIM_MARKER || e.step == RELEASE_MARKER
  }

  predicate MarkerFree(history: seq<Entry>) {
    forall i :: 0 <= i < |history| ==> !IsMarker(history[i])
  }

  /** An entry the guard lets through is never read as a marker. */
  lemma GuardKeepsMarkersOut(stepName: string, entry: Entry)
    requires GuardAllows(stepName, Some(entry))
    ensures !IsMarker(entry)
  {
    assert ToLower(CLAIM_MARKER) == CLAIM_MARKER;
    assert ToLower(RELEASE_MARKER) == RELEASE_MARKER;
  }

  // ---- step writes ----

  /** resolveAggregateStep. */
  function Resolve(cfg: Lookup, step: string): Option<string> {
    if step in cfg.aggregateOf then Some(cfg.aggregateOf[step])
    else if step in cfg.componentOf then Some(step)
    else None
  }

  predicate RollsInto(cfg: Lookup, agg: string, k: EventKey) {
    k.component != "" && (k.step == agg || (agg in cfg.componentOf && k.step == cfg.componentOf[agg]))
  }

  /** The component states of agg: rows recorded under the aggregate's own name or its component type. */
  function Active(cfg: Lookup, events: map<EventKey, StepStatus>, agg: string): set<EventKey> {
    set k | k in events && RollsInto(cfg, agg, k)
  }

  /** A result set of the component-state query: every matching row once, in any order. */
  predicate Scans(cfg: Lookup, events: map<EventKey, StepStatus>, agg: string, scan: seq<EventKey>) {
    && (forall k :: k in scan ==> k in Active(cfg, events, agg))
    && (forall k :: k in Active(cfg, events, agg) ==> k in scan)
    && (forall i, j :: 0 <= i < j < |scan| ==> scan[i] != scan[j])
    && |scan| == |Active(cfg, events, agg)|
  }

  function LastIndex(items: seq<Component>, name: string): (i: int)
    ensures -1 <= i < |items|
    ensures i >= 0 ==> items[i].name == name
    ensures forall j :: i < j < |items| ==> items[j].name != name
  {
    if items == [] then -1
    else if items[|items| - 1].name == name then |items| - 1
    else LastIndex(items[..|items| - 1], name)
  }

  function Merge(items: seq<Component>, c: Component): seq<Component> {
    var i := LastIndex(items, c.name);
    if i >= 0 then items[i := c] else items + [c]
  }

  function MergeAll(items: seq<Component>, events: map<EventKey, StepStatus>, scan: seq<EventKey>): seq<Component>
    requires forall k :: k in scan ==> k in events
  {
    if scan == [] then items
    else
      var n := |scan| - 1;
      Merge(MergeAll(items, events, scan[..n]), Component(scan[n].component, events[scan[n]]))
  }

  function Statuses(events: map<EventKey, StepStatus>, scan: seq<EventKey>): (ss: seq<StepStatus>)
    requires forall k :: k in scan ==> k in events
  {
    seq(|scan|, i requires 0 <= i < |scan| => events[scan[i]])
  }

  function Items(row: Row, agg: string): seq<Component> {
    if agg in row.aggregates then row.aggregates[agg] else []
  }

  /** recomputeAggregate: nothing is rolled up until a component has reported. */
  function Recompute(row: Row, agg: string, scan: seq<EventKey>): Row
    requires forall k :: k in scan ==> k in row.events
  {
    if scan == [] then row
    else row.(aggregates := row.aggregates[agg := MergeAll(Items(row, agg), row.events, scan)],
              steps := row.steps[agg := Rollup(Statuses(row.events, scan))])
  }

  /** writeStepStatusColumn: a step the config does not name writes nothing. */
  function WriteColumn(cfg: Lookup, row: Row, step: string, status: StepStatus): Row {
    if step in cfg.steps then row.(steps := row.steps[step := status]) else row
  }

  /** The aggregate a step write rolls up, if it takes that branch. */
  function RollupTarget(cfg: Lookup, step: string, component: string): Option<string> {
    if component != "" || step in cfg.componentOf then Resolve(cfg, step) else None
  }

  /** The status write of updateStepTx once the component state is recorded. */
  function Land(cfg: Lookup, row: Row, step: string, component: string, status: StepStatus, scan: seq<EventKey>): Row
    requires forall k :: k in scan ==> k in row.events
  {
    if component != "" || step in cfg.componentOf then
      match Resolve(cfg, step)
      case None => row
      case Some(agg) =>
        if scan == [] && component == "" && agg == step then WriteColumn(cfg, row, step, status)
        else Recompute(row, agg, scan)
    else WriteColumn(cfg, row, step, status)
  }

  predicate NonTerminalWrite(status: StepStatus) {
    status.Pending? || status.Held? || status.Running?
  }

  /** The terminal-freshness guard of upsertComponentState; recent says the gate is on and the
      recorded state is younger than the window. */
  predicate FreshnessRefuses(row: Row, k: EventKey, status: StepStatus, recent: bool) {
    && recent
    && !(k.step == PUSH_PARSED && k.component == "")
    && k in row.events && row.events[k].IsTerminal()
    && NonTerminalWrite(status)
    && !(row.events[k].Aborted? && status.Pending?)
  }

  datatype StepWrite = StepWrite(step: string, component: string, status: StepStatus, entry: Option<Entry>, recent: bool, scan: seq<EventKey>)
  {
    function Key(): EventKey {
      EventKey(step, component)
    }
  }

  predicate StepWriteAllowed(row: Row, w: StepWrite) {
    GuardAllows(w.step, w.entry) && !FreshnessRefuses(row, w.Key(), w.status, w.recent)
  }

  /** The scan the rollup of this write reads is the one the database returns. */
  predicate ScanMatches(cfg: Lookup, row: Row, w: StepWrite) {
    match RollupTarget(cfg, w.step, w.component)
    case None => w.scan == []
    case Some(agg) => Scans(cfg, row.events[w.Key() := w.status], agg, w.scan)
  }

  function Log(row: Row, entry: Option<Entry>): Row {
    if entry.None? then row else row.(history := row.history + [entry.value])
  }

  /** updateStepTx; a refused write leaves the row alone. */
  function UpdateStep(cfg: Lookup, row: Row, w: StepWrite): Row
    requires ScanMatches(cfg, row, w)
  {
    if !StepWriteAllowed(row, w) then row
    else
      var recorded := row.(events := row.events[w.Key() := w.status]);
      Log(Land(cfg, recorded, w.step, w.component, w.status, w.scan), w.entry)
  }

  /** Exactly which step writes the store turns down: those that name a marker, and a non-terminal status over a
      terminal one inside the window, except a reset of an aborted one and what push_parsed does itself. */
  lemma WriteIsRefusedExactlyWhen(row: Row, w: StepWrite)
    ensures !StepWriteAllowed(row, w) <==>
            || ToLower(w.step) == "slip_claimed" || ToLower(w.step) == "slip_released"
            || (w.entry.Some? && (ToLower(w.entry.value.step) == "slip_claimed" || ToLower(w.entry.value.step) == "slip_released"))
            || ( && w.recent && !(w.step == "push_parsed" && w.component == "")
                 && w.Key() in row.events && row.events[w.Key()] in {Completed, Skipped, Failed, Errored, Aborted, TimedOut}
                 && w.status in {Pending, Held, Running}
                 && !(row.events[w.Key()] == Aborted && w.status == Pending))
  {
    assert |ToLower("")| == 0;
  }

  /** What an accepted step write changes: the state of its step and component, its own column or the rollup of an
      aggregate, and the history; a refused one changes nothing. */
  lemma StepWriteMeans(cfg: Lookup, row: Row, w: StepWrite)
    requires ConsistentLookup(cfg) && ScanMatches(cfg, row, w)
    ensures var after := UpdateStep(cfg, row, w); var k := EventKey(w.step, w.component);
            && after.status == row.status && after.claimedFrom == row.claimedFrom
            && (!StepWriteAllowed(row, w) ==> after == row)
            && (StepWriteAllowed(row, w) ==>
                  && after.events == row.events[k := w.status]
                  && after.history == row.history + (if w.entry.Some? then [w.entry.value] else [])
                  && (w.component == "" && w.step !in cfg.componentOf ==>
                        && after.aggregates == row.aggregates
                        && after.steps == if w.step in cfg.steps then row.steps[w.step := w.status] else row.steps)
                  && (w.component != "" && w.step !in cfg.componentOf && w.step !in cfg.aggregateOf ==>
                        after.steps == row.steps && after.aggregates == row.aggregates)
                  && (w.component != "" || w.step in cfg.componentOf ==>
                        forall a :: a == (if w.step in cfg.aggregateOf then cfg.aggregateOf[w.step] else w.step) && a in cfg.componentOf ==>
                          LandsOnAggregate(cfg, row, w, a, after)))
  {
    if StepWriteAllowed(row, w) && (w.component != "" || w.step in cfg.componentOf) && Resolve(cfg, w.step).Some? {
      RollupLands(cfg, row, w, Resolve(cfg, w.step).value);
    }
  }

  /** The component states under either name of the aggregate, once the write is recorded. */
  ghost predicate ReportsTo(cfg: Lookup, row: Row, w: StepWrite, a: string, k: EventKey)
    requires a in cfg.componentOf
  {
    (k in row.events || k == EventKey(w.step, w.component)) && k.component != "" && (k.step == a || k.step == cfg.componentOf[a])
  }

  ghost function ReportedStatus(row: Row, w: StepWrite, k: EventKey): StepStatus
    requires k in row.events || k == EventKey(w.step, w.component)
  {
    if k == EventKey(w.step, w.component) then w.status else row.events[k]
  }

  /** With components reported the aggregate step takes their rollup and nothing else of it does; with none, only a
      componentless write to the step itself sets its column. */
  ghost predicate LandsOnAggregate(cfg: Lookup, row: Row, w: StepWrite, a: string, after: Row)
    requires a in cfg.componentOf
  {
    if exists k :: ReportsTo(cfg, row, w, a, k) then
      && a in after.steps && after.steps == row.steps[a := after.steps[a]]
      && a in after.aggregates && after.aggregates == row.aggregates[a := after.aggregates[a]]
      && (after.steps[a] == Failed <==>
            exists k :: ReportsTo(cfg, row, w, a, k) && ReportedStatus(row, w, k) in {Failed, Errored, Aborted, TimedOut})
      && (after.steps[a] == Completed <==> forall k :: ReportsTo(cfg, row, w, a, k) ==> ReportedStatus(row, w, k) in {Completed, Skipped})
      && after.steps[a] in {Failed, Completed, Running, Pending}
      && (after.steps[a] == Pending <==>
            forall k :: ReportsTo(cfg, row, w, a, k) ==>
              ReportedStatus(row, w, k) !in {Failed, Errored, Aborted, TimedOut, Completed, Skipped, Running, Held})
    else
      && after.aggregates == row.aggregates
      && after.steps == if w.component == "" && a == w.step then row.steps[a := w.status] else row.steps
  }

  lemma ScanReports(cfg: Lookup, row: Row, w: StepWrite, a: string)
    requires a in cfg.componentOf && ScanMatches(cfg, row, w) && RollupTarget(cfg, w.step, w.component) == Some(a)
    ensures var events := row.events[w.Key() := w.status];
            && (forall k :: k in w.scan <==> ReportsTo(cfg, row, w, a, k))
            && (forall k :: k in w.scan ==> k in events && events[k] == ReportedStatus(row, w, k))
  {
    var events := row.events[w.Key() := w.status];
    forall k ensures k in w.scan <==> ReportsTo(cfg, row, w, a, k) {
      assert k in Active(cfg, events, a) <==> k in w.scan;
    }
  }

  lemma StatusesOfScan(events: map<EventKey, StepStatus>, scan: seq<EventKey>)
    requires forall k :: k in scan ==> k in events
    ensures forall k :: k in scan ==> events[k] in Statuses(events, scan)
    ensures forall c :: c in Statuses(events, scan) ==> exists k :: k in scan && events[k] == c
  {
    var ss := Statuses(events, scan);
    forall k | k in scan ensures events[k] in ss {
      var i :| 0 <= i < |scan| && scan[i] == k;
      assert ss[i] == events[k];
    }
    forall c | c in ss ensures exists k :: k in scan && events[k] == c {
      var i :| 0 <= i < |ss| && ss[i] == c;
      assert scan[i] in scan;
    }
  }

  lemma RollupLands(cfg: Lookup, row: Row, w: StepWrite, a: string)
    requires ConsistentLookup(cfg) && ScanMatches(cfg, row, w) && StepWriteAllowed(row, w)
    requires (w.component != "" || w.step in cfg.componentOf) && Resolve(cfg, w.step) == Some(a)
    ensures LandsOnAggregate(cfg, row, w, a, UpdateStep(cfg, row, w))
  {
    hide StepWriteAllowed, ReportsTo, ReportedStatus, Scans, MergeAll, Statuses, Rollup;
    var events := row.events[w.Key() := w.status];
    ScanReports(cfg, row, w, a);
    if w.scan != [] {
      assert w.scan[0] in w.scan;
      StatusesOfScan(events, w.scan);
      RollupMeans(Statuses(events, w.scan));
    }
  }

  /** A step write never touches the slip status or the claim, and only appends to the history. */
  lemma UpdateStepFrame(cfg: Lookup, row: Row, w: StepWrite)
    requires ScanMatches(cfg, row, w)
    ensures UpdateStep(cfg, row, w).status == row.status
    ensures UpdateStep(cfg, row, w).claimedFrom == row.claimedFrom
    ensures UpdateStep(cfg, row, w).history ==
            if StepWriteAllowed(row, w) && w.entry.Some? then row.history + [w.entry.value] else row.history
  {
  }

  /** A write the gate looks at: its step is not the push path's own, and it comes inside the window. */
  predicate Gated(w: StepWrite) {
    w.recent && !(w.step == PUSH_PARSED && w.component == "") && !w.status.UnknownStep?
  }

  /** A gated write loses a recorded terminal state exactly when it is the reset of an aborted step to pending. */
  lemma GatedWriteLosesTerminalExactlyWhen(cfg: Lookup, row: Row, w: StepWrite)
    requires ScanMatches(cfg, row, w) && Gated(w) && GuardAllows(w.step, w.entry)
    requires w.Key() in row.events && row.events[w.Key()].IsTerminal()
    ensures var after := UpdateStep(cfg, row, w);
            w.Key() in after.events
            && (!after.events[w.Key()].IsTerminal() <==> row.events[w.Key()].Aborted? && w.status.Pending?)
  {
    hide GuardAllows, ScanMatches;
  }

  lemma OtherStatesStay(cfg: Lookup, row: Row, w: StepWrite, k: EventKey)
    requires ScanMatches(cfg, row, w) && k in row.events && (k != w.Key() || !GuardAllows(w.step, w.entry))
    ensures k in UpdateStep(cfg, row, w).events && UpdateStep(cfg, row, w).events[k] == row.events[k]
  {
  }

  /** Through any burst of step writes inside the window, a recorded terminal state stays terminal, as long as none
      of them resets it from aborted. */
  lemma {:induction false} TerminalStateSurvivesABurst(cfg: Lookup, rows: seq<Row>, ws: seq<StepWrite>, k: EventKey,
                                                       n: nat)
    requires |rows| == |ws| + 1 && n < |rows|
    requires forall i :: 0 <= i < |ws| ==> ScanMatches(cfg, rows[i], ws[i]) && rows[i + 1] == UpdateStep(cfg, rows[i], ws[i])
    requires forall i :: 0 <= i < |ws| && ws[i].Key() == k ==> Gated(ws[i]) && !ws[i].status.Pending?
    requires k in rows[0].events && rows[0].events[k].IsTerminal()
    ensures k in rows[n].events && rows[n].events[k].IsTerminal()
  {
    hide UpdateStep, ScanMatches, GuardAllows, Gated;
    if n > 0 {
      TerminalStateSurvivesABurst(cfg, rows, ws, k, n - 1);
      var w := ws[n - 1];
      if w.Key() == k && GuardAllows(w.step, w.entry) {
        GatedWriteLosesTerminalExactlyWhen(cfg, rows[n - 1], w);
      } else {
        OtherStatesStay(cfg, rows[n - 1], w, k);
      }
    }
  }

  /** AppendHistory. */
  function AppendHistory(row: Row, entry: Entry): Row {
    if GuardAllows("", Some(entry)) then Log(row, Some(entry)) else row
  }

  /** It adds the entry and nothing else, unless the entry carries the name of a marker in any case. */
  lemma AppendMeans(row: Row, entry: Entry)
    ensures AppendHistory(row, entry) ==
            if ToLower(entry.step) == "slip_claimed" || ToLower(entry.step) == "slip_released" then row
            else row.(history := row.history + [entry])
  {
    assert |ToLower("")| == 0;
  }
}

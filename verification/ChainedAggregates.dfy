/** An aggregate step whose name is also another aggregate's component type: what its writes do to a claim, and why no
    other configuration does it (slippy/postgres_store_updates.go: updateStepTx, recomputeAggregate). */
module ChainedAggregates {
  import opened Status
  import opened Aggregate
  import opened Rows
  import opened ClaimProtocol
  import opened PostJobs

  /** A row as a push creates it: nothing has been reported. */
  ghost predicate Created(cfg: Lookup, w: World) {
    Opened(cfg, w) && w.row.events == map[]
  }

  /** A componentless write to an aggregate step nothing has reported to lands on its column exactly when
      the step's name is not another aggregate's component type. */
  lemma ComponentlessWriteLandsExactlyWhenNotChained(cfg: Lookup, row: Row, w: StepWrite)
    requires ConsistentLookup(cfg) && ScanMatches(cfg, row, w) && StepWriteAllowed(row, w)
    requires w.component == "" && w.step in cfg.componentOf && w.step in row.steps && row.steps[w.step] != w.status
    requires Active(cfg, row.events, w.step) == {}
    ensures UpdateStep(cfg, row, w).steps[w.step] == w.status <==> !Chained(cfg, w.step)
  {
    var events := row.events[w.Key() := w.status];
    forall k ensures k !in Active(cfg, events, w.step) {
      assert k in Active(cfg, events, w.step) ==> k in Active(cfg, row.events, w.step);
    }
    if Resolve(cfg, w.step) == Some(w.step) {
      EmptyScan(cfg, events, w.step, w.scan);
    }
  }

  /** Writing the status of a chained aggregate step leaves its column as it was, so that while it reads running
      no release clears the claim. */
  lemma ChainedStepStrandsTheClaim(cfg: Lookup, row: Row, w: StepWrite)
    requires ConsistentLookup(cfg) && ScanMatches(cfg, row, w)
    requires w.component == "" && Chained(cfg, w.step) && w.step != PUSH_PARSED
    requires w.step in row.steps && row.steps[w.step].IsRunning() && row.Claimed()
    ensures var after := UpdateStep(cfg, row, w);
            && w.step in after.steps && after.steps[w.step] == row.steps[w.step]
            && InFlight(after) && after.Claimed()
            && forall actor, at :: ReleaseRow(after, actor, at) == after
  {
    UpdateStepFrame(cfg, row, w);
    var after := UpdateStep(cfg, row, w);
    assert after.steps[w.step] == row.steps[w.step];
    assert InFlight(after);
  }

  // ---- a start nobody sees ----

  /** On every row a push has created, a chained step's own start is recorded and changes nothing a claim can see: in
      a run with nothing in flight the next release clears the claim while that job works. */
  lemma ChainedStartIsUnseen(cfg: Lookup, w: World, a: string) returns (start: StepWrite)
    requires ConsistentLookup(cfg) && Created(cfg, w)
    requires Chained(cfg, a) && a != PUSH_PARSED && !ReservedMarkerStep(a)
    ensures start.Key() == EventKey(a, "") && start.status.IsRunning()
    ensures Enabled(cfg, w, Write(start))
    ensures var after := Written(cfg, w, start);
            && AtWork(cfg, after, start.Key())
            && after.row == w.row.(events := map[start.Key() := start.status])
            && (InFlight(after.row) <==> InFlight(w.row))
            && (!InFlight(w.row) ==> forall actor, at :: !ReleaseRow(after.row, actor, at).Claimed())
  {
    start := StepWrite(a, "", Running, None, false, []);
    var k := start.Key();
    var events := w.row.events[k := Running];
    assert events == map[k := Running];
    forall b ensures Active(cfg, events, b) == {} {}
    assert Scans(cfg, events, cfg.aggregateOf[a], []);
  }

  // ---- a claim nobody can release ----

  lemma ReportLands(cfg: Lookup, w: World, write: StepWrite, a: string)
    requires write.component != "" && Resolve(cfg, write.step) == Some(a)
    requires ScanMatches(cfg, w.row, write) && StepWriteAllowed(w.row, write) && write.scan != [] && write.entry == None
    ensures var after := Written(cfg, w, write); var events := w.row.events[write.Key() := write.status];
            && (forall k :: k in write.scan ==> k in events)
            && after.row.events == events && after.unheard == w.unheard - {a}
            && after.row.steps == w.row.steps[a := Rollup(Statuses(events, write.scan))]
            && after.row.claimedFrom == w.row.claimedFrom
  {
    hide UpdateStep, ScanMatches, StepWriteAllowed;
    ReportRollsUp(cfg, w.row, write, a);
  }

  lemma RollupsOfTwo()
    ensures Rollup([Running]) == Running && Rollup([Running, Completed]) == Running
  {
    assert [Running, Completed][0] == Running && [Running, Completed][1] == Completed;
  }

  /** The writes that strand a claim: a component of the chained step starts, one of its other name ends, the first
      one ends. */
  function StrandingWrites(cfg: Lookup, a: string): seq<StepWrite>
    requires a in cfg.componentOf && a in cfg.aggregateOf
  {
    var b := cfg.componentOf[a];
    var k, l := EventKey(a, "c"), EventKey(b, "d");
    [StepWrite(a, "c", Running, None, false, [k]),
     StepWrite(b, "d", Completed, None, false, [k, l]),
     StepWrite(a, "c", Completed, None, false, if b == cfg.aggregateOf[a] then [k, l] else [k])]
  }

  lemma KeysActive(cfg: Lookup, a: string, k: EventKey, l: EventKey, events: map<EventKey, StepStatus>)
    requires ConsistentLookup(cfg) && Chained(cfg, a)
    requires k == EventKey(a, "c") && l == EventKey(cfg.componentOf[a], "d")
    requires events.Keys == {k, l}
    ensures Active(cfg, events, a) == {k, l}
    ensures Active(cfg, events, cfg.aggregateOf[a]) == if cfg.componentOf[a] == cfg.aggregateOf[a] then {k, l} else {k}
    ensures cfg.componentOf[a] != a && Resolve(cfg, a) == Some(cfg.aggregateOf[a]) && Resolve(cfg, cfg.componentOf[a]) == Some(a)
  {
  }

  lemma FirstReport(cfg: Lookup, w: World, a: string)
    requires ConsistentLookup(cfg) && Created(cfg, w) && Chained(cfg, a) && !ReservedMarkerStep(a)
    ensures var write := StrandingWrites(cfg, a)[0]; var t := cfg.aggregateOf[a];
            && Enabled(cfg, w, Write(write))
            && var after := Written(cfg, w, write);
            && after.row.events == map[EventKey(a, "c") := Running]
            && after.unheard == w.unheard - {t} && after.row.steps == w.row.steps[t := Running]
            && after.row.claimedFrom == w.row.claimedFrom
  {
    var write := StrandingWrites(cfg, a)[0];
    var k, t := EventKey(a, "c"), cfg.aggregateOf[a];
    var events := w.row.events[k := Running];
    assert events == map[k := Running];
    assert Active(cfg, events, t) == {k};
    ScanOfOne(cfg, events, t, k);
    ReportLands(cfg, w, write, t);
    assert Statuses(events, [k]) == [Running];
    RollupsOfTwo();
  }

  lemma SecondReport(cfg: Lookup, w: World, a: string)
    requires ConsistentLookup(cfg) && Chained(cfg, a) && !ReservedMarkerStep(cfg.componentOf[a])
    requires w.row.events == map[EventKey(a, "c") := Running]
    ensures var write := StrandingWrites(cfg, a)[1];
            && Enabled(cfg, w, Write(write))
            && var after := Written(cfg, w, write);
            && after.row.events == map[EventKey(a, "c") := Running, EventKey(cfg.componentOf[a], "d") := Completed]
            && after.unheard == w.unheard - {a} && after.row.steps == w.row.steps[a := Running]
            && after.row.claimedFrom == w.row.claimedFrom
  {
    hide Scans, RollsInto, ReservedMarkerStep, Rollup;
    var write := StrandingWrites(cfg, a)[1];
    var k, l := EventKey(a, "c"), EventKey(cfg.componentOf[a], "d");
    var events := w.row.events[l := Completed];
    assert events == map[k := Running, l := Completed] && events.Keys == {k, l};
    KeysActive(cfg, a, k, l, events);
    ScanOfTwo(cfg, events, a, k, l);
    ReportLands(cfg, w, write, a);
    assert Statuses(events, [k, l]) == [Running, Completed];
    RollupsOfTwo();
  }

  lemma ThirdScan(cfg: Lookup, a: string, events: map<EventKey, StepStatus>)
    requires ConsistentLookup(cfg) && Chained(cfg, a)
    requires events.Keys == {EventKey(a, "c"), EventKey(cfg.componentOf[a], "d")}
    ensures Scans(cfg, events, cfg.aggregateOf[a], StrandingWrites(cfg, a)[2].scan)
  {
    var k, l, t := EventKey(a, "c"), EventKey(cfg.componentOf[a], "d"), cfg.aggregateOf[a];
    KeysActive(cfg, a, k, l, events);
    if cfg.componentOf[a] == t { ScanOfTwo(cfg, events, t, k, l); } else { ScanOfOne(cfg, events, t, k); }
  }

  lemma ThirdReport(cfg: Lookup, w: World, a: string) returns (status: StepStatus)
    requires ConsistentLookup(cfg) && Chained(cfg, a) && !ReservedMarkerStep(a)
    requires w.row.events == map[EventKey(a, "c") := Running, EventKey(cfg.componentOf[a], "d") := Completed]
    ensures var write := StrandingWrites(cfg, a)[2]; var t := cfg.aggregateOf[a];
            && Enabled(cfg, w, Write(write))
            && var after := Written(cfg, w, write);
            && after.row.events == map[EventKey(a, "c") := Completed, EventKey(cfg.componentOf[a], "d") := Completed]
            && after.unheard == w.unheard - {t} && after.row.steps == w.row.steps[t := status]
            && after.row.claimedFrom == w.row.claimedFrom
  {
    hide Scans, RollsInto, ReservedMarkerStep, Rollup;
    var write := StrandingWrites(cfg, a)[2];
    var k, l, t := EventKey(a, "c"), EventKey(cfg.componentOf[a], "d"), cfg.aggregateOf[a];
    var events := w.row.events[k := Completed];
    assert events == map[k := Completed, l := Completed] && events.Keys == {k, l};
    KeysActive(cfg, a, k, l, events);
    ThirdScan(cfg, a, events);
    ReportLands(cfg, w, write, t);
    status := Rollup(Statuses(events, write.scan));
  }

  lemma NobodyIsAtWork(cfg: Lookup, w: World, end: World, a: string, t: string)
    requires !InFlight(w.row) && end.unheard == w.unheard - {t, a}
    requires forall s :: s in end.row.steps && s != t && s != a ==> s in w.row.steps && end.row.steps[s] == w.row.steps[s]
    requires forall k :: k in end.row.events ==> end.row.events[k].IsSuccess()
    ensures Quiet(cfg, end)
  {
  }

  /** On every row a push has created, three reports of components strand the claim: every reported state is completed,
      yet the chained step reads running for good, and no release clears the claim. */
  lemma ComponentReportsStrandTheClaim(cfg: Lookup, w: World, a: string) returns (worlds: seq<World>, labels: seq<Label>)
    requires ConsistentLookup(cfg) && Created(cfg, w) && Chained(cfg, a) && a != PUSH_PARSED
    requires !ReservedMarkerStep(a) && !ReservedMarkerStep(cfg.componentOf[a])
    ensures IsInterleaving(cfg, worlds, labels) && worlds[0] == w && |labels| == 3 && forall l :: l in labels ==> l.Write?
    ensures var end := worlds[3];
            && (forall k :: k in end.row.events ==> end.row.events[k] == Completed)
            && a in end.row.steps && end.row.steps[a] == Running && InFlight(end.row)
            && end.row.claimedFrom == w.row.claimedFrom
            && (forall actor, at :: ReleaseRow(end.row, actor, at) == end.row)
            && (!InFlight(w.row) ==> Quiet(cfg, end))
  {
    hide Opened, Written, Quiet, ReservedMarkerStep, ScanMatches, OneName;
    var t := cfg.aggregateOf[a];
    var writes := StrandingWrites(cfg, a);
    FirstReport(cfg, w, a);
    var w1 := Written(cfg, w, writes[0]);
    SecondReport(cfg, w1, a);
    var w2 := Written(cfg, w1, writes[1]);
    var status := ThirdReport(cfg, w2, a);
    var w3 := Written(cfg, w2, writes[2]);
    worlds, labels := [w, w1, w2, w3], [Write(writes[0]), Write(writes[1]), Write(writes[2])];
    assert a != t && w3.row.steps[a] == Running;
    assert InFlight(w3.row);
    assert w3.unheard == w.unheard - {t, a};
    if !InFlight(w.row) {
      NobodyIsAtWork(cfg, w, w3, a, t);
    }
  }

  // ---- exactly the chained configurations fail ----

  /** Runs of reports over a claimed row a push has created. */
  ghost predicate Reached(cfg: Lookup, worlds: seq<World>, labels: seq<Label>) {
    IsInterleaving(cfg, worlds, labels) && Created(cfg, worlds[0]) && worlds[0].row.Claimed() && forall l :: l in labels ==> l.Write?
  }

  function Last(worlds: seq<World>): World
    requires worlds != []
  {
    worlds[|worlds| - 1]
  }

  /** No run leaves a row in flight with nobody at work, nothing owed and nothing stalled. */
  ghost predicate NeverStrands(cfg: Lookup) {
    forall worlds: seq<World>, labels: seq<Label> ::
      Reached(cfg, worlds, labels) && InFlight(Last(worlds).row) ==> !Quiet(cfg, Last(worlds))
  }

  /** No run leaves a row that is not in flight while a job is at work. */
  ghost predicate NeverHides(cfg: Lookup) {
    forall worlds: seq<World>, labels: seq<Label>, k: EventKey ::
      Reached(cfg, worlds, labels) && AtWork(cfg, Last(worlds), k) ==> InFlight(Last(worlds).row)
  }

  lemma UnchainedNeverFails(cfg: Lookup)
    requires ConsistentLookup(cfg) && NotChained(cfg)
    ensures NeverStrands(cfg) && NeverHides(cfg)
  {
    hide InFlight, AtWork, Enabled, Next, Opened, ConsistentLookup, NotChained, Owed, Stalled;
    forall worlds: seq<World>, labels: seq<Label> | Reached(cfg, worlds, labels)
      ensures InFlight(Last(worlds).row) <==> !Quiet(cfg, Last(worlds))
    {
      assert forall m :: 0 <= m < |labels| ==> labels[m] in labels;
      ClaimOutlivesTheWork(cfg, worlds, labels, 0, |labels|);
    }
    forall worlds: seq<World>, labels: seq<Label>, k: EventKey | Reached(cfg, worlds, labels) && AtWork(cfg, Last(worlds), k)
      ensures InFlight(Last(worlds).row)
    {
      WorkIsReported(cfg, Last(worlds), k);
    }
  }

  lemma WorkIsReported(cfg: Lookup, w: World, k: EventKey)
    requires AtWork(cfg, w, k)
    ensures !Quiet(cfg, w)
  {
  }

  /** A row of a run that has not started: every step pending. */
  function Fresh(cfg: Lookup): World {
    World(Row(SlipInProgress, SlipInProgress, map s | s in cfg.steps :: Pending, map[], map[], []), cfg.steps)
  }

  lemma FreshIsCreated(cfg: Lookup)
    ensures Created(cfg, Fresh(cfg)) && !InFlight(Fresh(cfg).row) && Fresh(cfg).row.Claimed()
  {
    forall a ensures Active(cfg, map[], a) == {} {}
  }

  lemma ChainedFails(cfg: Lookup, a: string)
    requires ConsistentLookup(cfg) && Chained(cfg, a) && a != PUSH_PARSED
    requires !ReservedMarkerStep(a) && !ReservedMarkerStep(cfg.componentOf[a])
    ensures !NeverStrands(cfg) && !NeverHides(cfg)
  {
    hide InFlight, Opened, ConsistentLookup, AtWork, Quiet, Enabled, Written, ReservedMarkerStep;
    FreshIsCreated(cfg);
    var w := Fresh(cfg);
    var worlds, labels := ComponentReportsStrandTheClaim(cfg, w, a);
    assert Reached(cfg, worlds, labels) && Last(worlds) == worlds[3];
    var start := ChainedStartIsUnseen(cfg, w, a);
    var hidden := [w, Written(cfg, w, start)];
    assert Reached(cfg, hidden, [Write(start)]) && AtWork(cfg, Last(hidden), start.Key());
  }

  /** Over runs of reports that reach a created row, both ways a claim can fail are open if and only if the
      configuration is chained. */
  lemma FailsExactlyWhenChained(cfg: Lookup)
    requires ConsistentLookup(cfg)
    requires forall a :: a in cfg.componentOf ==>
               a != PUSH_PARSED && !ReservedMarkerStep(a) && !ReservedMarkerStep(cfg.componentOf[a])
    ensures NeverStrands(cfg) <==> NotChained(cfg)
    ensures NeverHides(cfg) <==> NotChained(cfg)
  {
    hide NeverStrands, NeverHides, ReservedMarkerStep, ConsistentLookup;
    if NotChained(cfg) {
      UnchainedNeverFails(cfg);
    } else {
      var a :| a in cfg.componentOf && Chained(cfg, a);
      ChainedFails(cfg, a);
    }
  }
}

/** A claim while the jobs of its run start, report and release in any order
    (slippy/claim.go, slippy/postgres_store_updates.go). */
module PostJobs {
  import opened Status
  import opened Aggregate
  import opened Rows
  import opened ClaimProtocol
  import opened Utf8

  /** An aggregate step whose name is also another aggregate's component type. */
  predicate Chained(cfg: Lookup, a: string) {
    a in cfg.componentOf && a in cfg.aggregateOf && cfg.aggregateOf[a] != a
  }

  predicate NotChained(cfg: Lookup) {
    forall a :: a in cfg.componentOf ==> !Chained(cfg, a)
  }

  ghost predicate DistinctComponents(keys: set<EventKey>) {
    forall k, l :: k in keys && l in keys && k.component == l.component ==> k == l
  }

  // ---- who is at work ----

  /** A row, and the steps no accepted write has been meant for since the row was created or reset: those read what
      the push gave them. */
  datatype World = World(row: Row, unheard: set<string>)

  /** The step a write is meant for. */
  function Addressed(cfg: Lookup, w: StepWrite): Option<string> {
    if w.component == "" then Some(w.step) else Resolve(cfg, w.step)
  }

  function Written(cfg: Lookup, w: World, write: StepWrite): World
    requires ScanMatches(cfg, w.row, write)
  {
    var to := Addressed(cfg, write);
    World(UpdateStep(cfg, w.row, write),
          if StepWriteAllowed(w.row, write) && to.Some? then w.unheard - {to.value} else w.unheard)
  }

  /** A job that has reported a start and no end, where the row can show it: a component of an aggregate step, or a
      step of its own, as long as no component has reported to it. */
  ghost predicate AtWork(cfg: Lookup, w: World, k: EventKey) {
    && k in w.row.events && w.row.events[k].IsRunning()
    && if k.component == "" then
         && k.step in cfg.steps && k.step != PUSH_PARSED && k.step !in w.unheard
         && (k.step in cfg.componentOf ==> Active(cfg, w.row.events, k.step) == {})
       else
         var a := Resolve(cfg, k.step);
         a.Some? && a.value != PUSH_PARSED && a.value !in w.unheard
  }

  /** A step the push started, that nothing has reported to yet. */
  predicate Owed(w: World, s: string) {
    s in w.unheard && s != PUSH_PARSED && s in w.row.steps && w.row.steps[s].IsRunning()
  }

  /** An aggregate step that waits for a component that has reported but neither works nor is done, while another
      has succeeded and none has failed. */
  ghost predicate Stalled(cfg: Lookup, w: World, a: string) {
    && a in cfg.componentOf && a != PUSH_PARSED && a !in w.unheard
    && var events := w.row.events; var keys := Active(cfg, events, a);
    && (forall k :: k in keys ==> !events[k].IsFailure() && !events[k].IsRunning())
    && (exists k :: k in keys && events[k].IsSuccess())
    && (exists k :: k in keys && !events[k].IsSuccess())
  }

  ghost predicate Quiet(cfg: Lookup, w: World) {
    && (forall k :: k in w.row.events ==> !AtWork(cfg, w, k))
    && (forall s :: s in w.row.steps ==> !Owed(w, s))
    && (forall a :: a in cfg.componentOf ==> !Stalled(cfg, w, a))
  }

  // ---- what a row tells about them ----

  ghost predicate RollsRunning(events: map<EventKey, StepStatus>, keys: set<EventKey>)
    requires keys <= events.Keys
  {
    && (forall k :: k in keys ==> !events[k].IsFailure())
    && (exists k :: k in keys && (events[k].IsRunning() || events[k].IsSuccess()))
    && (exists k :: k in keys && !events[k].IsSuccess())
  }

  ghost predicate ReadsRunning(cfg: Lookup, events: map<EventKey, StepStatus>, s: string) {
    if s in cfg.componentOf && Active(cfg, events, s) != {} then RollsRunning(events, Active(cfg, events, s))
    else EventKey(s, "") in events && events[EventKey(s, "")].IsRunning()
  }

  ghost predicate StepTells(cfg: Lookup, row: Row, s: string) {
    (s in row.steps && row.steps[s].IsRunning()) <==> ReadsRunning(cfg, row.events, s)
  }

  ghost predicate NoneRuns(items: seq<Component>) {
    forall c :: c in items ==> !c.status.IsRunning()
  }

  ghost predicate ItemsTell(cfg: Lookup, row: Row, a: string) {
    && (forall c :: c in Items(row, a) && c.status.IsRunning() ==>
          exists k :: k in Active(cfg, row.events, a) && k.component == c.name && row.events[k] == c.status)
    && (forall k :: k in Active(cfg, row.events, a) && row.events[k].IsRunning() ==>
          Component(k.component, row.events[k]) in Items(row, a))
  }

  /** A rollup writes the last of the items of one name, so an earlier one must not read running. */
  ghost predicate OnlyLastRuns(items: seq<Component>) {
    forall i, j :: 0 <= i < j < |items| && items[i].name == items[j].name ==> !items[i].status.IsRunning()
  }

  ghost predicate AggregateTells(cfg: Lookup, w: World, a: string) {
    && DistinctComponents(Active(cfg, w.row.events, a))
    && OnlyLastRuns(Items(w.row, a))
    && if a in w.unheard then NoneRuns(Items(w.row, a)) else ItemsTell(cfg, w.row, a)
  }

  /** Steps and items read running exactly as the reported states say, wherever anything was reported. */
  ghost predicate Tells(cfg: Lookup, w: World) {
    && w.row.steps.Keys <= cfg.steps && w.row.aggregates.Keys <= cfg.componentOf.Keys
    && (forall s :: s in cfg.steps && s != PUSH_PARSED && s !in w.unheard ==> StepTells(cfg, w.row, s))
    && (forall a :: a in cfg.componentOf && a != PUSH_PARSED ==> AggregateTells(cfg, w, a))
  }

  lemma RollsIntoItsTarget(cfg: Lookup, a: string, k: EventKey)
    requires ConsistentLookup(cfg) && NotChained(cfg) && a in cfg.componentOf
    requires k.component != ""
    ensures RollsInto(cfg, a, k) <==> Resolve(cfg, k.step) == Some(a)
  {
    assert !Chained(cfg, a);
  }

  lemma AtWorkIsInFlight(cfg: Lookup, w: World, k: EventKey)
    requires ConsistentLookup(cfg) && NotChained(cfg) && Tells(cfg, w) && AtWork(cfg, w, k)
    ensures InFlight(w.row)
  {
    if k.component == "" {
      assert StepTells(cfg, w.row, k.step);
    } else {
      var a := Resolve(cfg, k.step).value;
      RollsIntoItsTarget(cfg, a, k);
      assert AggregateTells(cfg, w, a) && k in Active(cfg, w.row.events, a);
      var i :| 0 <= i < |Items(w.row, a)| && Items(w.row, a)[i] == Component(k.component, w.row.events[k]);
      assert ComponentInFlight(w.row.aggregates[a]);
    }
  }

  lemma StalledIsInFlight(cfg: Lookup, w: World, a: string)
    requires ConsistentLookup(cfg) && Tells(cfg, w) && Stalled(cfg, w, a)
    ensures InFlight(w.row)
  {
    assert StepTells(cfg, w.row, a);
  }

  lemma RunningStepIsSomeonesWork(cfg: Lookup, w: World, s: string)
    requires ConsistentLookup(cfg) && NotChained(cfg) && Tells(cfg, w)
    requires s in w.row.steps && s != PUSH_PARSED && w.row.steps[s].IsRunning()
    ensures !Quiet(cfg, w)
  {
    var events := w.row.events;
    if s in w.unheard {
      assert Owed(w, s);
    } else {
      assert StepTells(cfg, w.row, s);
      if s in cfg.componentOf && Active(cfg, events, s) != {} {
        if k :| k in Active(cfg, events, s) && events[k].IsRunning() {
          RollsIntoItsTarget(cfg, s, k);
          assert AtWork(cfg, w, k);
        } else {
          assert Stalled(cfg, w, s);
        }
      } else {
        assert AtWork(cfg, w, EventKey(s, ""));
      }
    }
  }

  lemma RunningItemIsSomeonesWork(cfg: Lookup, w: World, a: string)
    requires ConsistentLookup(cfg) && NotChained(cfg) && Tells(cfg, w)
    requires a in w.row.aggregates && a != PUSH_PARSED && ComponentInFlight(w.row.aggregates[a])
    ensures !Quiet(cfg, w)
  {
    var i :| 0 <= i < |Items(w.row, a)| && Items(w.row, a)[i].status.IsRunning();
    assert AggregateTells(cfg, w, a) && Items(w.row, a)[i] in Items(w.row, a);
    var k :| k in Active(cfg, w.row.events, a) && w.row.events[k] == Items(w.row, a)[i].status;
    RollsIntoItsTarget(cfg, a, k);
    assert AtWork(cfg, w, k);
  }

  /** Such a row is in flight if and only if a job is at work, a started step is still owed its first report, or an
      aggregate step is stalled. */
  lemma InFlightExactlyUnlessQuiet(cfg: Lookup, w: World)
    requires ConsistentLookup(cfg) && NotChained(cfg) && Tells(cfg, w)
    ensures InFlight(w.row) <==> !Quiet(cfg, w)
  {
    hide Tells, AtWork, Stalled, ConsistentLookup, NotChained;
    if k :| k in w.row.events && AtWork(cfg, w, k) {
      AtWorkIsInFlight(cfg, w, k);
    }
    if a :| a in cfg.componentOf && Stalled(cfg, w, a) {
      StalledIsInFlight(cfg, w, a);
    }
    if s :| s in w.row.steps && s != PUSH_PARSED && w.row.steps[s].IsRunning() {
      RunningStepIsSomeonesWork(cfg, w, s);
    }
    if a :| a in w.row.aggregates && a != PUSH_PARSED && ComponentInFlight(w.row.aggregates[a]) {
      RunningItemIsSomeonesWork(cfg, w, a);
    }
  }

  // ---- what a rollup does to the items ----

  lemma MergeOne(items: seq<Component>, c: Component)
    requires OnlyLastRuns(items)
    ensures OnlyLastRuns(Merge(items, c)) && c in Merge(items, c)
    ensures forall x :: x in Merge(items, c) && x.status.IsRunning() ==> x == c || (x in items && x.name != c.name)
    ensures forall x :: x in items && x.name != c.name ==> x in Merge(items, c)
  {
    var i := LastIndex(items, c.name);
    var m := Merge(items, c);
    if i >= 0 {
      assert m[i] == c;
      forall x | x in items && x.name != c.name ensures x in m {
        var j :| 0 <= j < |items| && items[j] == x;
        assert m[j] == x;
      }
    } else {
      assert m[|items|] == c;
      forall x | x in items ensures x in m && x.name != c.name {
        var j :| 0 <= j < |items| && items[j] == x;
        assert m[j] == x;
      }
    }
  }

  /** Whatever the order of the scan, what runs after the merge is what the scan says runs, and what ran before and
      is of another name. */
  lemma {:induction false} MergeAllRuns(items: seq<Component>, events: map<EventKey, StepStatus>, scan: seq<EventKey>)
    requires OnlyLastRuns(items)
    requires forall k :: k in scan ==> k in events
    requires forall i, j :: 0 <= i < j < |scan| ==> scan[i].component != scan[j].component
    ensures var m := MergeAll(items, events, scan);
            && OnlyLastRuns(m)
            && (forall k :: k in scan ==> Component(k.component, events[k]) in m)
            && (forall x :: x in m && x.status.IsRunning() ==>
                  || (exists k :: k in scan && x == Component(k.component, events[k]))
                  || (x in items && forall k :: k in scan ==> k.component != x.name))
  {
    if scan != [] {
      hide Merge, OnlyLastRuns;
      var n := |scan| - 1;
      var before := scan[..n];
      assert scan == before + [scan[n]];
      MergeAllRuns(items, events, before);
      var m := MergeAll(items, events, before);
      var c := Component(scan[n].component, events[scan[n]]);
      MergeOne(m, c);
      forall k | k in before ensures k.component != c.name {
        var i :| 0 <= i < |before| && before[i] == k;
        assert scan[i] == k;
      }
      forall x | x in Merge(m, c) && x.status.IsRunning()
        ensures || (exists k :: k in scan && x == Component(k.component, events[k]))
                || (x in items && forall k :: k in scan ==> k.component != x.name)
      {
        if x == c {
          assert scan[n] in scan;
        } else if k :| k in before && x == Component(k.component, events[k]) {
          assert k in scan;
        } else {
          assert x in items && forall k :: k in before ==> k.component != x.name;
        }
      }
    }
  }

  lemma RollupRuns(events: map<EventKey, StepStatus>, scan: seq<EventKey>, keys: set<EventKey>)
    requires keys <= events.Keys && forall k :: k in scan <==> k in keys
    ensures Rollup(Statuses(events, scan)).IsRunning() <==> RollsRunning(events, keys)
  {
    var ss := Statuses(events, scan);
    forall k | k in keys ensures exists i :: 0 <= i < |ss| && ss[i] == events[k] {
      var i :| 0 <= i < |scan| && scan[i] == k;
      assert ss[i] == events[k];
    }
    forall i | 0 <= i < |ss| ensures scan[i] in keys {
      assert scan[i] in scan;
    }
  }

  // ---- one step write ----

  lemma OtherAggregatesUntouched(cfg: Lookup, row: Row, k: EventKey, status: StepStatus, a: string)
    requires ConsistentLookup(cfg) && NotChained(cfg) && a in cfg.componentOf
    requires k.component == "" || Resolve(cfg, k.step) != Some(a)
    ensures Active(cfg, row.events[k := status], a) == Active(cfg, row.events, a)
    ensures k !in Active(cfg, row.events, a)
  {
    if k.component != "" { RollsIntoItsTarget(cfg, a, k); }
    var e := row.events[k := status];
    forall l | l in Active(cfg, e, a) ensures l in Active(cfg, row.events, a) {}
    forall l | l in Active(cfg, row.events, a) ensures l in Active(cfg, e, a) {}
  }

  lemma EmptyScan(cfg: Lookup, events: map<EventKey, StepStatus>, agg: string, scan: seq<EventKey>)
    requires Scans(cfg, events, agg, scan)
    ensures Active(cfg, events, agg) == {} <==> scan == []
  {
    if scan != [] {
      assert scan[0] in scan;
    }
  }

  /** No component reports under both the aggregate step's own name and its component type. */
  ghost predicate OneName(cfg: Lookup, row: Row, w: StepWrite) {
    w.component != "" ==>
      match Resolve(cfg, w.step)
      case None => true
      case Some(a) => forall l :: l in Active(cfg, row.events, a) && l.component == w.component ==> l == w.Key()
  }

  ghost predicate Reports(cfg: Lookup, w: World, write: StepWrite) {
    && ConsistentLookup(cfg) && NotChained(cfg) && Tells(cfg, w)
    && ScanMatches(cfg, w.row, write) && OneName(cfg, w.row, write) && StepWriteAllowed(w.row, write)
  }

  /** Whether the write rolls up step a, rather than writing a column or nothing. */
  predicate Recomputes(cfg: Lookup, w: StepWrite, a: string) {
    RollupTarget(cfg, w.step, w.component) == Some(a) && w.scan != []
  }

  /** Where a write lands: a rollup of what has been reported, or the step's own column. */
  lemma WriteLands(cfg: Lookup, w: World, write: StepWrite)
    requires Reports(cfg, w, write)
    ensures var k := write.Key();
            var recorded := w.row.(events := w.row.events[k := write.status]);
            var target := RollupTarget(cfg, write.step, write.component);
            && (target.Some? ==>
                  && target.value in cfg.componentOf && Addressed(cfg, write) == target
                  && (write.component != "" ==> write.scan != [] && RollsInto(cfg, target.value, k)))
            && UpdateStep(cfg, w.row, write) ==
               Log(if target.Some? && write.scan != [] then Recompute(recorded, target.value, write.scan)
                   else if write.component == "" then WriteColumn(cfg, recorded, write.step, write.status)
                   else recorded,
                   write.entry)
  {
    var k := write.Key();
    var target := RollupTarget(cfg, write.step, write.component);
    if write.component != "" && target.Some? {
      RollsIntoItsTarget(cfg, target.value, k);
      assert k in Active(cfg, w.row.events[k := write.status], target.value);
      assert k in write.scan;
    } else if target.Some? {
      assert !Chained(cfg, write.step);
    }
  }

  lemma NewKeysStayDistinct(cfg: Lookup, row: Row, w: StepWrite, a: string)
    requires ConsistentLookup(cfg) && NotChained(cfg) && OneName(cfg, row, w)
    requires a in cfg.componentOf && DistinctComponents(Active(cfg, row.events, a))
    ensures DistinctComponents(Active(cfg, row.events[w.Key() := w.status], a))
  {
    var k := w.Key();
    if w.component == "" || Resolve(cfg, w.step) != Some(a) {
      OtherAggregatesUntouched(cfg, row, k, w.status, a);
    } else {
      assert Active(cfg, row.events[k := w.status], a) <= Active(cfg, row.events, a) + {k};
    }
  }

  lemma RolledUpItems(cfg: Lookup, w: World, write: StepWrite, a: string)
    requires Reports(cfg, w, write) && Recomputes(cfg, write, a) && a in cfg.componentOf && a != PUSH_PARSED
    ensures AggregateTells(cfg, Written(cfg, w, write), a)
  {
    hide ScanMatches, StepTells;
    var k := write.Key();
    var events := w.row.events[k := write.status];
    WriteLands(cfg, w, write);
    assert AggregateTells(cfg, w, a);
    NewKeysStayDistinct(cfg, w.row, write, a);
    ScanIsActive(cfg, w.row, write, a);
    var scan := write.scan;
    forall i, j | 0 <= i < j < |scan| ensures scan[i].component != scan[j].component {
      assert scan[i] in scan && scan[j] in scan;
    }
    MergeAllRuns(Items(w.row, a), events, scan);
    var after := Written(cfg, w, write);
    assert Items(after.row, a) == MergeAll(Items(w.row, a), events, scan);
    forall c | c in Items(w.row, a) && c.status.IsRunning() ensures exists l :: l in scan && l.component == c.name {
      var l :| l in Active(cfg, w.row.events, a) && l.component == c.name;
      assert l in Active(cfg, events, a);
    }
  }

  lemma ScanIsActive(cfg: Lookup, row: Row, w: StepWrite, a: string)
    requires ScanMatches(cfg, row, w) && RollupTarget(cfg, w.step, w.component) == Some(a)
    ensures var events := row.events[w.Key() := w.status];
            Scans(cfg, events, a, w.scan) && Active(cfg, events, a) <= events.Keys
            && forall k :: k in w.scan <==> k in Active(cfg, events, a)
  {
  }

  lemma RolledUpStep(cfg: Lookup, w: World, write: StepWrite, a: string)
    requires Reports(cfg, w, write) && Recomputes(cfg, write, a)
    ensures StepTells(cfg, Written(cfg, w, write).row, a)
  {
    hide ScanMatches, AggregateTells;
    var events := w.row.events[write.Key() := write.status];
    WriteLands(cfg, w, write);
    ScanIsActive(cfg, w.row, write, a);
    EmptyScan(cfg, events, a, write.scan);
    RollupRuns(events, write.scan, Active(cfg, events, a));
  }

  lemma SameAggregateTells(cfg: Lookup, w: World, after: World, a: string)
    requires AggregateTells(cfg, w, a) && Items(after.row, a) == Items(w.row, a)
    requires Active(cfg, after.row.events, a) == Active(cfg, w.row.events, a)
    requires forall l :: l in Active(cfg, w.row.events, a) ==> after.row.events[l] == w.row.events[l]
    requires a in after.unheard <==> a in w.unheard
    ensures AggregateTells(cfg, after, a)
  {
  }

  lemma WriteKeepsAggregates(cfg: Lookup, w: World, write: StepWrite, a: string)
    requires Reports(cfg, w, write) && a in cfg.componentOf && a != PUSH_PARSED
    ensures AggregateTells(cfg, Written(cfg, w, write), a)
  {
    hide ScanMatches, StepTells, OneName, AggregateTells;
    var k := write.Key();
    var after := Written(cfg, w, write);
    WriteLands(cfg, w, write);
    assert AggregateTells(cfg, w, a);
    if Recomputes(cfg, write, a) {
      RolledUpItems(cfg, w, write, a);
    } else {
      OtherAggregatesUntouched(cfg, w.row, k, write.status, a);
      if Addressed(cfg, write) == Some(a) {
        ScanIsActive(cfg, w.row, write, a);
        EmptyScan(cfg, w.row.events[k := write.status], a, write.scan);
        UnreportedAggregateTells(cfg, w, after, a);
      } else {
        SameAggregateTells(cfg, w, after, a);
      }
    }
  }

  lemma UnreportedAggregateTells(cfg: Lookup, w: World, after: World, a: string)
    requires AggregateTells(cfg, w, a) && Items(after.row, a) == Items(w.row, a)
    requires Active(cfg, w.row.events, a) == {} && Active(cfg, after.row.events, a) == {}
    ensures AggregateTells(cfg, after, a)
  {
  }

  lemma SameStepTells(cfg: Lookup, row: Row, row': Row, s: string)
    requires StepTells(cfg, row, s)
    requires s in row.steps <==> s in row'.steps
    requires s in row.steps ==> row'.steps[s] == row.steps[s]
    requires s in cfg.componentOf ==>
               && Active(cfg, row'.events, s) == Active(cfg, row.events, s)
               && forall l :: l in Active(cfg, row.events, s) ==> row'.events[l] == row.events[l]
    requires EventKey(s, "") in row.events <==> EventKey(s, "") in row'.events
    requires EventKey(s, "") in row.events ==> row'.events[EventKey(s, "")] == row.events[EventKey(s, "")]
    ensures StepTells(cfg, row', s)
  {
  }

  lemma WrittenStepTells(cfg: Lookup, row: Row, s: string)
    requires EventKey(s, "") in row.events && s in row.steps && row.steps[s] == row.events[EventKey(s, "")]
    requires s in cfg.componentOf ==> Active(cfg, row.events, s) == {}
    ensures StepTells(cfg, row, s)
  {
  }

  lemma WriteKeepsSteps(cfg: Lookup, w: World, write: StepWrite, s: string)
    requires Reports(cfg, w, write)
    requires s in cfg.steps && s != PUSH_PARSED && s !in Written(cfg, w, write).unheard
    ensures StepTells(cfg, Written(cfg, w, write).row, s)
  {
    hide ScanMatches, StepTells, OneName, AggregateTells;
    var k := write.Key();
    var after := Written(cfg, w, write);
    WriteLands(cfg, w, write);
    assert after.row.events == w.row.events[k := write.status];
    if Recomputes(cfg, write, s) {
      RolledUpStep(cfg, w, write, s);
    } else {
      if s in cfg.componentOf {
        OtherAggregatesUntouched(cfg, w.row, k, write.status, s);
      }
      if write.component == "" && write.step == s {
        if s in cfg.componentOf {
          assert RollupTarget(cfg, s, "") == Some(s) by { assert !Chained(cfg, s); }
          ScanIsActive(cfg, w.row, write, s);
          EmptyScan(cfg, after.row.events, s, write.scan);
        }
        WrittenStepTells(cfg, after.row, s);
      } else {
        SameStepTells(cfg, w.row, after.row, s);
      }
    }
  }

  /** Every step write keeps the row telling, whatever it reports and whether or not the store accepts it. */
  lemma WriteKeepsTelling(cfg: Lookup, w: World, write: StepWrite)
    requires ConsistentLookup(cfg) && NotChained(cfg) && Tells(cfg, w)
    requires ScanMatches(cfg, w.row, write) && OneName(cfg, w.row, write)
    ensures Tells(cfg, Written(cfg, w, write))
  {
    hide ScanMatches, StepTells, OneName, AggregateTells, StepWriteAllowed;
    var after := Written(cfg, w, write);
    if StepWriteAllowed(w.row, write) {
      forall s | s in cfg.steps && s != PUSH_PARSED && s !in after.unheard ensures StepTells(cfg, after.row, s) {
        WriteKeepsSteps(cfg, w, write, s);
      }
      forall a | a in cfg.componentOf && a != PUSH_PARSED ensures AggregateTells(cfg, after, a) {
        WriteKeepsAggregates(cfg, w, write, a);
      }
      WriteLands(cfg, w, write);
    } else {
      assert after == w;
    }
  }

  // ---- the run ----

  datatype Label =
    | Write(write: StepWrite)
    | Claim(expected: seq<Status.SlipStatus>, actor: Bytes, at: int)
    | Leave(job: EventKey, actor: Bytes, at: int)  // a release, whoever makes it
    | SlipStatus(status: Status.SlipStatus, at: int)
    | Note(entry: Entry)

  ghost predicate Enabled(cfg: Lookup, w: World, l: Label) {
    l.Write? ==> ScanMatches(cfg, w.row, l.write) && OneName(cfg, w.row, l.write)
  }

  function Next(cfg: Lookup, w: World, l: Label): World
    requires l.Write? ==> ScanMatches(cfg, w.row, l.write)
  {
    match l
    case Write(write) => Written(cfg, w, write)
    case Claim(expected, actor, at) => w.(row := ClaimRow(w.row, expected, actor, at))
    case Leave(_, actor, at) => w.(row := ReleaseRow(w.row, actor, at))
    case SlipStatus(status, at) => w.(row := SetStatusRow(w.row, status, at))
    case Note(entry) => w.(row := AppendHistory(w.row, entry))
  }

  ghost predicate IsInterleaving(cfg: Lookup, worlds: seq<World>, labels: seq<Label>) {
    && |worlds| == |labels| + 1
    && forall i :: 0 <= i < |labels| ==> Enabled(cfg, worlds[i], labels[i]) && worlds[i + 1] == Next(cfg, worlds[i], labels[i])
  }

  /** A row as a push creates it, or resets it over states reported before: any step may read running already, no
      component does. */
  ghost predicate Opened(cfg: Lookup, w: World) {
    && w.unheard == cfg.steps
    && w.row.steps.Keys <= cfg.steps && w.row.aggregates.Keys <= cfg.componentOf.Keys
    && (forall a :: a in w.row.aggregates ==> NoneRuns(w.row.aggregates[a]))
    && (forall a :: a in cfg.componentOf ==> DistinctComponents(Active(cfg, w.row.events, a)))
  }

  lemma OpenedTells(cfg: Lookup, w: World)
    requires ConsistentLookup(cfg) && Opened(cfg, w)
    ensures Tells(cfg, w)
  {
    forall a | a in cfg.componentOf ensures AggregateTells(cfg, w, a) {
      assert forall i :: 0 <= i < |Items(w.row, a)| ==> Items(w.row, a)[i] in Items(w.row, a);
    }
  }

  lemma NextKeepsTelling(cfg: Lookup, w: World, l: Label)
    requires ConsistentLookup(cfg) && NotChained(cfg) && Tells(cfg, w) && Enabled(cfg, w, l)
    ensures Tells(cfg, Next(cfg, w, l))
  {
    if l.Write? {
      WriteKeepsTelling(cfg, w, l.write);
    } else {
      var after := Next(cfg, w, l);
      forall s | s in cfg.steps && StepTells(cfg, w.row, s) ensures StepTells(cfg, after.row, s) {}
      forall a | a in cfg.componentOf && AggregateTells(cfg, w, a) ensures AggregateTells(cfg, after, a) {
        SameAggregateTells(cfg, w, after, a);
      }
    }
  }

  lemma {:induction false} RunTells(cfg: Lookup, worlds: seq<World>, labels: seq<Label>, n: nat)
    requires ConsistentLookup(cfg) && NotChained(cfg) && IsInterleaving(cfg, worlds, labels) && n < |worlds| && Opened(cfg, worlds[0])
    ensures Tells(cfg, worlds[n])
  {
    hide Tells, Enabled, Next, Opened;
    if n == 0 {
      OpenedTells(cfg, worlds[0]);
    } else {
      RunTells(cfg, worlds, labels, n - 1);
      NextKeepsTelling(cfg, worlds[n - 1], labels[n - 1]);
    }
  }

  /** What clears a claim: a terminal status, or a release while nothing is at work, owed or stalled. */
  ghost predicate Clears(cfg: Lookup, w: World, l: Label) {
    || (l.SlipStatus? && l.status in {SlipCompleted, SlipCompensated, SlipAbandoned, SlipPromoted})
    || (l.Leave? && Quiet(cfg, w))
  }

  /** How many steps of the run, from state i to state n, turned a claimed row into an unclaimed one. */
  function Cleared(worlds: seq<World>, i: nat, n: nat): nat
    requires i <= n < |worlds|
    decreases n
  {
    if n == i then 0
    else Cleared(worlds, i, n - 1) + if worlds[n - 1].row.Claimed() && !worlds[n].row.Claimed() then 1 else 0
  }

  lemma StepClears(cfg: Lookup, w: World, l: Label)
    requires ConsistentLookup(cfg) && NotChained(cfg) && Tells(cfg, w) && Enabled(cfg, w, l)
    ensures w.row.Claimed() ==> (Next(cfg, w, l).row.Claimed() <==> !Clears(cfg, w, l))
    ensures !w.row.Claimed() && !l.Claim? ==> !Next(cfg, w, l).row.Claimed()
  {
    hide Tells, Quiet, InFlight, UpdateStep;
    if l.Write? {
      UpdateStepFrame(cfg, w.row, l.write);
    } else {
      InFlightExactlyUnlessQuiet(cfg, w);
    }
  }

  /** In every state of every interleaving over a row a push has opened, the run reads in flight exactly while a job is
      at work, a started step is owed its first report or an aggregate is stalled. A claim taken at any point is held
      exactly until a terminal status, or a release at a moment when none of this is so, and is then cleared once. */
  lemma {:induction false} ClaimOutlivesTheWork(cfg: Lookup, worlds: seq<World>, labels: seq<Label>, i: nat, n: nat)
    requires ConsistentLookup(cfg) && NotChained(cfg) && IsInterleaving(cfg, worlds, labels) && Opened(cfg, worlds[0])
    requires i <= n < |worlds| && worlds[i].row.Claimed() && forall m :: i <= m < n ==> !labels[m].Claim?
    ensures InFlight(worlds[n].row) <==> !Quiet(cfg, worlds[n])
    ensures worlds[n].row.Claimed() <==> forall m :: i <= m < n ==> !Clears(cfg, worlds[m], labels[m])
    ensures Cleared(worlds, i, n) == if worlds[n].row.Claimed() then 0 else 1
    decreases n
  {
    hide InFlight, Enabled, Next, Quiet, Opened, Clears, ConsistentLookup, NotChained, Tells;
    RunTells(cfg, worlds, labels, n);
    InFlightExactlyUnlessQuiet(cfg, worlds[n]);
    if n > i {
      ClaimOutlivesTheWork(cfg, worlds, labels, i, n - 1);
      RunTells(cfg, worlds, labels, n - 1);
      StepClears(cfg, worlds[n - 1], labels[n - 1]);
    }
  }

  ghost predicate Unfinished(w: World, k: EventKey) {
    k in w.row.events && w.row.events[k].IsRunning()
  }

  lemma StillAtWork(cfg: Lookup, w: World, l: Label, k: EventKey)
    requires Enabled(cfg, w, l) && AtWork(cfg, w, k) && Unfinished(Next(cfg, w, l), k)
    requires k.component != "" || k.step !in cfg.componentOf
    ensures AtWork(cfg, Next(cfg, w, l), k)
  {
  }

  /** A job that starts under the claim is covered by it until it reports its end, unless a terminal status is written:
      no release in between, by whomever, clears it. */
  lemma {:induction false} CoveredUntilItEnds(cfg: Lookup, worlds: seq<World>, labels: seq<Label>, k: EventKey, i: nat, n: nat)
    requires ConsistentLookup(cfg) && NotChained(cfg) && IsInterleaving(cfg, worlds, labels) && Opened(cfg, worlds[0])
    requires i <= n < |worlds| && worlds[i].row.Claimed() && AtWork(cfg, worlds[i], k)
    requires k.component != "" || k.step !in cfg.componentOf
    requires forall m :: i <= m <= n ==> Unfinished(worlds[m], k)
    requires forall m :: i <= m < n ==> !(labels[m].SlipStatus? && labels[m].status in {SlipCompleted, SlipCompensated, SlipAbandoned, SlipPromoted})
    ensures worlds[n].row.Claimed() && AtWork(cfg, worlds[n], k)
  {
    hide Next, Opened, AtWork, ConsistentLookup, NotChained, Tells;
    if i < n {
      CoveredUntilItEnds(cfg, worlds, labels, k, i, n - 1);
      RunTells(cfg, worlds, labels, n - 1);
      assert worlds[n] == Next(cfg, worlds[n - 1], labels[n - 1]) && Unfinished(worlds[n], k);
      StillAtWork(cfg, worlds[n - 1], labels[n - 1], k);
      assert !Quiet(cfg, worlds[n - 1]);
      StepClears(cfg, worlds[n - 1], labels[n - 1]);
    }
  }

  /** Once every job has reported its end and released, with no first report owed and no aggregate stalled at the last
      release, the claim taken at i is clear, and was cleared exactly once. */
  lemma ClearOnceEveryJobHasLeft(cfg: Lookup, worlds: seq<World>, labels: seq<Label>, jobs: set<EventKey>, i: nat, last: nat,
                                 n: nat)
    requires ConsistentLookup(cfg) && NotChained(cfg) && IsInterleaving(cfg, worlds, labels) && Opened(cfg, worlds[0])
    requires i <= last < n < |worlds| && worlds[i].row.Claimed() && forall m :: i <= m < n ==> !labels[m].Claim?
    requires labels[last].Leave? && forall m :: last < m < n ==> !labels[m].Leave?
    requires forall k :: AtWork(cfg, worlds[last], k) ==> k in jobs
    requires forall k :: k in jobs ==> exists m :: i <= m < n && LeavesForGood(worlds, labels, k, m, n)
    requires forall s :: !Owed(worlds[last], s) && !Stalled(cfg, worlds[last], s)
    ensures !worlds[n].row.Claimed() && Cleared(worlds, i, n) == 1
  {
    hide InFlight, Enabled, Next, Opened, Stalled, ConsistentLookup, NotChained;
    forall k | k in worlds[last].row.events ensures !AtWork(cfg, worlds[last], k) {
      if k in jobs {
        var m :| i <= m < n && LeavesForGood(worlds, labels, k, m, n);
        assert !Unfinished(worlds[last], k);
      }
    }
    assert Quiet(cfg, worlds[last]);
    assert Clears(cfg, worlds[last], labels[last]);
    ClaimOutlivesTheWork(cfg, worlds, labels, i, n);
  }

  /** The job releases at step m, its end reported, and does no more up to state n. */
  ghost predicate LeavesForGood(worlds: seq<World>, labels: seq<Label>, job: EventKey, m: nat, n: nat)
    requires m < n < |worlds| == |labels| + 1
  {
    labels[m].Leave? && labels[m].job == job && forall k :: m <= k <= n ==> !Unfinished(worlds[k], job)
  }

  // ---- writes the row does not show ----

  /** A step of its own that components report to: starting it again changes nothing the claim can see, so the next
      release of an otherwise quiet run clears the claim while that job works. */
  lemma RestartIsUnseen(cfg: Lookup, w: World, write: StepWrite, actor: Bytes, at: int)
    requires Reports(cfg, w, write) && write.component == "" && write.status.IsRunning()
    requires write.step in cfg.componentOf && write.step !in w.unheard && Active(cfg, w.row.events, write.step) != {}
    ensures var after := Written(cfg, w, write);
            && Unfinished(after, write.Key())
            && (InFlight(after.row) <==> InFlight(w.row))
            && (Quiet(cfg, w) ==> !ReleaseRow(after.row, actor, at).Claimed())
  {
    hide InFlight, ScanMatches, Tells, ConsistentLookup, NotChained;
    var after := Written(cfg, w, write);
    var k := write.Key();
    WriteKeepsTelling(cfg, w, write);
    InFlightExactlyUnlessQuiet(cfg, w);
    InFlightExactlyUnlessQuiet(cfg, after);
    RestartStaysQuiet(cfg, w, write);
  }

  lemma RestartStaysQuiet(cfg: Lookup, w: World, write: StepWrite)
    requires Reports(cfg, w, write) && write.component == ""
    requires write.step in cfg.componentOf && write.step !in w.unheard && Active(cfg, w.row.events, write.step) != {}
    ensures Quiet(cfg, Written(cfg, w, write)) <==> Quiet(cfg, w)
  {
    hide InFlight, ScanMatches, Tells;
    var after := Written(cfg, w, write);
    var k := write.Key();
    WriteLands(cfg, w, write);
    assert after.unheard == w.unheard && after.row.events == w.row.events[k := write.status];
    forall a | a in cfg.componentOf ensures Active(cfg, after.row.events, a) == Active(cfg, w.row.events, a) {
      OtherAggregatesUntouched(cfg, w.row, k, write.status, a);
    }
    forall l ensures AtWork(cfg, after, l) <==> AtWork(cfg, w, l) {}
    forall a | a in cfg.componentOf ensures Stalled(cfg, after, a) <==> Stalled(cfg, w, a) {
      assert forall l :: l in Active(cfg, w.row.events, a) ==> after.row.events[l] == w.row.events[l];
    }
    forall s ensures Owed(after, s) <==> Owed(w, s) {
      assert s != write.step ==> (s in after.row.steps <==> s in w.row.steps);
    }
  }

  /** What putting a component of a quiet run back to pending leaves alone. */
  lemma ResetLeavesTheRest(cfg: Lookup, w: World, write: StepWrite, a: string)
    requires Reports(cfg, w, write) && write.component != "" && write.status.Pending? && Quiet(cfg, w)
    requires Resolve(cfg, write.step) == Some(a) && a != PUSH_PARSED && a !in w.unheard
    ensures var after := Written(cfg, w, write); var k := write.Key();
            && after.unheard == w.unheard && after.row.events == w.row.events[k := Pending]
            && Active(cfg, after.row.events, a) == Active(cfg, w.row.events, a) + {k}
            && (forall l :: l in Active(cfg, w.row.events, a) && l != k ==> !w.row.events[l].IsRunning())
            && (forall l :: !AtWork(cfg, after, l))
            && (forall s :: s in after.row.steps ==> !Owed(after, s))
            && (forall b :: b in cfg.componentOf && b != a ==> !Stalled(cfg, after, b))
  {
    hide InFlight, ScanMatches, Tells;
    var after := Written(cfg, w, write);
    var k := write.Key();
    WriteLands(cfg, w, write);
    RollsIntoItsTarget(cfg, a, k);
    assert Active(cfg, after.row.events, a) == Active(cfg, w.row.events, a) + {k};
    forall b | b in cfg.componentOf && b != a ensures !Stalled(cfg, after, b) {
      OtherAggregatesUntouched(cfg, w.row, k, Pending, b);
      assert forall l :: l in Active(cfg, w.row.events, b) ==> after.row.events[l] == w.row.events[l];
    }
    forall l ensures !AtWork(cfg, after, l) {
      if l in w.row.events { assert !AtWork(cfg, w, l); }
    }
    forall l | l in Active(cfg, w.row.events, a) && l != k ensures !w.row.events[l].IsRunning() {
      RollsIntoItsTarget(cfg, a, l);
      assert !AtWork(cfg, w, l);
    }
    forall s | s in after.row.steps ensures !Owed(after, s) {
      if s != a { assert s in w.row.steps && !Owed(w, s); }
    }
  }

  /** Putting a component back to pending in a quiet run puts the run in flight again, with nobody at work, exactly
      when another component of its aggregate has succeeded and none has failed. */
  lemma ResetComponentStallsExactlyWhen(cfg: Lookup, w: World, write: StepWrite, a: string)
    requires Reports(cfg, w, write) && write.component != "" && write.status.Pending? && Quiet(cfg, w)
    requires Resolve(cfg, write.step) == Some(a) && a != PUSH_PARSED && a !in w.unheard
    ensures var after := Written(cfg, w, write); var others := Active(cfg, w.row.events, a) - {write.Key()};
            && (forall k :: !AtWork(cfg, after, k))
            && (InFlight(after.row) <==>
                (exists l :: l in others && w.row.events[l].IsSuccess()) && (forall l :: l in others ==> !w.row.events[l].IsFailure()))
  {
    hide InFlight, ScanMatches, Tells, ConsistentLookup, NotChained, Written, AtWork, Owed, OneName, StepWriteAllowed, Resolve;
    var after := Written(cfg, w, write);
    var k := write.Key();
    WriteKeepsTelling(cfg, w, write);
    InFlightExactlyUnlessQuiet(cfg, after);
    ResetLeavesTheRest(cfg, w, write, a);
    var keys, others := Active(cfg, after.row.events, a), Active(cfg, w.row.events, a) - {k};
    assert a in cfg.componentOf by { ResolvesToAnAggregate(cfg, write.step); }
    assert keys == others + {k} && after.row.events[k] == Pending;
    assert forall l :: l in others ==> after.row.events[l] == w.row.events[l];
    assert Quiet(cfg, after) <==> !Stalled(cfg, after, a);
  }

  lemma ResolvesToAnAggregate(cfg: Lookup, step: string)
    requires ConsistentLookup(cfg) && Resolve(cfg, step).Some?
    ensures Resolve(cfg, step).value in cfg.componentOf
  {
  }

  lemma OneKeyRollsUp(row: Row, a: string, k: EventKey)
    requires k in row.events
    ensures Recompute(row, a, [k]) ==
            row.(aggregates := row.aggregates[a := Merge(Items(row, a), Component(k.component, row.events[k]))],
                 steps := row.steps[a := Rollup([row.events[k]])])
  {
    assert [k][..0] == [];
    assert MergeAll(Items(row, a), row.events, [k][..0]) == Items(row, a);
    assert Statuses(row.events, [k]) == [row.events[k]];
  }

  lemma TwoKeysRollUp(row: Row, a: string, k: EventKey, l: EventKey)
    requires k in row.events && l in row.events
    ensures Recompute(row, a, [k, l]) ==
            row.(aggregates := row.aggregates[a := Merge(Merge(Items(row, a), Component(k.component, row.events[k])),
                                                         Component(l.component, row.events[l]))],
                 steps := row.steps[a := Rollup([row.events[k], row.events[l]])])
  {
    assert [k, l][..1] == [k] && [k][..0] == [];
    assert MergeAll(Items(row, a), row.events, [k][..0]) == Items(row, a);
    assert MergeAll(Items(row, a), row.events, [k, l][..1]) == Merge(Items(row, a), Component(k.component, row.events[k]));
    assert Statuses(row.events, [k, l]) == [row.events[k], row.events[l]];
  }

  lemma ScanOfOne(cfg: Lookup, events: map<EventKey, StepStatus>, a: string, k: EventKey)
    requires Active(cfg, events, a) == {k}
    ensures Scans(cfg, events, a, [k])
  {
  }

  lemma ScanOfTwo(cfg: Lookup, events: map<EventKey, StepStatus>, a: string, k: EventKey, l: EventKey)
    requires k != l && Active(cfg, events, a) == {k, l}
    ensures Scans(cfg, events, a, [k, l])
  {
  }

  /** A component's report, by itself: record it and roll up. */
  lemma ReportRollsUp(cfg: Lookup, row: Row, w: StepWrite, a: string)
    requires w.component != "" && Resolve(cfg, w.step) == Some(a) && w.entry == None
    requires ScanMatches(cfg, row, w) && StepWriteAllowed(row, w)
    ensures var events := row.events[w.Key() := w.status];
            && (forall k :: k in w.scan ==> k in events)
            && UpdateStep(cfg, row, w) == Recompute(row.(events := events), a, w.scan)
  {
  }

  /** Why a component must keep to one of its aggregate's two names: reported started under one and failed under the
      other, it leaves the row quiet to every reader while it works. */
  lemma TwoNamesHideWork(cfg: Lookup, row: Row, a: string, c: string) returns (start: StepWrite, other: StepWrite)
    requires ConsistentLookup(cfg) && a in cfg.componentOf && !Chained(cfg, a) && cfg.componentOf[a] != a && c != ""
    requires !ReservedMarkerStep(a) && !ReservedMarkerStep(cfg.componentOf[a])
    requires row.events == map[] && row.aggregates == map[] && !InFlight(row)
    ensures ScanMatches(cfg, row, start) && ScanMatches(cfg, UpdateStep(cfg, row, start), other)
    ensures var after := UpdateStep(cfg, UpdateStep(cfg, row, start), other);
            start.Key() in after.events && after.events[start.Key()].IsRunning() && !InFlight(after)
  {
    hide Recompute, InFlight, ReservedMarkerStep, Scans, Rollup, UpdateStep, Merge, RollsInto;
    var b := cfg.componentOf[a];
    var k, l := EventKey(a, c), EventKey(b, c);
    var one := map[k := Running];
    var two := map[k := Running, l := Failed];
    start := StepWrite(a, c, Running, None, false, [k]);
    other := StepWrite(b, c, Failed, None, false, [k, l]);
    assert Resolve(cfg, a) == Some(a) && Resolve(cfg, b) == Some(a);
    assert row.events[k := Running] == one && one[l := Failed] == two;
    BothNamesAreActive(cfg, a, c);
    ScanOfOne(cfg, one, a, k);
    ScanOfTwo(cfg, two, a, k, l);
    ReportRollsUp(cfg, row, start, a);
    OneKeyRollsUp(row.(events := one), a, k);
    MergesOfOneName(c);
    var mid := row.(events := one, aggregates := map[a := [Component(c, Running)]], steps := row.steps[a := Rollup([Running])]);
    assert UpdateStep(cfg, row, start) == mid;
    ReportRollsUp(cfg, mid, other, a);
    TwoKeysRollUp(mid.(events := two), a, k, l);
    OneFailed([Running, Failed], 1);
    var after := UpdateStep(cfg, mid, other);
    assert after.aggregates == map[a := [Component(c, Failed)]];
    assert after.steps == row.steps[a := Failed];
    QuietAfterFailure(row, after, a, c);
  }

  lemma BothNamesAreActive(cfg: Lookup, a: string, c: string)
    requires a in cfg.componentOf && c != ""
    ensures var k, l := EventKey(a, c), EventKey(cfg.componentOf[a], c);
            Active(cfg, map[k := Running], a) == {k} && Active(cfg, map[k := Running, l := Failed], a) == {k, l}
  {
  }

  lemma MergesOfOneName(c: string)
    ensures Merge([], Component(c, Running)) == [Component(c, Running)]
    ensures Merge(Merge([Component(c, Running)], Component(c, Running)), Component(c, Failed)) == [Component(c, Failed)]
  {
  }

  lemma OneFailed(ss: seq<StepStatus>, i: nat)
    requires i < |ss| && ss[i].IsFailure()
    ensures Rollup(ss) == Failed
  {
  }

  lemma QuietAfterFailure(row: Row, after: Row, a: string, c: string)
    requires !InFlight(row) && after.steps == row.steps[a := Failed] && after.aggregates == map[a := [Component(c, Failed)]]
    ensures !InFlight(after)
  {
    forall s | s in after.steps && s != PUSH_PARSED ensures !after.steps[s].IsRunning() {
      if s != a { assert s in row.steps; }
    }
  }
}

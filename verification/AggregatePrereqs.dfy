/** An aggregate step as a prerequisite, against its components one by one
    (slippy/prereqs.go, slippy/aggregate_status.go, slippy/postgres_store_updates.go). */
module AggregatePrereqs {
  import opened Status
  import opened Aggregate
  import opened Rows
  import opened Prereqs

  ghost predicate DistinctItems(items: seq<Component>) {
    forall i, j :: 0 <= i < j < |items| ==> items[i].name != items[j].name
  }

  function ItemStatuses(items: seq<Component>): seq<StepStatus> {
    seq(|items|, i requires 0 <= i < |items| => items[i].status)
  }

  lemma {:induction false} FirstNamedAt(items: seq<Component>, i: nat)
    requires i < |items| && DistinctItems(items)
    ensures FirstNamed(items, items[i].name) == Some(items[i].status)
  {
    if i > 0 {
      FirstNamedAt(items[1..], i - 1);
    }
  }

  /** What a component's prerequisite on its component type says. */
  lemma ComponentVerdict(cfg: Lookup, row: Row, componentType: string, i: nat)
    requires componentType in cfg.aggregateOf && cfg.aggregateOf[componentType] != "" && CleanName(componentType)
    requires var items := Items(row, cfg.aggregateOf[componentType]);
             i < |items| && DistinctItems(items) && items[i].name != ""
    ensures var item := Items(row, cfg.aggregateOf[componentType])[i];
            Verdict(Some(cfg), row, [componentType], item.name) == Outcome(item.status)
  {
    OneName(componentType);
    var items := Items(row, cfg.aggregateOf[componentType]);
    FirstNamedAt(items, i);
    assert componentType in [componentType];
  }

  lemma StepVerdict(cfg: Lookup, row: Row, step: string)
    requires CleanName(step) && step in row.steps
    ensures Verdict(Some(cfg), row, [step], "") == Outcome(row.steps[step])
  {
    OneName(step);
    assert step in [step];
  }

  /** With distinct, named components and a step status that is their rollup, the aggregate step as a
      prerequisite is completed exactly when the component type is for every component, and failed exactly when
      it is for some component. */
  lemma AggregateStandsForItsComponents(cfg: Lookup, row: Row, componentType: string)
    requires componentType in cfg.aggregateOf && CleanName(componentType) && CleanName(cfg.aggregateOf[componentType])
    requires var a := cfg.aggregateOf[componentType]; var items := Items(row, a);
             && DistinctItems(items) && (forall i :: 0 <= i < |items| ==> items[i].name != "")
             && a in row.steps && row.steps[a] == Rollup(ItemStatuses(items))
    ensures var a := cfg.aggregateOf[componentType]; var items := Items(row, a);
            && (Verdict(Some(cfg), row, [a], "") == PrereqCompleted <==>
                forall i :: 0 <= i < |items| ==> Verdict(Some(cfg), row, [componentType], items[i].name) == PrereqCompleted)
            && (Verdict(Some(cfg), row, [a], "") == PrereqFailed <==>
                exists i :: 0 <= i < |items| && Verdict(Some(cfg), row, [componentType], items[i].name) == PrereqFailed)
  {
    hide Verdict, IsSpace;
    var a := cfg.aggregateOf[componentType];
    var items := Items(row, a);
    var ss := ItemStatuses(items);
    StepVerdict(cfg, row, a);
    forall i | 0 <= i < |items|
      ensures Verdict(Some(cfg), row, [componentType], items[i].name) == Outcome(ss[i])
    {
      ComponentVerdict(cfg, row, componentType, i);
    }
    if AnyFailed(ss) {
      var i :| 0 <= i < |ss| && ss[i].IsFailure();
      assert Verdict(Some(cfg), row, [componentType], items[i].name) == PrereqFailed;
    }
  }

  // ---- the rollup the store writes counts reported components only ----

  lemma MergeFacts(items: seq<Component>, c: Component)
    requires DistinctItems(items)
    ensures DistinctItems(Merge(items, c))
    ensures c in Merge(items, c)
    ensures forall x :: x in Merge(items, c) ==> x == c || (x in items && x.name != c.name)
    ensures forall x :: x in items && x.name != c.name ==> x in Merge(items, c)
  {
    var i := LastIndex(items, c.name);
    var m := Merge(items, c);
    if i >= 0 {
      assert m[i] == c;
      forall x | x in items && x.name != c.name ensures x in m {
        var j :| 0 <= j < |items| && items[j] == x;
        assert m[j] == x;
      }
    } else {
      assert m[|items|] == c;
      forall x | x in items ensures x in m && x.name != c.name {
        var j :| 0 <= j < |items| && items[j] == x;
        assert m[j] == x;
      }
    }
  }

  lemma {:induction false} MergeAllFacts(items: seq<Component>, events: map<EventKey, StepStatus>, scan: seq<EventKey>)
    requires DistinctItems(items)
    requires forall k :: k in scan ==> k in events
    requires forall i, j :: 0 <= i < j < |scan| ==> scan[i].component != scan[j].component
    ensures var m := MergeAll(items, events, scan);
            && DistinctItems(m)
            && (forall k :: k in scan ==> Component(k.component, events[k]) in m)
            && (forall x :: x in m ==>
                  || (exists k :: k in scan && x == Component(k.component, events[k]))
                  || (x in items && forall k :: k in scan ==> k.component != x.name))
  {
    if scan != [] {
      hide Merge;
      var n := |scan| - 1;
      var before := scan[..n];
      assert scan == before + [scan[n]];
      MergeAllFacts(items, events, before);
      var m := MergeAll(items, events, before);
      var c := Component(scan[n].component, events[scan[n]]);
      MergeFacts(m, c);
      forall k | k in before ensures k.component != c.name {
        var i :| 0 <= i < |before| && before[i] == k;
        assert scan[i] == k;
      }
      forall x | x in Merge(m, c)
        ensures || (exists k :: k in scan && x == Component(k.component, events[k]))
                || (x in items && forall k :: k in scan ==> k.component != x.name)
      {
        if x == c {
          assert scan[n] in scan;
        } else if k :| k in before && x == Component(k.component, events[k]) {
          assert k in scan;
        } else {
          assert x in items && forall k :: k in before ==> k.component != x.name;
        }
      }
    }
  }

  ghost predicate Reported(scan: seq<EventKey>, name: string) {
    exists k :: k in scan && k.component == name
  }

  ghost predicate AllReportedSucceeded(events: map<EventKey, StepStatus>, scan: seq<EventKey>)
    requires forall k :: k in scan ==> k in events
  {
    forall k :: k in scan ==> events[k].IsSuccess()
  }

  ghost predicate UnreportedSucceeded(items: seq<Component>, scan: seq<EventKey>) {
    forall c :: c in items && !Reported(scan, c.name) ==> c.status.IsSuccess()
  }

  lemma MergedSucceed(items: seq<Component>, events: map<EventKey, StepStatus>, scan: seq<EventKey>)
    requires DistinctItems(items) && forall k :: k in scan ==> k in events
    requires forall i, j :: 0 <= i < j < |scan| ==> scan[i].component != scan[j].component
    ensures (forall c :: c in MergeAll(items, events, scan) ==> c.status.IsSuccess()) <==>
            AllReportedSucceeded(events, scan) && UnreportedSucceeded(items, scan)
  {
    hide MergeAll;
    MergeAllFacts(items, events, scan);
    var m := MergeAll(items, events, scan);
    if forall c :: c in m ==> c.status.IsSuccess() {
      forall k | k in scan ensures events[k].IsSuccess() {
        assert Component(k.component, events[k]) in m;
      }
      forall c | c in items && !Reported(scan, c.name) ensures c.status.IsSuccess() {
        MergeKeepsUnreported(items, events, scan, c);
      }
    }
  }

  lemma {:induction false} MergeKeepsUnreported(items: seq<Component>, events: map<EventKey, StepStatus>,
                                                scan: seq<EventKey>, c: Component)
    requires DistinctItems(items) && forall k :: k in scan ==> k in events
    requires c in items && !Reported(scan, c.name)
    ensures DistinctItems(MergeAll(items, events, scan)) && c in MergeAll(items, events, scan)
  {
    if scan != [] {
      hide Merge;
      var n := |scan| - 1;
      assert scan[n] in scan;
      forall k | k in scan[..n] ensures k in scan {}
      MergeKeepsUnreported(items, events, scan[..n], c);
      MergeFacts(MergeAll(items, events, scan[..n]), Component(scan[n].component, events[scan[n]]));
    }
  }

  lemma StatusesSucceed(events: map<EventKey, StepStatus>, scan: seq<EventKey>)
    requires forall k :: k in scan ==> k in events
    ensures Rollup(Statuses(events, scan)) == Completed <==> AllReportedSucceeded(events, scan)
  {
    var ss := Statuses(events, scan);
    if AllSucceeded(ss) {
      forall k | k in scan ensures events[k].IsSuccess() {
        var i :| 0 <= i < |scan| && scan[i] == k;
        assert ss[i] == events[k];
      }
    }
    if AllReportedSucceeded(events, scan) {
      forall i | 0 <= i < |scan| ensures ss[i].IsSuccess() {
        assert scan[i] in scan;
      }
    }
  }

  /** After the store's rollup the aggregate step is completed exactly when every reported component succeeded,
      while its components are all completed exactly when the unreported ones succeeded too: a step is
      completed early whenever some component has not reported. */
  lemma RollupCountsReportedComponents(cfg: Lookup, row: Row, componentType: string, scan: seq<EventKey>)
    requires componentType in cfg.aggregateOf && CleanName(componentType) && CleanName(cfg.aggregateOf[componentType])
    requires forall k :: k in scan ==> k in row.events && k.component != ""
    requires forall i, j :: 0 <= i < j < |scan| ==> scan[i].component != scan[j].component
    requires scan != [] && var items := Items(row, cfg.aggregateOf[componentType]);
             DistinctItems(items) && forall c :: c in items ==> c.name != ""
    ensures var a := cfg.aggregateOf[componentType]; var items := Items(row, a); var row' := Recompute(row, a, scan);
            && (Verdict(Some(cfg), row', [a], "") == PrereqCompleted <==> AllReportedSucceeded(row.events, scan))
            && ((forall i :: 0 <= i < |Items(row', a)| ==>
                   Verdict(Some(cfg), row', [componentType], Items(row', a)[i].name) == PrereqCompleted) <==>
                AllReportedSucceeded(row.events, scan) && UnreportedSucceeded(items, scan))
  {
    hide Verdict, IsSpace, MergeAll;
    var a := cfg.aggregateOf[componentType];
    var row' := Recompute(row, a, scan);
    var items := Items(row', a);
    StepVerdict(cfg, row', a);
    StatusesSucceed(row.events, scan);
    MergedSucceed(Items(row, a), row.events, scan);
    MergeAllFacts(Items(row, a), row.events, scan);
    forall i | 0 <= i < |items|
      ensures Verdict(Some(cfg), row', [componentType], items[i].name) == Outcome(items[i].status)
    {
      assert items[i] in items;
      ComponentVerdict(cfg, row', componentType, i);
    }
    forall c | c in items ensures exists i :: 0 <= i < |items| && items[i] == c {}
  }
}

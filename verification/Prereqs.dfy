/** Whether a step's prerequisites are met (slippy/prereqs.go). */
module Prereqs {
  import opened Status
  import opened Rows

  datatype PrereqStatus = PrereqCompleted | PrereqRunning | PrereqFailed

  datatype PrereqResult = PrereqResult(
    status: PrereqStatus, completed: seq<string>, running: seq<string>, failed: seq<string>)

  /** unicode.IsSpace. */
  predicate IsSpace(c: char) {
    || '\t' <= c <= '\r' || c == ' ' || c == '\U{0085}' || c == '\U{00A0}' || c == '\U{1680}'
    || '\U{2000}' <= c <= '\U{200A}' || c == '\U{2028}' || c == '\U{2029}' || c == '\U{202F}'
    || c == '\U{205F}' || c == '\U{3000}'
  }

  /** White space, code point by code point. */
  lemma SpacesAre(c: char)
    ensures IsSpace(c) <==>
            c as int in {9, 10, 11, 12, 13, 32, 0x85, 0xA0, 0x1680, 0x2000, 0x2001, 0x2002, 0x2003, 0x2004, 0x2005, 0x2006,
                         0x2007, 0x2008, 0x2009, 0x200A, 0x2028, 0x2029, 0x202F, 0x205F, 0x3000}
  {
  }

  function TrimSpace(s: string): (t: string)
    ensures t != [] ==> !IsSpace(t[0]) && !IsSpace(t[|t| - 1])
    ensures s != [] && !IsSpace(s[0]) && !IsSpace(s[|s| - 1]) ==> t == s
    ensures |t| <= |s|
  {
    if s == [] then []
    else if IsSpace(s[0]) then TrimSpace(s[1..])
    else if IsSpace(s[|s| - 1]) then TrimSpace(s[..|s| - 1])
    else s
  }

  /** The names a list of prerequisites really holds: trimmed, blanks dropped. */
  function Names(prereqs: seq<string>): (names: seq<string>)
    ensures forall p :: p in names ==> p != ""
  {
    if prereqs == [] then []
    else
      var p := TrimSpace(prereqs[|prereqs| - 1]);
      Names(prereqs[..|prereqs| - 1]) + if p == "" then [] else [p]
  }

  function FirstNamed(items: seq<Component>, name: string): (s: Option<StepStatus>)
    ensures s.None? <==> forall i :: 0 <= i < |items| ==> items[i].name != name
  {
    if items == [] then None
    else if items[0].name == name then Some(items[0].status)
    else FirstNamed(items[1..], name)
  }

  /** getPrereqStatus: a component type is looked up among its aggregate's components, everything else
      among the steps; what is not found is pending. */
  function StatusOf(cfg: Option<Lookup>, row: Row, prereq: string, component: string): StepStatus {
    if component != "" && cfg.Some? && prereq in cfg.value.aggregateOf && cfg.value.aggregateOf[prereq] != "" then
      var found := FirstNamed(Items(row, cfg.value.aggregateOf[prereq]), component);
      if found.Some? then found.value else Pending
    else if prereq in row.steps then row.steps[prereq]
    else Pending
  }

  function Outcome(s: StepStatus): PrereqStatus {
    if s.IsSuccess() then PrereqCompleted else if s.IsFailure() then PrereqFailed else PrereqRunning
  }

  /** The names whose status has the given outcome, in order. */
  function Those(cfg: Option<Lookup>, row: Row, component: string, names: seq<string>,
                 outcome: PrereqStatus): seq<string> {
    if names == [] then []
    else
      var n := |names| - 1;
      Those(cfg, row, component, names[..n], outcome) +
      if Outcome(StatusOf(cfg, row, names[n], component)) == outcome then [names[n]] else []
  }

  lemma {:induction false} ThoseMembers(cfg: Option<Lookup>, row: Row, component: string, names: seq<string>,
                                        outcome: PrereqStatus, p: string)
    ensures p in Those(cfg, row, component, names, outcome) <==>
            p in names && Outcome(StatusOf(cfg, row, p, component)) == outcome
  {
    hide StatusOf, Outcome;
    if names != [] {
      var n := |names| - 1;
      ThoseMembers(cfg, row, component, names[..n], outcome, p);
      assert names == names[..n] + [names[n]];
    }
  }

  lemma ThoseOnward(cfg: Option<Lookup>, row: Row, component: string, names: seq<string>, p: string,
                    outcome: PrereqStatus)
    ensures Those(cfg, row, component, names + [p], outcome) ==
            Those(cfg, row, component, names, outcome) +
            if Outcome(StatusOf(cfg, row, p, component)) == outcome then [p] else []
  {
    hide StatusOf, Outcome;
    assert (names + [p])[..|names|] == names;
  }

  lemma NamesOnward(prereqs: seq<string>, i: nat)
    requires i < |prereqs|
    ensures var p := TrimSpace(prereqs[i]);
            Names(prereqs[..i + 1]) == if p == "" then Names(prereqs[..i]) else Names(prereqs[..i]) + [p]
  {
    hide TrimSpace;
    assert prereqs[..i + 1][..i] == prereqs[..i];
  }

  /** The status of the first item of that name in the aggregate's column, pending when there is none. */
  ghost predicate IsOfFirst(row: Row, aggregate: string, name: string, s: StepStatus) {
    var items := if aggregate in row.aggregates then row.aggregates[aggregate] else [];
    || ((forall i :: 0 <= i < |items| ==> items[i].name != name) && s == Pending)
    || (exists i :: 0 <= i < |items| && items[i] == Component(name, s) && forall j :: 0 <= j < i ==> items[j].name != name)
  }

  lemma {:induction false} FirstNamedIs(items: seq<Component>, name: string)
    ensures var found := FirstNamed(items, name);
            found.Some? ==>
              exists i :: 0 <= i < |items| && items[i] == Component(name, found.value) && forall j :: 0 <= j < i ==> items[j].name != name
  {
    if items != [] && items[0].name != name {
      FirstNamedIs(items[1..], name);
      var found := FirstNamed(items[1..], name);
      if found.Some? {
        var i :| 0 <= i < |items| - 1 && items[1..][i] == Component(name, found.value) && forall j :: 0 <= j < i ==> items[1..][j].name != name;
        assert items[i + 1] == Component(name, found.value);
        assert forall j :: 0 <= j < i + 1 ==> items[j].name != name by {
          forall j | 0 <= j < i + 1 ensures items[j].name != name {
            if j > 0 { assert items[1..][j - 1] == items[j]; }
          }
        }
      }
    } else if items != [] {
      assert items[0] == Component(name, items[0].status);
    }
  }

  method GetPrereqStatus(cfg: Option<Lookup>, row: Row, prereq: string, component: string) returns (s: StepStatus)
    ensures s == StatusOf(cfg, row, prereq, component)
    ensures component != "" && cfg.Some? && prereq in cfg.value.aggregateOf && cfg.value.aggregateOf[prereq] != "" ==>
              IsOfFirst(row, cfg.value.aggregateOf[prereq], component, s)
    ensures !(component != "" && cfg.Some? && prereq in cfg.value.aggregateOf && cfg.value.aggregateOf[prereq] != "") ==>
              s == if prereq in row.steps then row.steps[prereq] else Pending
  {
    if component != "" && cfg.Some? {
      var aggregateStep := if prereq in cfg.value.aggregateOf then cfg.value.aggregateOf[prereq] else "";
      if aggregateStep != "" {
        var items := Items(row, aggregateStep);
        FirstNamedIs(items, component);
        for i := 0 to |items|
          invariant FirstNamed(items, component) == FirstNamed(items[i..], component)
        {
          if items[i].name == component {
            return items[i].status;
          }
          assert items[i..][1..] == items[i + 1..];
        }
        return Pending;
      }
    }
    if prereq in row.steps {
      return row.steps[prereq];
    }
    return Pending;
  }

  /** CheckPrerequisites: every named prerequisite lands in exactly the list of its outcome, in order, and the
      verdict is completed when all of them succeeded, failed when one has failed, running otherwise. */
  method CheckPrerequisites(cfg: Option<Lookup>, row: Row, prereqs: seq<string>,
                            component: string) returns (r: PrereqResult)
    ensures var names := Names(prereqs);
            && r.completed == Those(cfg, row, component, names, PrereqCompleted)
            && r.running == Those(cfg, row, component, names, PrereqRunning)
            && r.failed == Those(cfg, row, component, names, PrereqFailed)
    ensures r.status == Verdict(cfg, row, prereqs, component)
    ensures forall p :: p in r.completed <==> p in Names(prereqs) && StatusOf(cfg, row, p, component) in {Completed, Skipped}
    ensures forall p :: p in r.failed <==>
                        p in Names(prereqs) && StatusOf(cfg, row, p, component) in {Failed, Errored, Aborted, TimedOut}
    ensures forall p :: p in r.running <==>
                        p in Names(prereqs) && StatusOf(cfg, row, p, component) !in {Completed, Skipped, Failed, Errored, Aborted, TimedOut}
    ensures r.status ==
            if r.failed != [] then PrereqFailed else if r.running != [] then PrereqRunning else PrereqCompleted
  {
    hide StatusOf, Names, Those, TrimSpace, Verdict;
    r := PrereqResult(PrereqCompleted, [], [], []);
    ghost var names: seq<string> := [];
    NothingNamed(cfg, row, component);
    assert prereqs[..0] == [];
    for i := 0 to |prereqs|
      invariant names == Names(prereqs[..i])
      invariant r.completed == Those(cfg, row, component, names, PrereqCompleted)
      invariant r.running == Those(cfg, row, component, names, PrereqRunning)
      invariant r.failed == Those(cfg, row, component, names, PrereqFailed)
      invariant r.status ==
                if r.failed != [] then PrereqFailed else if r.running != [] then PrereqRunning else PrereqCompleted
    {
      var prereq := TrimSpace(prereqs[i]);
      NamesOnward(prereqs, i);
      if prereq == "" {
        continue;
      }
      var status := GetPrereqStatus(cfg, row, prereq, component);
      ThoseOnward(cfg, row, component, names, prereq, PrereqCompleted);
      ThoseOnward(cfg, row, component, names, prereq, PrereqRunning);
      ThoseOnward(cfg, row, component, names, prereq, PrereqFailed);
      if status.IsSuccess() {
        r := r.(completed := r.completed + [prereq]);
      } else if status.IsFailure() {
        r := r.(failed := r.failed + [prereq], status := PrereqFailed);
      } else {
        r := r.(running := r.running + [prereq]);
        if r.status != PrereqFailed {
          r := r.(status := PrereqRunning);
        }
      }
      names := names + [prereq];
    }
    assert prereqs[..|prereqs|] == prereqs;
    VerdictByLists(cfg, row, prereqs, component);
    forall p, outcome: PrereqStatus
      ensures p in Those(cfg, row, component, names, outcome) <==>
              p in names && Outcome(StatusOf(cfg, row, p, component)) == outcome
    {
      ThoseMembers(cfg, row, component, names, outcome, p);
    }
  }

  lemma NothingNamed(cfg: Option<Lookup>, row: Row, component: string)
    ensures Names([]) == []
    ensures forall o :: Those(cfg, row, component, [], o) == []
  {
  }

  // ---- the verdict ----

  ghost predicate AllSucceededIn(cfg: Option<Lookup>, row: Row, names: seq<string>, component: string) {
    forall p :: p in names ==> StatusOf(cfg, row, p, component).IsSuccess()
  }

  ghost predicate SomeFailedIn(cfg: Option<Lookup>, row: Row, names: seq<string>, component: string) {
    exists p :: p in names && StatusOf(cfg, row, p, component).IsFailure()
  }

  ghost function Verdict(cfg: Option<Lookup>, row: Row, prereqs: seq<string>, component: string): PrereqStatus {
    if SomeFailedIn(cfg, row, Names(prereqs), component) then PrereqFailed
    else if AllSucceededIn(cfg, row, Names(prereqs), component) then PrereqCompleted
    else PrereqRunning
  }

  lemma VerdictByLists(cfg: Option<Lookup>, row: Row, prereqs: seq<string>, component: string)
    ensures Verdict(cfg, row, prereqs, component) ==
            if Those(cfg, row, component, Names(prereqs), PrereqFailed) != [] then PrereqFailed
            else if Those(cfg, row, component, Names(prereqs), PrereqRunning) != [] then PrereqRunning
            else PrereqCompleted
  {
    hide StatusOf, Names, Those;
    var names := Names(prereqs);
    var failed := Those(cfg, row, component, names, PrereqFailed);
    var running := Those(cfg, row, component, names, PrereqRunning);
    forall p
      ensures p in failed <==> p in names && Outcome(StatusOf(cfg, row, p, component)) == PrereqFailed
      ensures p in running <==> p in names && Outcome(StatusOf(cfg, row, p, component)) == PrereqRunning
    {
      ThoseMembers(cfg, row, component, names, PrereqFailed, p);
      ThoseMembers(cfg, row, component, names, PrereqRunning, p);
    }
    if failed != [] { assert failed[0] in failed; }
    if running != [] { assert running[0] in running; }
  }

  /** Each list keeps the order the names are given in: that of two lists of names is one after the other. */
  lemma {:induction false} ListsKeepTheOrder(cfg: Option<Lookup>, row: Row, component: string, a: seq<string>, b: seq<string>,
                                             outcome: PrereqStatus)
    ensures Those(cfg, row, component, a + b, outcome) ==
            Those(cfg, row, component, a, outcome) + Those(cfg, row, component, b, outcome)
    decreases |b|
  {
    hide StatusOf, Outcome, Those;
    NothingNamed(cfg, row, component);
    if b == [] {
      assert a + b == a;
    } else {
      var n := |b| - 1;
      var c := b[..n];
      assert a + b == (a + c) + [b[n]] && b == c + [b[n]];
      ListsKeepTheOrder(cfg, row, component, a, c, outcome);
      ThoseOnward(cfg, row, component, a + c, b[n], outcome);
      ThoseOnward(cfg, row, component, c, b[n], outcome);
    }
  }

  /** The three lists split the named prerequisites: none is lost, none is counted twice. */
  lemma {:induction false} ListsSplitTheNames(cfg: Option<Lookup>, row: Row, component: string, names: seq<string>)
    ensures multiset(names) ==
            multiset(Those(cfg, row, component, names, PrereqCompleted))
            + multiset(Those(cfg, row, component, names, PrereqRunning))
            + multiset(Those(cfg, row, component, names, PrereqFailed))
  {
    hide StatusOf, Outcome, Those;
    NothingNamed(cfg, row, component);
    if names != [] {
      var n := |names| - 1;
      var before, p := names[..n], names[n];
      assert names == before + [p];
      ListsSplitTheNames(cfg, row, component, before);
      ThoseOnward(cfg, row, component, before, p, PrereqCompleted);
      ThoseOnward(cfg, row, component, before, p, PrereqRunning);
      ThoseOnward(cfg, row, component, before, p, PrereqFailed);
    }
  }

  ghost predicate CleanName(name: string) {
    name != "" && !IsSpace(name[0]) && !IsSpace(name[|name| - 1])
  }

  ghost predicate Blank(s: string) {
    forall i :: 0 <= i < |s| ==> IsSpace(s[i])
  }

  lemma {:induction false} BlankTrimsToNothing(s: string)
    requires Blank(s)
    ensures TrimSpace(s) == ""
  {
    hide IsSpace;
    if s != "" {
      BlankTrimsToNothing(s[1..]);
    }
  }

  lemma {:induction false} TrimAfter(name: string, after: string)
    requires Blank(after) && CleanName(name)
    ensures TrimSpace(name + after) == name
    decreases |after|
  {
    hide IsSpace;
    var s := name + after;
    assert s[0] == name[0];
    if after == "" {
      assert s == name;
    } else {
      var n := |after| - 1;
      assert s[|s| - 1] == after[n] && s[..|s| - 1] == name + after[..n];
      TrimAfter(name, after[..n]);
    }
  }

  /** Whatever white space surrounds a clean name, the name is what counts. */
  lemma {:induction false} TrimOfPadded(before: string, name: string, after: string)
    requires Blank(before) && Blank(after) && CleanName(name)
    ensures TrimSpace(before + name + after) == name
    decreases |before|
  {
    hide IsSpace;
    var s := before + name + after;
    if before == "" {
      assert s == name + after;
      TrimAfter(name, after);
    } else {
      assert s[0] == before[0] && s[1..] == before[1..] + name + after;
      TrimOfPadded(before[1..], name, after);
    }
  }

  /** So a padded name is that name, and white space alone is no prerequisite. */
  lemma PaddedNamesCount(before: string, name: string, after: string)
    requires Blank(before) && Blank(after) && (name == "" || CleanName(name))
    ensures Names([before + name + after]) == if name == "" then [] else [name]
  {
    hide TrimSpace, CleanName;
    var s := before + name + after;
    if name == "" {
      assert Blank(s);
      BlankTrimsToNothing(s);
    } else {
      TrimOfPadded(before, name, after);
    }
    assert [s][..0] == [];
  }

  /** Trimming leaves a list of clean names alone. */
  lemma {:induction false} CleanNames(prereqs: seq<string>)
    requires forall p :: p in prereqs ==> CleanName(p)
    ensures Names(prereqs) == prereqs
  {
    hide IsSpace;
    if prereqs != [] {
      var n := |prereqs| - 1;
      assert prereqs[n] in prereqs;
      CleanNames(prereqs[..n]);
      assert prereqs == prereqs[..n] + [prereqs[n]];
    }
  }

  lemma OneName(prereq: string)
    requires CleanName(prereq)
    ensures Names([prereq]) == [prereq]
  {
    CleanNames([prereq]);
  }
}

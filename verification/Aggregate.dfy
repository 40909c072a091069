/** The rollup of component statuses into their aggregate step (slippy/aggregate_status.go). */
module Aggregate {
  import opened Status

  predicate AnyFailed(ss: seq<StepStatus>) {
    exists i :: 0 <= i < |ss| && ss[i].IsFailure()
  }

  predicate AllSucceeded(ss: seq<StepStatus>) {
    forall i :: 0 <= i < |ss| ==> ss[i].IsSuccess()
  }

  predicate AnyStarted(ss: seq<StepStatus>) {
    exists i :: 0 <= i < |ss| && (ss[i].IsRunning() || ss[i].IsSuccess())
  }

  function Rollup(ss: seq<StepStatus>): StepStatus {
    if AnyFailed(ss) then Failed
    else if AllSucceeded(ss) then Completed
    else if AnyStarted(ss) then Running
    else Pending
  }

  /** computeAggregateStatus: one pass over the components, four flags. */
  method ComputeAggregateStatus(components: seq<StepStatus>) returns (status: StepStatus)
    ensures status == Rollup(components)
    ensures status == Failed <==> exists c :: c in components && c in {Failed, Errored, Aborted, TimedOut}
    ensures status == Completed <==> forall c :: c in components ==> c in {Completed, Skipped}
    ensures status == Running <==>
            && (forall c :: c in components ==> c !in {Failed, Errored, Aborted, TimedOut})
            && (exists c :: c in components && c !in {Completed, Skipped})
            && (exists c :: c in components && c in {Completed, Skipped, Running, Held})
    ensures status in {Failed, Completed, Running, Pending}
  {
    RollupMeans(components);
    var allCompleted, anyRunning, anyCompleted, anyFailed := true, false, false, false;
    for i := 0 to |components|
      invariant allCompleted <==> AllSucceeded(components[..i])
      invariant anyFailed <==> AnyFailed(components[..i])
      invariant anyRunning || anyCompleted <==> AnyStarted(components[..i])
    {
      var s := components[i];
      assert components[..i + 1] == components[..i] + [s];
      if s.IsFailure() { anyFailed := true; }
      if s.IsSuccess() { anyCompleted := true; } else { allCompleted := false; }
      if s.IsRunning() { anyRunning := true; }
      assert AnyFailed(components[..i + 1]) <==> AnyFailed(components[..i]) || s.IsFailure();
      assert AnyStarted(components[..i + 1]) <==> AnyStarted(components[..i]) || s.IsRunning() || s.IsSuccess() by {
        assert components[..i + 1][i] == s;
        forall j | 0 <= j < i ensures components[..i + 1][j] == components[..i][j] {}
      }
    }
    assert components[..|components|] == components;
    if anyFailed {
      status := Failed;
    } else if allCompleted {
      status := Completed;
    } else if anyRunning || anyCompleted {
      status := Running;
    } else {
      status := Pending;
    }
  }

  /** The rollup in terms of the statuses themselves. */
  lemma RollupMeans(ss: seq<StepStatus>)
    ensures Rollup(ss) == Failed <==> exists c :: c in ss && c in {Failed, Errored, Aborted, TimedOut}
    ensures Rollup(ss) == Completed <==> forall c :: c in ss ==> c in {Completed, Skipped}
    ensures Rollup(ss) == Running <==>
            && (forall c :: c in ss ==> c !in {Failed, Errored, Aborted, TimedOut})
            && (exists c :: c in ss && c !in {Completed, Skipped})
            && (exists c :: c in ss && c in {Completed, Skipped, Running, Held})
    ensures Rollup(ss) in {Failed, Completed, Running, Pending}
  {
    assert forall c :: c in ss <==> exists i :: 0 <= i < |ss| && ss[i] == c;
    assert AnyFailed(ss) <==> exists c :: c in ss && c in {Failed, Errored, Aborted, TimedOut} by {
      if AnyFailed(ss) {
        var i :| 0 <= i < |ss| && ss[i].IsFailure();
        assert ss[i] in ss;
      }
    }
    assert AllSucceeded(ss) <==> forall c :: c in ss ==> c in {Completed, Skipped} by {
      if forall c :: c in ss ==> c in {Completed, Skipped} {
        assert forall i :: 0 <= i < |ss| ==> ss[i] in ss;
      }
    }
    assert AnyStarted(ss) <==> exists c :: c in ss && c in {Completed, Skipped, Running, Held} by {
      if AnyStarted(ss) {
        var i :| 0 <= i < |ss| && (ss[i].IsRunning() || ss[i].IsSuccess());
        assert ss[i] in ss;
      }
    }
  }

  /** The rollup does not depend on the order the components are read in. */
  lemma RollupIgnoresOrder(ss: seq<StepStatus>, ts: seq<StepStatus>)
    requires multiset(ss) == multiset(ts)
    ensures Rollup(ss) == Rollup(ts)
  {
    forall x ensures x in ss <==> x in ts {
      assert x in ss <==> x in multiset(ss);
      assert x in ts <==> x in multiset(ts);
    }
    SameMembersSameRollup(ss, ts);
  }

  lemma SameMembersSameRollup(ss: seq<StepStatus>, ts: seq<StepStatus>)
    requires forall x :: x in ss <==> x in ts
    ensures Rollup(ss) == Rollup(ts)
  {
    forall s: StepStatus | s in ss ensures exists j :: 0 <= j < |ts| && ts[j] == s { assert s in ts; }
    forall s: StepStatus | s in ts ensures exists j :: 0 <= j < |ss| && ss[j] == s { assert s in ss; }
    forall i | 0 <= i < |ss| ensures ss[i] in ts {}
    forall i | 0 <= i < |ts| ensures ts[i] in ss {}
  }

  /** Work that is all finished never reads as running. */
  lemma FinishedIsNotRunning(ss: seq<StepStatus>)
    requires forall i :: 0 <= i < |ss| ==> ss[i].IsTerminal()
    ensures Rollup(ss).IsTerminal()
  {
  }
}

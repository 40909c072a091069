/** How a slip and a held step end: AbandonSlip, PromoteSlip, and what the completion check that follows an aborted
    or timed-out step does to it (slippy/client.go, slippy/hold.go, slippy/steps.go, slippy/executor.go). */
module Endings {
  import opened Status
  import opened Rows
  import opened Claim
  import opened ClaimProtocol
  import opened Reconcile
  import opened ReconcileFacts

  // ---- abandoning and promoting ----

  datatype Ending = Abandon | Promote

  function EndStatus(e: Ending): SlipStatus {
    if e.Abandon? then SlipAbandoned else SlipPromoted
  }

  datatype EndError = EndLoadFailed | EndWriteFailed

  /** One call as it reaches the row. */
  function EndRow(row: Row, e: Ending, loads: bool, writes: bool, at: int): Row {
    if loads && writes && !row.status.IsTerminal() then SetStatusRow(row, EndStatus(e), at) else row
  }

  class SlipHandle {
    var row: Row

    constructor (row: Row)
      ensures this.row == row
    {
      this.row := row;
    }

    method UpdateSlipStatus(status: SlipStatus, writes: bool, at: int)
      modifies this
      ensures row == if writes then SetStatusRow(old(row), status, at) else old(row)
    {
      if writes {
        row := SetStatusRow(row, status, at);
      }
    }

    method AbandonSlip(loads: bool, writes: bool, at: int) returns (err: Option<EndError>)
      modifies this
      ensures row == EndRow(old(row), Abandon, loads, writes, at)
      ensures row == if loads && writes && old(row).status !in {SlipCompleted, SlipCompensated, SlipAbandoned, SlipPromoted}
                     then SetStatusRow(old(row), SlipAbandoned, at) else old(row)
      ensures err == if !loads then Some(EndLoadFailed)
                     else if !old(row).status.IsTerminal() && !writes then Some(EndWriteFailed) else None
    {
      if !loads {
        return Some(EndLoadFailed);
      }
      if row.status.IsTerminal() {
        return None;
      }
      UpdateSlipStatus(SlipAbandoned, writes, at);
      return if writes then None else Some(EndWriteFailed);
    }

    method PromoteSlip(loads: bool, writes: bool, at: int) returns (err: Option<EndError>)
      modifies this
      ensures row == EndRow(old(row), Promote, loads, writes, at)
      ensures row == if loads && writes && old(row).status !in {SlipCompleted, SlipCompensated, SlipAbandoned, SlipPromoted}
                     then SetStatusRow(old(row), SlipPromoted, at) else old(row)
      ensures err == if !loads then Some(EndLoadFailed)
                     else if !old(row).status.IsTerminal() && !writes then Some(EndWriteFailed) else None
    {
      if !loads {
        return Some(EndLoadFailed);
      }
      if row.status.IsTerminal() {
        return None;
      }
      UpdateSlipStatus(SlipPromoted, writes, at);
      return if writes then None else Some(EndWriteFailed);
    }
  }

  datatype Call = Call(ending: Ending, loads: bool, writes: bool, at: int)

  ghost predicate AreCalls(rows: seq<Row>, calls: seq<Call>) {
    && |rows| == |calls| + 1
    && forall i :: 0 <= i < |calls| ==> rows[i + 1] == EndRow(rows[i], calls[i].ending, calls[i].loads, calls[i].writes, calls[i].at)
  }

  predicate Lands(c: Call) {
    c.loads && c.writes
  }

  /** Of any calls on a running slip, in any order, the first that lands decides how it ends: every later one leaves
      the row exactly as it is, claim released. */
  lemma {:induction false} FirstEndingWins(rows: seq<Row>, calls: seq<Call>, first: nat, n: nat)
    requires AreCalls(rows, calls) && first < n < |rows|
    requires !rows[0].status.IsTerminal() && Agree(rows[0])
    requires Lands(calls[first]) && forall i :: 0 <= i < first ==> !Lands(calls[i])
    ensures rows[n] == rows[first + 1] == SetStatusRow(rows[0], EndStatus(calls[first].ending), calls[first].at)
    ensures rows[n].status == (if calls[first].ending.Abandon? then SlipAbandoned else SlipPromoted) && !rows[n].Claimed() && ClaimedBy(rows[n].history) == []
  {
    hide ClaimedBy, Agree;
    BeforeTheFirst(rows, calls, first);
    if n == first + 1 {
      EndingReleases(rows[0], EndStatus(calls[first].ending), calls[first].at);
    } else {
      FirstEndingWins(rows, calls, first, n - 1);
    }
  }

  lemma {:induction false} BeforeTheFirst(rows: seq<Row>, calls: seq<Call>, n: nat)
    requires AreCalls(rows, calls) && n < |rows|
    requires forall i :: 0 <= i < n ==> !Lands(calls[i])
    ensures rows[n] == rows[0]
  {
    hide SetStatusRow;
    if n > 0 { BeforeTheFirst(rows, calls, n - 1); }
  }

  lemma EndingReleases(row: Row, status: SlipStatus, at: int)
    requires Agree(row) && status.IsTerminal()
    ensures var after := SetStatusRow(row, status, at);
            after.status == status && !after.Claimed() && ClaimedBy(after.history) == []
  {
    ClaimedByAfter(row.history, EndMarker(at));
  }

  /** What can happen to the slip's status: a completion check, or a call that ends it. */
  datatype Act =
    | Check(order: seq<string>, at: int, messages: map<string, string>, faults: Faults)
    | End(call: Call)

  ghost predicate Acts(row: Row, act: Act, after: Row) {
    match act
    case Check(order, at, messages, faults) => IsPass(row, order, at, messages, faults, after)
    case End(call) => after == EndRow(row, call.ending, call.loads, call.writes, call.at)
  }

  /** A completed, abandoned or promoted slip is final: no mix of completion checks and calls changes its row. */
  lemma {:induction false} FinalIsFinal(rows: seq<Row>, acts: seq<Act>, first: nat, n: nat)
    requires |rows| == |acts| + 1 && forall i :: 0 <= i < |acts| ==> Acts(rows[i], acts[i], rows[i + 1])
    requires first <= n < |rows| && rows[first].status in {SlipCompleted, SlipAbandoned, SlipPromoted}
    ensures rows[n] == rows[first]
  {
    if first < n {
      FinalIsFinal(rows, acts, first, n - 1);
      assert Acts(rows[n - 1], acts[n - 1], rows[n]);
      match acts[n - 1]
      case Check(order, at, messages, faults) =>
        BypassedIsNeverWritten(rows[n - 1], order, at, messages, faults, rows[n]);
      case End(_) =>
    }
  }

  // ---- the completion check after AbortStep and TimeoutStep ----

  /** AbortStep's write runs a completion check, and that check puts the step it has just aborted back to pending
      exactly when the slip was failed with no primary failure and no completed steady state and the reset lands. */
  lemma AbortedStepStaysExactlyWhen(row: Row, step: string, order: seq<string>, at: int, messages: map<string, string>,
                                    faults: Faults, after: Row)
    requires StepIs(row, step, Aborted) && IsPass(row, order, at, messages, faults, after)
    ensures StepIs(after, step, Aborted) <==> !(Recoverable(row) && ResetAccepted(row, step, faults))
    ensures !StepIs(after, step, Aborted) ==> StepIs(after, step, Pending)
  {
    hide ResetAccepted, PassRow, CanaryResets, CanaryMessages;
    PassMeans(row, order, at, messages, faults, after);
    AbortedIsTarget(row, step);
  }

  lemma AbortedIsTarget(row: Row, step: string)
    requires StepIs(row, step, Aborted)
    ensures step in Targets(row) <==> Recoverable(row)
  {
    assert step !in CanaryResets(row);
  }

  /** A timed-out step stays timed out, and the check marks the slip failed unless its status is already final for
      the check or the status write fails. */
  lemma TimedOutStepStays(row: Row, step: string, order: seq<string>, at: int, messages: map<string, string>,
                          faults: Faults, after: Row)
    requires StepIs(row, step, TimedOut) && IsPass(row, order, at, messages, faults, after)
    ensures StepIs(after, step, TimedOut)
    ensures after.status ==
            if row.status in {SlipCompleted, SlipAbandoned, SlipPromoted} || faults.statusWriteFails then row.status else SlipFailed
  {
    hide ResetAccepted, PassRow, Messages;
    assert PrimaryFailure(row);
    TargetsAreSteps(row);
    PassMeans(row, order, at, messages, faults, after);
  }
}

/** Pipeline completion: one pass of checkPipelineCompletion over a slip, with the resets it writes
    (slippy/executor.go). */
module Reconcile {
  import opened Status
  import opened Rows
  import opened Claim
  import opened ClaimProtocol

  const PROD_CANARY := "prod_canary"
  const PROD_STEADY_STATE := "prod_steady_state"
  const PROD_ALERT_GATE := "prod_alert_gate"
  const CANARY_SKIPPABLE := ["prod_deploy", "prod_tests", "prod_alert_gate"]
  const CANARY_SKIP_REASONS :=
    {"canary_abort", "timeout", "sync_failed", "watch_lost", "deploy_failed", "release_deadline_insufficient"}
  const ALERT_GATE_SKIP_PREFIX := "canary_not_promoted:"

  predicate IsCanarySkipReason(step: string, reason: string) {
    if step == PROD_ALERT_GATE then ALERT_GATE_SKIP_PREFIX <= reason else reason in CANARY_SKIP_REASONS
  }

  // ---- the latest entry of a step ----

  predicate OwnEntry(e: Entry, step: string) {
    e.step == step && e.component == ""
  }

  function Latest(history: seq<Entry>, step: string): (e: Option<Entry>)
    ensures e.Some? ==> OwnEntry(e.value, step) && e.value in history
  {
    if history == [] then None
    else
      var n := |history| - 1;
      if OwnEntry(history[n], step) then Some(history[n]) else Latest(history[..n], step)
  }

  method LatestStepEntry(history: seq<Entry>, step: string) returns (e: Option<Entry>)
    ensures e == Latest(history, step)
  {
    var n := |history|;
    assert history[..n] == history;
    while n > 0
      invariant 0 <= n <= |history|
      invariant Latest(history, step) == Latest(history[..n], step)
    {
      n := n - 1;
      assert history[..n + 1][..n] == history[..n];
      if OwnEntry(history[n], step) {
        return Some(history[n]);
      }
    }
    return None;
  }

  // ---- what a pass resets ----

  predicate StepIs(row: Row, step: string, status: StepStatus) {
    step in row.steps && row.steps[step] == status
  }

  /** The step is skipped, and its latest own entry is that skip, for a canary reason. */
  predicate StaleCanarySkip(row: Row, step: string) {
    && StepIs(row, step, Skipped)
    && var e := Latest(row.history, step);
    e.Some? && e.value.status.Skipped? && IsCanarySkipReason(step, e.value.message)
  }

  predicate CanarySucceeded(row: Row) {
    PROD_CANARY in row.steps && row.steps[PROD_CANARY].IsSuccess()
  }

  function CanaryResets(row: Row): set<string> {
    set s | s in CANARY_SKIPPABLE && CanarySucceeded(row) && StaleCanarySkip(row, s)
  }

  function Cascade(row: Row): set<string> {
    set s | s in row.steps && row.steps[s].Aborted?
  }

  predicate IsPrimary(s: StepStatus) {
    s.Failed? || s.Errored? || s.TimedOut?
  }

  predicate PrimaryFailure(row: Row) {
    exists s :: s in row.steps && IsPrimary(row.steps[s])
  }

  predicate SteadyStateDone(row: Row) {
    StepIs(row, PROD_STEADY_STATE, Completed)
  }

  /** canarySkipsToReset: each step with the reason it was skipped for. */
  method CanarySkipsToReset(row: Row) returns (resets: map<string, string>)
    ensures resets == map s | s in CanaryResets(row) :: ReasonOf(row, s)
  {
    resets := map[];
    if !CanarySucceeded(row) {
      return;
    }
    for i := 0 to |CANARY_SKIPPABLE|
      invariant resets == map s | s in CANARY_SKIPPABLE[..i] && StaleCanarySkip(row, s) :: ReasonOf(row, s)
    {
      var step := CANARY_SKIPPABLE[i];
      assert CANARY_SKIPPABLE[..i + 1] == CANARY_SKIPPABLE[..i] + [step];
      if !StepIs(row, step, Skipped) {
        continue;
      }
      var entry := LatestStepEntry(row.history, step);
      if entry.None? || !entry.value.status.Skipped? {
        continue;
      }
      if IsCanarySkipReason(step, entry.value.message) {
        resets := resets[step := entry.value.message];
      }
    }
    assert CANARY_SKIPPABLE[..|CANARY_SKIPPABLE|] == CANARY_SKIPPABLE;
  }

  // ---- one reset write ----

  /** What the store does during a pass: which reset writes fail outright (a name the store reserves always does),
      which steps' recorded states lie in the freshness window, and whether the slip status write fails. */
  datatype Faults = Faults(failing: set<string>, recent: set<string>, statusWriteFails: bool)

  function ResetEntry(step: string, at: int, message: string): Entry {
    Entry(step, "", Pending, at, LIBRARY_ACTOR, message)
  }

  predicate ResetAccepted(row: Row, step: string, faults: Faults) {
    step !in faults.failing && !FreshnessRefuses(row, EventKey(step, ""), Pending, step in faults.recent)
  }

  function ResetRow(row: Row, step: string, at: int, message: string, faults: Faults): Row {
    if ResetAccepted(row, step, faults) then
      row.(events := row.events[EventKey(step, "") := Pending],
           steps := row.steps[step := Pending],
           history := row.history + [ResetEntry(step, at, message)])
    else row
  }

  lemma RefusedResetChangesNothing(row: Row, step: string, at: int, message: string, faults: Faults)
    ensures !ResetAccepted(row, step, faults) ==> ResetRow(row, step, at, message, faults) == row
  {
  }

  /** The resets in the order the pass happens to write them. */
  function ResetAll(row: Row, order: seq<string>, at: int, messages: map<string, string>, faults: Faults): Row
    requires forall s :: s in order ==> s in messages
  {
    if order == [] then row
    else
      var n := |order| - 1;
      ResetRow(ResetAll(row, order[..n], at, messages, faults), order[n], at, messages[order[n]], faults)
  }

  ghost predicate Enumerates(order: seq<string>, of: set<string>) {
    && (forall s :: s in order <==> s in of)
    && (forall i, j :: 0 <= i < j < |order| ==> order[i] != order[j])
    && (of == {} ==> order == [])
  }

  lemma EnumeratesOnward(order: seq<string>, of: set<string>, s: string)
    requires Enumerates(order, of) && s !in of
    ensures Enumerates(order + [s], of + {s}) && s !in order
  {
  }

  lemma EnumeratedAreIn(order: seq<string>, of: set<string>)
    requires Enumerates(order, of)
    ensures forall s :: s in order ==> s in of
  {
  }

  lemma NothingToReset(row: Row, at: int, messages: map<string, string>, faults: Faults)
    ensures ResetAll(row, [], at, messages, faults) == row && Enumerates([], {})
  {
  }

  /** The steps whose reset the store turned down. */
  ghost function Refused(row: Row, of: set<string>, faults: Faults): set<string> {
    set s | s in of && !ResetAccepted(row, s, faults)
  }

  // ---- the pass ----

  datatype CompletionError = SlipNotFound | StatusUpdateFailed

  predicate Bypassed(status: SlipStatus) {
    status.SlipCompleted? || status.SlipAbandoned? || status.SlipPromoted?
  }

  function CanaryMessages(row: Row): map<string, string> {
    map s | s in CanaryResets(row) :: "reset: canary retried after " + ReasonOf(row, s)
  }

  function CascadeMessages(row: Row): map<string, string> {
    map s | s in Cascade(row) :: "reset: upstream failure resolved"
  }

  /** The steps a pass over row tries to reset. */
  function Targets(row: Row): set<string> {
    if Bypassed(row.status) then {}
    else if PrimaryFailure(row) then CanaryResets(row)
    else if SteadyStateDone(row) then {}
    else if row.status.SlipFailed? then CanaryResets(row) + Cascade(row)
    else CanaryResets(row)
  }

  lemma TargetsAreSteps(row: Row)
    ensures forall s :: s in Targets(row) ==> s in row.steps && (row.steps[s].Skipped? || row.steps[s].Aborted?)
  {
  }

  /** What the pass writes beside each reset. */
  function Messages(row: Row): (m: map<string, string>)
    ensures m.Keys == Targets(row)
  {
    map s | s in Targets(row) ::
      if s in Cascade(row) then "reset: upstream failure resolved"
      else "reset: canary retried after " + ReasonOf(row, s)
  }

  function ReasonOf(row: Row, step: string): string {
    var e := Latest(row.history, step);
    if e.Some? then e.value.message else ""
  }

  /** The status a pass writes after its resets, if any. */
  ghost function StatusToWrite(row: Row, faults: Faults): Option<SlipStatus> {
    if Bypassed(row.status) then None
    else if PrimaryFailure(row) then Some(SlipFailed)
    else if SteadyStateDone(row) then Some(SlipCompleted)
    else if row.status.SlipFailed? && Refused(row, Targets(row), faults) == {} then Some(SlipInProgress)
    else None
  }

  ghost function PassRow(row: Row, order: seq<string>, at: int, messages: map<string, string>, faults: Faults): Row
    requires forall s :: s in order ==> s in messages
  {
    var reset := ResetAll(row, order, at, messages, faults);
    var status := StatusToWrite(row, faults);
    if status.Some? && !faults.statusWriteFails then SetStatusRow(reset, status.value, at) else reset
  }

  lemma CascadeMessagesAre(row: Row)
    ensures CascadeMessages(row) == map s | s in Cascade(row) :: "reset: upstream failure resolved"
  {
  }

  lemma CompletedIsBypassed()
    ensures Bypassed(SlipCompleted)
  {
  }

  lemma PrimaryMeans(row: Row)
    ensures PrimaryFailure(row) <==> exists s :: s in row.steps && row.steps[s].IsFailure() && row.steps[s] != Aborted
    ensures SteadyStateDone(row) <==> "prod_steady_state" in row.steps && row.steps["prod_steady_state"] == Completed
    ensures Bypassed(row.status) <==> row.status in {SlipCompleted, SlipAbandoned, SlipPromoted}
  {
  }

  lemma WrittenStatusIs(row: Row, faults: Faults)
    ensures var write := StatusToWrite(row, faults);
            if Bypassed(row.status) then write == None
            else if PrimaryFailure(row) then write == Some(SlipFailed)
            else if SteadyStateDone(row) then write == Some(SlipCompleted)
            else write == None || (row.status == SlipFailed && write == Some(SlipInProgress))
  {
  }

  /** The branches of a pass. */
  lemma PassCases(row: Row, faults: Faults)
    ensures Bypassed(row.status) ==> Messages(row) == map[] && Targets(row) == {} && StatusToWrite(row, faults) == None
    ensures !Bypassed(row.status) && PrimaryFailure(row) ==>
              Messages(row) == CanaryMessages(row) && StatusToWrite(row, faults) == Some(SlipFailed)
    ensures !Bypassed(row.status) && !PrimaryFailure(row) && SteadyStateDone(row) ==>
              Messages(row) == map[] && Targets(row) == {} && StatusToWrite(row, faults) == Some(SlipCompleted)
    ensures !Bypassed(row.status) && !PrimaryFailure(row) && !SteadyStateDone(row) && row.status.SlipFailed? ==>
              && Messages(row) == CanaryMessages(row) + CascadeMessages(row)
              && StatusToWrite(row, faults) == if Refused(row, Targets(row), faults) == {} then Some(SlipInProgress) else None
    ensures !Bypassed(row.status) && !PrimaryFailure(row) && !SteadyStateDone(row) && !row.status.SlipFailed? ==>
              Messages(row) == CanaryMessages(row) && StatusToWrite(row, faults) == None
  {
  }

  class Completion {
    var row: Row

    constructor (row: Row)
      ensures this.row == row
    {
      this.row := row;
    }

    /** resetStepsToPending, over the map in any order. */
    method ResetStepsToPending(resets: map<string, string>, at: int, faults: Faults)
      returns (failures: seq<string>, ghost order: seq<string>)
      modifies this
      ensures Enumerates(order, resets.Keys)
      ensures row == ResetAll(old(row), order, at, resets, faults)
      ensures forall s :: s in failures <==> s in Refused(old(row), resets.Keys, faults)
    {
      hide ResetAccepted, ResetRow, Enumerates;
      failures, order := [], [];
      NothingToReset(row, at, resets, faults);
      assert resets.Keys - resets.Keys == {};
      var rest := resets.Keys;
      while rest != {}
        invariant rest <= resets.Keys && Enumerates(order, resets.Keys - rest)
        invariant forall s :: s in order ==> s in resets
        invariant row == ResetAll(old(row), order, at, resets, faults)
        invariant forall s :: s in failures <==> s in Refused(old(row), resets.Keys - rest, faults)
        decreases rest
      {
        var step :| step in rest;
        EnumeratesOnward(order, resets.Keys - rest, step);
        EnumeratedAreIn(order, resets.Keys - rest);
        AcceptedAsAtFirst(old(row), order, at, resets, faults, step);
        ghost var before := order;
        order := order + [step];
        assert order[..|before|] == before;
        assert resets.Keys - (rest - {step}) == resets.Keys - rest + {step};
        rest := rest - {step};
        RefusedResetChangesNothing(row, step, at, resets[step], faults);
        if ResetAccepted(row, step, faults) {
          row := ResetRow(row, step, at, resets[step], faults);
        } else {
          failures := failures + [step];
        }
      }
      assert resets.Keys - {} == resets.Keys;
    }

    method UpdateSlipStatus(status: SlipStatus, at: int, faults: Faults) returns (ok: bool)
      modifies this
      ensures ok <==> !faults.statusWriteFails
      ensures row == if ok then SetStatusRow(old(row), status, at) else old(row)
    {
      ok := !faults.statusWriteFails;
      if ok {
        row := SetStatusRow(row, status, at);
      }
    }

    /** checkPipelineCompletion: a slip that cannot be loaded is left alone. */
    method CheckPipelineCompletion(loads: bool, at: int, faults: Faults)
      returns (completed: bool, status: SlipStatus, err: Option<CompletionError>, ghost order: seq<string>)
      modifies this
      ensures !loads ==> row == old(row) && !completed && status.SlipUnset? && err == Some(SlipNotFound)
      ensures loads ==> Enumerates(order, Targets(old(row))) && row == PassRow(old(row), order, at, Messages(old(row)), faults)
      ensures loads ==>
                var failing := exists s :: s in old(row).steps && old(row).steps[s].IsFailure() && old(row).steps[s] != Aborted;
                var steady := "prod_steady_state" in old(row).steps && old(row).steps["prod_steady_state"] == Completed;
                if old(row).status in {SlipCompleted, SlipAbandoned, SlipPromoted} then
                  completed == (old(row).status == SlipCompleted) && status == old(row).status && err == None
                else if failing then !completed && status == SlipFailed && (err == None <==> !faults.statusWriteFails)
                else if steady then completed && status == SlipCompleted && (err == None <==> !faults.statusWriteFails)
                else !completed && (old(row).status != SlipFailed ==> status == old(row).status && err == None)
    {
      if !loads {
        return false, SlipUnset, Some(SlipNotFound), [];
      }
      ghost var slip := row;
      completed, status, err, order := EvaluateLoaded(at, faults);
      PrimaryMeans(slip);
      WrittenStatusIs(slip, faults);
    }

    /** The pass over the loaded slip: the row it leaves, and what the caller is told. */
    method EvaluateLoaded(at: int, faults: Faults)
      returns (completed: bool, status: SlipStatus, err: Option<CompletionError>, ghost order: seq<string>)
      modifies this
      ensures Enumerates(order, Targets(old(row))) && row == PassRow(old(row), order, at, Messages(old(row)), faults)
      ensures completed <==> old(row).status.SlipCompleted?
                             || (!Bypassed(old(row).status) && !PrimaryFailure(old(row)) && SteadyStateDone(old(row)))
      ensures err.Some? <==> StatusToWrite(old(row), faults).Some? && faults.statusWriteFails
      ensures var write := StatusToWrite(old(row), faults); status == if write.Some? then write.value else old(row).status
    {
      hide CanaryResets, ResetAccepted, SetStatusRow, PrimaryFailure, ResetAll, Latest, Messages, StatusToWrite, Refused, Enumerates,
        CanarySucceeded, CascadeMessages, Bypassed, StaleCanarySkip, OwnEntry, IsCanarySkipReason, FreshnessRefuses, Cascade, Targets;
      err := None;
      var slip := row;
      NothingToReset(slip, at, Messages(slip), faults);
      PassCases(slip, faults);
      order := [];
      assert slip.status.SlipCompleted? ==> Bypassed(slip.status) by { CompletedIsBypassed(); }
      if Bypassed(slip.status) {
        return slip.status.SlipCompleted?, slip.status, None, [];
      }
      var primary, cascade := Classify(slip);
      var reasons := CanarySkipsToReset(slip);
      var resets := map s | s in reasons :: "reset: canary retried after " + reasons[s];
      assert resets == CanaryMessages(slip);
      if primary != {} {
        var _, reset := ResetStepsToPending(resets, at, faults);
        var ok := UpdateSlipStatus(SlipFailed, at, faults);
        return false, SlipFailed, if ok then None else Some(StatusUpdateFailed), reset;
      }
      if PROD_STEADY_STATE in slip.steps && slip.steps[PROD_STEADY_STATE].Completed? {
        var ok := UpdateSlipStatus(SlipCompleted, at, faults);
        return true, SlipCompleted, if ok then None else Some(StatusUpdateFailed), [];
      }
      if slip.status.SlipFailed? {
        assert CascadeMessages(slip) == map s | s in cascade :: "reset: upstream failure resolved" by { CascadeMessagesAre(slip); }
        resets := resets + map s | s in cascade :: "reset: upstream failure resolved";
        var failures, reset := ResetStepsToPending(resets, at, faults);
        if |failures| > 0 {
          assert failures[0] in failures;
          return false, SlipFailed, None, reset;
        }
        assert Refused(slip, resets.Keys, faults) == {};
        var ok := UpdateSlipStatus(SlipInProgress, at, faults);
        return false, SlipInProgress, if ok then None else Some(StatusUpdateFailed), reset;
      }
      var _, reset := ResetStepsToPending(resets, at, faults);
      return false, slip.status, None, reset;
    }

    /** The failure lists. */
    static method Classify(slip: Row) returns (primary: set<string>, cascade: set<string>)
      ensures primary == (set s | s in slip.steps && IsPrimary(slip.steps[s]))
      ensures primary != {} <==> PrimaryFailure(slip)
      ensures cascade == Cascade(slip)
    {
      primary, cascade := {}, {};
      var rest := slip.steps.Keys;
      while rest != {}
        invariant rest <= slip.steps.Keys
        invariant primary == set s | s in slip.steps.Keys - rest && IsPrimary(slip.steps[s])
        invariant cascade == set s | s in slip.steps.Keys - rest && slip.steps[s].Aborted?
        decreases rest
      {
        var step :| step in rest;
        rest := rest - {step};
        match slip.steps[step] {
          case Failed | Errored | TimedOut => primary := primary + {step};
          case Aborted => cascade := cascade + {step};
          case _ =>
        }
      }
      if s :| s in slip.steps && IsPrimary(slip.steps[s]) {
        assert s in primary;
      }
    }
  }

  // ---- the resets taken together ----

  /** A reset does not change whether another step's is accepted. */
  lemma {:induction false} AcceptedAsAtFirst(row: Row, order: seq<string>, at: int, messages: map<string, string>,
                                             faults: Faults, step: string)
    requires (forall s :: s in order ==> s in messages) && step !in order
    ensures ResetAccepted(ResetAll(row, order, at, messages, faults), step, faults) <==> ResetAccepted(row, step, faults)
    decreases |order|
  {
    if order != [] {
      AcceptedAsAtFirst(row, order[..|order| - 1], at, messages, faults, step);
    }
  }

  /** Whatever the order, the resets leave exactly the accepted targets pending and touch nothing else. */
  lemma {:induction false} ResetAllMeans(row: Row, order: seq<string>, at: int, messages: map<string, string>,
                                         faults: Faults)
    requires forall s :: s in order ==> s in messages
    requires forall i, j :: 0 <= i < j < |order| ==> order[i] != order[j]
    requires forall s :: s in order ==> s in row.steps
    ensures var after := ResetAll(row, order, at, messages, faults);
            && after.status == row.status && after.claimedFrom == row.claimedFrom && after.aggregates == row.aggregates
            && after.steps == (map s | s in row.steps :: if s in order && ResetAccepted(row, s, faults) then Pending else row.steps[s])
            && row.history <= after.history
  {
    hide ResetAccepted;
    if order != [] {
      var n := |order| - 1;
      var before := order[..n];
      assert order == before + [order[n]];
      ResetAllMeans(row, before, at, messages, faults);
      AcceptedAsAtFirst(row, before, at, messages, faults, order[n]);
    }
  }
}

/** What passes of checkPipelineCompletion guarantee, for every order of their resets and every set of refused
    writes (slippy/executor.go, slippy/prereqs.go). */
module ReconcileFacts {
  import opened Status
  import opened Aggregate
  import opened Rows
  import opened Claim
  import opened ClaimProtocol
  import opened Prereqs
  import opened Reconcile

  // ---- one pass ----

  lemma SetStatusRowFrame(row: Row, status: SlipStatus, at: int)
    ensures var after := SetStatusRow(row, status, at);
            && after.status == status && after.steps == row.steps && after.aggregates == row.aggregates
            && row.history <= after.history
  {
  }

  ghost predicate IsPass(row: Row, order: seq<string>, at: int, messages: map<string, string>, faults: Faults,
                         after: Row) {
    Enumerates(order, Targets(row)) && messages.Keys == Targets(row) && after == PassRow(row, order, at, messages, faults)
  }

  /** Whatever the order: the accepted targets become pending, every other step and all components stay, and the
      history only grows. */
  lemma PassMeans(row: Row, order: seq<string>, at: int, messages: map<string, string>, faults: Faults, after: Row)
    requires IsPass(row, order, at, messages, faults, after)
    ensures after.steps == map s | s in row.steps :: if s in Targets(row) && ResetAccepted(row, s, faults) then Pending else row.steps[s]
    ensures after.aggregates == row.aggregates && row.history <= after.history
    ensures var w := StatusToWrite(row, faults); after.status == if w.Some? && !faults.statusWriteFails then w.value else row.status
  {
    hide ResetAccepted, Messages, StatusToWrite, ResetAll, SetStatusRow;
    TargetsAreSteps(row);
    ResetAllMeans(row, order, at, messages, faults);
    var w := StatusToWrite(row, faults);
    if w.Some? {
      SetStatusRowFrame(ResetAll(row, order, at, messages, faults), w.value, at);
    }
  }

  /** The slip's status after a pass whose status write lands, from the steps' own statuses: failed as soon as some step
      has failed and is not merely aborted, else completed once prod_steady_state is; else a failed slip is back in
      progress exactly when every reset was accepted, and any other keeps its status. */
  lemma SlipStatusAfterPass(row: Row, order: seq<string>, at: int, messages: map<string, string>, faults: Faults, after: Row)
    requires IsPass(row, order, at, messages, faults, after) && !faults.statusWriteFails
    requires row.status !in {SlipCompleted, SlipAbandoned, SlipPromoted}
    ensures var failing := exists s :: s in row.steps && row.steps[s].IsFailure() && row.steps[s] != Aborted;
            var steady := "prod_steady_state" in row.steps && row.steps["prod_steady_state"] == Completed;
            && (failing ==> after.status == SlipFailed)
            && (!failing && steady ==> after.status == SlipCompleted)
            && (!failing && !steady && row.status != SlipFailed ==> after.status == row.status)
            && (!failing && !steady && row.status == SlipFailed ==>
                  after.status == if forall s :: s in Targets(row) ==> ResetAccepted(row, s, faults) then SlipInProgress else SlipFailed)
  {
    hide ResetAccepted, PassRow, CanaryResets;
    PassMeans(row, order, at, messages, faults, after);
    assert PrimaryFailure(row) <==> exists s :: s in row.steps && row.steps[s].IsFailure() && row.steps[s] != Aborted;
    NoneRefused(row, faults);
  }

  lemma NoneRefused(row: Row, faults: Faults)
    ensures Refused(row, Targets(row), faults) == {} <==> forall s :: s in Targets(row) ==> ResetAccepted(row, s, faults)
  {
    hide Targets, ResetAccepted;
    if s :| s in Targets(row) && !ResetAccepted(row, s, faults) {
      assert s in Refused(row, Targets(row), faults);
    }
  }

  /** A pass turns a slip failed, completed or in progress only for these reasons, whatever its writes do. */
  lemma StatusChangesOnlyFor(row: Row, order: seq<string>, at: int, messages: map<string, string>, faults: Faults, after: Row)
    requires IsPass(row, order, at, messages, faults, after) && after.status != row.status
    ensures var failing := exists s :: s in row.steps && row.steps[s].IsFailure() && row.steps[s] != Aborted;
            var steady := "prod_steady_state" in row.steps && row.steps["prod_steady_state"] == Completed;
            && row.status !in {SlipCompleted, SlipAbandoned, SlipPromoted} && !faults.statusWriteFails
            && match after.status
               case SlipFailed => failing
               case SlipCompleted => !failing && steady
               case SlipInProgress => !failing && !steady && row.status == SlipFailed
               case _ => false
  {
    hide ResetAccepted, PassRow, CanaryResets;
    PassMeans(row, order, at, messages, faults, after);
    assert PrimaryFailure(row) <==> exists s :: s in row.steps && row.steps[s].IsFailure() && row.steps[s] != Aborted;
  }

  /** The step's own last entry is a skip for a reason a canary writer gives. */
  ghost predicate SkippedForCanary(history: seq<Entry>, step: string) {
    exists i ::
      && 0 <= i < |history| && history[i].step == step && history[i].component == "" && history[i].status == Skipped
      && (forall j :: i < j < |history| ==> !(history[j].step == step && history[j].component == ""))
      && GivesCanaryReason(step, history[i].message)
  }

  predicate GivesCanaryReason(step: string, reason: string) {
    if step == "prod_alert_gate" then "canary_not_promoted:" <= reason
    else reason in {"canary_abort", "timeout", "sync_failed", "watch_lost", "deploy_failed", "release_deadline_insufficient"}
  }

  /** Which steps a pass tries to put back to pending: on a slip that is not final, the aborted ones once a failed slip
      has nothing left that failed on its own, and the canary's skips once prod_canary has succeeded; none when the pass
      completes the slip. */
  lemma TargetsMean(row: Row, s: string)
    ensures s in Targets(row) <==>
            var failing := exists x :: x in row.steps && row.steps[x].IsFailure() && row.steps[x] != Aborted;
            var steady := "prod_steady_state" in row.steps && row.steps["prod_steady_state"] == Completed;
            && row.status !in {SlipCompleted, SlipAbandoned, SlipPromoted} && s in row.steps && (failing || !steady)
            && ( || (row.steps[s] == Aborted && row.status == SlipFailed && !failing)
                 || (&& s in ["prod_deploy", "prod_tests", "prod_alert_gate"] && row.steps[s] == Skipped
                     && "prod_canary" in row.steps && row.steps["prod_canary"] in {Completed, Skipped}
                     && SkippedForCanary(row.history, s)))
  {
    hide Latest, IsCanarySkipReason, SkippedForCanary;
    assert PrimaryFailure(row) <==> exists x :: x in row.steps && row.steps[x].IsFailure() && row.steps[x] != Aborted;
    StaleSkipMeans(row.history, s);
  }

  lemma StaleSkipMeans(history: seq<Entry>, s: string)
    ensures SkippedForCanary(history, s) <==>
            var e := Latest(history, s); e.Some? && e.value.status.Skipped? && IsCanarySkipReason(s, e.value.message)
  {
    ReasonIsGiven(s);
    hide IsCanarySkipReason, GivesCanaryReason, Latest;
    var last := LatestIsLast(history, s);
    if i :| && 0 <= i < |history| && OwnEntry(history[i], s) && forall j :: i < j < |history| ==> !OwnEntry(history[j], s) {
      assert last == i;
    }
  }

  lemma ReasonIsGiven(s: string)
    ensures forall reason :: IsCanarySkipReason(s, reason) <==> GivesCanaryReason(s, reason)
  {
  }

  /** Where the latest own entry stands, -1 when there is none. */
  lemma {:induction false} LatestIsLast(history: seq<Entry>, s: string) returns (i: int)
    ensures -1 <= i < |history| && (i == -1 <==> Latest(history, s).None?)
    ensures i >= 0 ==> Latest(history, s) == Some(history[i]) && OwnEntry(history[i], s)
    ensures forall j :: i < j < |history| ==> !OwnEntry(history[j], s)
  {
    hide OwnEntry;
    if history == [] {
      i := -1;
    } else {
      var n := |history| - 1;
      if OwnEntry(history[n], s) {
        i := n;
      } else {
        i := LatestIsLast(history[..n], s);
        forall j | i < j < |history| ensures !OwnEntry(history[j], s) {
          if j < n { assert history[..n][j] == history[j]; }
        }
      }
    }
  }

  /** Which resets the store accepts. */
  lemma ResetIsAcceptedExactlyWhen(row: Row, s: string, faults: Faults)
    ensures ResetAccepted(row, s, faults) <==>
            && s !in faults.failing
            && !(&& s in faults.recent && s != "push_parsed" && EventKey(s, "") in row.events
                 && row.events[EventKey(s, "")] in {Completed, Skipped, Failed, Errored, TimedOut})
  {
  }

  /** A completed, abandoned or promoted slip is never written. */
  lemma BypassedIsNeverWritten(row: Row, order: seq<string>, at: int, messages: map<string, string>, faults: Faults,
                               after: Row)
    requires IsPass(row, order, at, messages, faults, after) && row.status in {SlipCompleted, SlipAbandoned, SlipPromoted}
    ensures after == row
  {
    assert Targets(row) == {};
  }

  /** Of the terminal statuses only compensated can be overwritten, and exactly when a primary failure or a
      completed steady state is there to report and the write succeeds. */
  lemma TerminalStatusOverwrittenExactlyWhen(row: Row, order: seq<string>, at: int, messages: map<string, string>,
                                             faults: Faults, after: Row)
    requires IsPass(row, order, at, messages, faults, after) && row.status.IsTerminal()
    ensures after.status != row.status <==>
            && row.status.SlipCompensated? && !faults.statusWriteFails
            && ( || (exists s :: s in row.steps && row.steps[s].IsFailure() && row.steps[s] != Aborted)
                 || ("prod_steady_state" in row.steps && row.steps["prod_steady_state"] == Completed))
  {
    PassMeans(row, order, at, messages, faults, after);
    assert PrimaryFailure(row) <==> exists s :: s in row.steps && row.steps[s].IsFailure() && row.steps[s] != Aborted;
  }

  // ---- recovery of a failed slip ----

  /** Failed, with nothing left that failed on its own and no completed steady state. */
  ghost predicate Recoverable(row: Row) {
    row.status.SlipFailed? && !PrimaryFailure(row) && !SteadyStateDone(row)
  }

  /** When every reset lands and the status write succeeds, the slip is in progress and no step is aborted. */
  lemma FullPassRecovers(row: Row, order: seq<string>, at: int, messages: map<string, string>, faults: Faults,
                         after: Row)
    requires IsPass(row, order, at, messages, faults, after) && Recoverable(row)
    requires Refused(row, Targets(row), faults) == {} && !faults.statusWriteFails
    ensures after.status.SlipInProgress? && Cascade(after) == {} && CanaryResets(after) == {}
  {
    hide ResetAccepted;
    PassMeans(row, order, at, messages, faults, after);
    forall s | s in row.steps && row.steps[s].Aborted? ensures after.steps[s] == Pending {
      assert s in Targets(row) && s !in Refused(row, Targets(row), faults);
    }
    forall s | s in CANARY_SKIPPABLE ensures !(StaleCanarySkip(after, s) && CanarySucceeded(after)) {
      SettledSkipStaysSettled(row, order, at, messages, faults, after, s);
    }
  }

  lemma LatestOnward(history: seq<Entry>, e: Entry, step: string)
    ensures Latest(history + [e], step) == if OwnEntry(e, step) then Some(e) else Latest(history, step)
  {
    assert (history + [e])[..|history|] == history;
  }

  /** A step that is not reset by the pass has the same latest entry as before. */
  lemma {:induction false} LatestUnchanged(row: Row, order: seq<string>, at: int, messages: map<string, string>,
                                           faults: Faults, step: string)
    requires (forall s :: s in order ==> s in messages)
    requires step !in order || !ResetAccepted(row, step, faults)
    requires forall i, j :: 0 <= i < j < |order| ==> order[i] != order[j]
    ensures Latest(ResetAll(row, order, at, messages, faults).history, step) == Latest(row.history, step)
  {
    hide ResetAccepted, Latest;
    if order != [] {
      var n := |order| - 1;
      LatestUnchanged(row, order[..n], at, messages, faults, step);
      AcceptedAsAtFirst(row, order[..n], at, messages, faults, order[n]);
      var before := ResetAll(row, order[..n], at, messages, faults).history;
      LatestOnward(before, ResetEntry(order[n], at, messages[order[n]]), step);
    }
  }

  /** The pass's own status write appends at most a release marker, which is no step's entry. */
  lemma StatusWriteKeepsLatest(row: Row, status: SlipStatus, at: int, step: string)
    requires step != RELEASE_MARKER
    ensures Latest(SetStatusRow(row, status, at).history, step) == Latest(row.history, step)
  {
    hide Latest;
    LatestOnward(row.history, EndMarker(at), step);
  }

  lemma PassKeepsLatest(row: Row, order: seq<string>, at: int, messages: map<string, string>, faults: Faults,
                        after: Row, step: string)
    requires IsPass(row, order, at, messages, faults, after) && step != RELEASE_MARKER
    requires step !in Targets(row) || !ResetAccepted(row, step, faults)
    ensures Latest(after.history, step) == Latest(row.history, step)
  {
    hide ResetAccepted, Latest, Messages, SetStatusRow, ResetAll;
    LatestUnchanged(row, order, at, messages, faults, step);
    var reset := ResetAll(row, order, at, messages, faults);
    var w := StatusToWrite(row, faults);
    if w.Some? {
      StatusWriteKeepsLatest(reset, w.value, at, step);
    }
  }

  lemma SkippableIsNoMarker(step: string)
    requires step in CANARY_SKIPPABLE
    ensures step != RELEASE_MARKER && step != PROD_CANARY
  {
    assert |RELEASE_MARKER| == 13 && |"prod_deploy"| == 11 && |"prod_tests"| == 10 && |"prod_alert_gate"| == 15
           && |PROD_CANARY| == 11 && "prod_deploy"[5] == 'd' && PROD_CANARY[5] == 'c';
  }

  /** After a full pass over a recoverable slip a step whose skip was not stale, or whose stale skip was reset, is
      not up for a canary reset. */
  lemma SettledSkipStaysSettled(row: Row, order: seq<string>, at: int, messages: map<string, string>, faults: Faults,
                                after: Row, step: string)
    requires IsPass(row, order, at, messages, faults, after) && Recoverable(row)
    requires Refused(row, Targets(row), faults) == {} && step in CANARY_SKIPPABLE
    ensures !(StaleCanarySkip(after, step) && CanarySucceeded(after))
  {
    hide ResetAccepted, Latest;
    PassMeans(row, order, at, messages, faults, after);
    SkippableIsNoMarker(step);
    if step in Targets(row) {
      assert step !in Refused(row, Targets(row), faults);
      assert step in after.steps && after.steps[step] == Pending;
    } else {
      PassKeepsLatest(row, order, at, messages, faults, after, step);
      assert step in row.steps <==> step in after.steps;
      assert CanarySucceeded(after) ==> CanarySucceeded(row);
    }
  }

  /** No pass makes a primary failure or completes the steady state. */
  lemma PassAddsNoFailure(row: Row, order: seq<string>, at: int, messages: map<string, string>, faults: Faults,
                          after: Row)
    requires IsPass(row, order, at, messages, faults, after)
    ensures PrimaryFailure(after) ==> PrimaryFailure(row)
    ensures SteadyStateDone(after) ==> SteadyStateDone(row)
  {
    hide ResetAccepted, Targets, StatusToWrite, PassRow, IsPass;
    PassMeans(row, order, at, messages, faults, after);
    if s :| s in after.steps && IsPrimary(after.steps[s]) {
      assert s in row.steps && IsPrimary(row.steps[s]);
    }
  }

  lemma RecoverableTargets(row: Row)
    requires Recoverable(row)
    ensures Targets(row) == CanaryResets(row) + Cascade(row)
    ensures forall s :: s in CanaryResets(row) ==> StepIs(row, s, Skipped)
  {
  }

  /** When a reset is refused the slip stays failed: exactly the refused cascade resets stay aborted, and exactly the
      refused canary resets stay skipped. */
  lemma RefusedPassStaysFailed(row: Row, order: seq<string>, at: int, messages: map<string, string>, faults: Faults,
                               after: Row)
    requires IsPass(row, order, at, messages, faults, after) && Recoverable(row)
    requires Refused(row, Targets(row), faults) != {}
    ensures Recoverable(after)
    ensures Cascade(after) == Refused(row, Cascade(row), faults)
    ensures forall s :: s in CanaryResets(row) ==>
              StepIs(after, s, if s in Refused(row, CanaryResets(row), faults) then Skipped else Pending)
  {
    hide ResetAccepted, PassRow, IsPass, CanaryResets, Messages, PrimaryFailure, SteadyStateDone, Targets;
    PassMeans(row, order, at, messages, faults, after);
    PassAddsNoFailure(row, order, at, messages, faults, after);
    RecoverableTargets(row);
  }

  /** A failed status write alone also leaves the slip recoverable, with nothing aborted any more. */
  lemma FailedStatusWriteStaysRecoverable(row: Row, order: seq<string>, at: int, messages: map<string, string>,
                                          faults: Faults, after: Row)
    requires IsPass(row, order, at, messages, faults, after) && Recoverable(row)
    requires Refused(row, Targets(row), faults) == {} && faults.statusWriteFails
    ensures Recoverable(after) && Cascade(after) == {}
  {
    hide ResetAccepted, PassRow, IsPass, CanaryResets, Messages, PrimaryFailure, SteadyStateDone, Targets;
    PassMeans(row, order, at, messages, faults, after);
    PassAddsNoFailure(row, order, at, messages, faults, after);
    RecoverableTargets(row);
    forall s | s in row.steps && row.steps[s].Aborted? ensures after.steps[s] == Pending {
      assert s in Targets(row) && s !in Refused(row, Targets(row), faults);
    }
  }

  // ---- repeated passes ----

  datatype Pass = Pass(order: seq<string>, at: int, messages: map<string, string>, faults: Faults)

  ghost predicate ArePasses(rows: seq<Row>, passes: seq<Pass>) {
    && |rows| == |passes| + 1
    && forall i :: 0 <= i < |passes| ==> IsPass(rows[i], passes[i].order, passes[i].at, passes[i].messages, passes[i].faults, rows[i + 1])
  }

  ghost predicate Succeeds(row: Row, faults: Faults) {
    Refused(row, Targets(row), faults) == {} && !faults.statusWriteFails
  }

  lemma PassRecoversOrStaysRecoverable(row: Row, order: seq<string>, at: int, messages: map<string, string>,
                                       faults: Faults, after: Row)
    requires IsPass(row, order, at, messages, faults, after) && Recoverable(row)
    ensures if Succeeds(row, faults) then after.status.SlipInProgress? && Cascade(after) == {}
            else Recoverable(after) && Cascade(after) <= Cascade(row)
  {
    hide Recoverable, PassRow, Targets;
    if Succeeds(row, faults) {
      FullPassRecovers(row, order, at, messages, faults, after);
    } else if Refused(row, Targets(row), faults) == {} {
      FailedStatusWriteStaysRecoverable(row, order, at, messages, faults, after);
    } else {
      RefusedPassStaysFailed(row, order, at, messages, faults, after);
    }
  }

  /** Passes over a recoverable slip, whatever fails in them: as long as none has succeeded it stays recoverable with
      no new aborted step, and the first that succeeds puts it in progress with none at all. */
  lemma {:induction false} PassesConverge(rows: seq<Row>, passes: seq<Pass>, n: nat)
    requires ArePasses(rows, passes) && Recoverable(rows[0]) && n < |passes|
    requires forall i :: 0 <= i < n ==> !Succeeds(rows[i], passes[i].faults)
    ensures Recoverable(rows[n]) && Cascade(rows[n]) <= Cascade(rows[0])
    ensures Succeeds(rows[n], passes[n].faults) ==> rows[n + 1].status.SlipInProgress? && Cascade(rows[n + 1]) == {}
  {
    hide Recoverable, IsPass, Succeeds, Cascade;
    if n > 0 {
      PassesConverge(rows, passes, n - 1);
      var p := passes[n - 1];
      PassRecoversOrStaysRecoverable(rows[n - 1], p.order, p.at, p.messages, p.faults, rows[n]);
    }
    var p := passes[n];
    PassRecoversOrStaysRecoverable(rows[n], p.order, p.at, p.messages, p.faults, rows[n + 1]);
  }

  // ---- a reset never unblocks work ----

  lemma StatusAfterPass(cfg: Option<Lookup>, row: Row, order: seq<string>, at: int, messages: map<string, string>,
                        faults: Faults, after: Row, prereq: string, component: string)
    requires IsPass(row, order, at, messages, faults, after)
    ensures StatusOf(cfg, after, prereq, component) == StatusOf(cfg, row, prereq, component)
            || StatusOf(cfg, after, prereq, component).Pending?
  {
    hide ResetAccepted, Targets, PassRow, StatusToWrite;
    PassMeans(row, order, at, messages, faults, after);
  }

  /** If a step's prerequisites are completed after a pass they were completed before it. */
  lemma PassNeverUnblocks(cfg: Option<Lookup>, row: Row, order: seq<string>, at: int, messages: map<string, string>,
                          faults: Faults, after: Row,
                          prereqs: seq<string>, component: string)
    requires IsPass(row, order, at, messages, faults, after)
    requires Verdict(cfg, after, prereqs, component) == PrereqCompleted
    ensures Verdict(cfg, row, prereqs, component) == PrereqCompleted
  {
    hide IsPass, StatusOf, Names;
    forall p | p in Names(prereqs) ensures StatusOf(cfg, row, p, component).IsSuccess() {
      StatusAfterPass(cfg, row, order, at, messages, faults, after, p, component);
      assert StatusOf(cfg, after, p, component).IsSuccess();
    }
  }

  // ---- a canary skip is reset once ----

  lemma {:induction false} LatestOfMore(history: seq<Entry>, more: seq<Entry>, step: string)
    ensures Latest(history + more, step) == if Latest(more, step).Some? then Latest(more, step) else Latest(history, step)
  {
    if more == [] {
      assert history + more == history;
    } else {
      var n := |more| - 1;
      assert history + more == (history + more[..n]) + [more[n]];
      assert (history + more)[..|history| + n] == history + more[..n];
      LatestOfMore(history, more[..n], step);
    }
  }

  lemma {:induction false} ResetIsLatest(row: Row, order: seq<string>, at: int, messages: map<string, string>,
                                         faults: Faults, step: string)
    requires (forall s :: s in order ==> s in messages) && step in order && ResetAccepted(row, step, faults)
    requires forall i, j :: 0 <= i < j < |order| ==> order[i] != order[j]
    ensures Latest(ResetAll(row, order, at, messages, faults).history, step) == Some(ResetEntry(step, at, messages[step]))
  {
    hide ResetAccepted, Latest;
    var n := |order| - 1;
    assert order == order[..n] + [order[n]];
    AcceptedAsAtFirst(row, order[..n], at, messages, faults, order[n]);
    var before := ResetAll(row, order[..n], at, messages, faults).history;
    LatestOnward(before, ResetEntry(order[n], at, messages[order[n]]), step);
    if order[n] != step {
      ResetIsLatest(row, order[..n], at, messages, faults, step);
    }
  }

  lemma PassResetsLatest(row: Row, order: seq<string>, at: int, messages: map<string, string>, faults: Faults,
                         after: Row, step: string)
    requires IsPass(row, order, at, messages, faults, after) && step in CanaryResets(row) * Targets(row) && ResetAccepted(row, step, faults)
    ensures Latest(after.history, step).Some? && Latest(after.history, step).value.status.Pending?
  {
    hide ResetAccepted, Latest, Messages, SetStatusRow, StaleCanarySkip, ResetAll;
    SkippableIsNoMarker(step);
    ResetIsLatest(row, order, at, messages, faults, step);
    var reset := ResetAll(row, order, at, messages, faults);
    var w := StatusToWrite(row, faults);
    if w.Some? {
      StatusWriteKeepsLatest(reset, w.value, at, step);
    }
  }

  lemma {:induction false} ResetsAreLogged(row: Row, order: seq<string>, at: int, messages: map<string, string>, faults: Faults,
                                          step: string)
    requires (forall s :: s in order ==> s in messages) && step in order && ResetAccepted(row, step, faults)
    requires forall i, j :: 0 <= i < j < |order| ==> order[i] != order[j]
    ensures var after := ResetAll(row, order, at, messages, faults);
            row.history <= after.history && ResetEntry(step, at, messages[step]) in after.history[|row.history|..]
  {
    hide ResetAccepted;
    var n := |order| - 1;
    var before := order[..n];
    assert order == before + [order[n]];
    ResetHistoryGrows(row, before, at, messages, faults);
    var mid := ResetAll(row, before, at, messages, faults);
    var after := ResetAll(row, order, at, messages, faults);
    if step == order[n] {
      AcceptedAsAtFirst(row, before, at, messages, faults, step);
      assert after.history[|mid.history|] == ResetEntry(step, at, messages[step]);
      assert after.history[|row.history|..][|mid.history| - |row.history|] == after.history[|mid.history|];
    } else {
      ResetsAreLogged(row, before, at, messages, faults, step);
      assert mid.history <= after.history;
      MoreHistory(row.history, mid.history, after.history, ResetEntry(step, at, messages[step]));
    }
  }

  lemma MoreHistory(a: seq<Entry>, b: seq<Entry>, c: seq<Entry>, e: Entry)
    requires a <= b <= c && e in b[|a|..]
    ensures e in c[|a|..]
  {
    var i :| 0 <= i < |b| - |a| && b[|a|..][i] == e;
    assert c[|a|..][i] == b[|a| + i] == e;
  }

  lemma {:induction false} ResetHistoryGrows(row: Row, order: seq<string>, at: int, messages: map<string, string>, faults: Faults)
    requires forall s :: s in order ==> s in messages
    ensures row.history <= ResetAll(row, order, at, messages, faults).history
  {
    hide ResetAccepted;
    if order != [] {
      ResetHistoryGrows(row, order[..|order| - 1], at, messages, faults);
    }
  }

  /** Every reset the store accepts is logged under the library's name, with why: the upstream failure is resolved, or
      the canary was retried, after the reason the skip gave. */
  lemma PassLogsEachReset(row: Row, order: seq<string>, at: int, faults: Faults, after: Row, step: string)
    requires IsPass(row, order, at, Messages(row), faults, after) && step in Targets(row) && ResetAccepted(row, step, faults)
    ensures row.history <= after.history
    ensures row.steps[step] == Aborted ==>
              Entry(step, "", Pending, at, LIBRARY_ACTOR, "reset: upstream failure resolved") in after.history[|row.history|..]
    ensures row.steps[step] != Aborted ==>
              exists i :: 0 <= i < |row.history| && OwnEntry(row.history[i], step)
                          && (forall j :: i < j < |row.history| ==> !OwnEntry(row.history[j], step))
                          && Entry(step, "", Pending, at, LIBRARY_ACTOR, "reset: canary retried after " + row.history[i].message)
                             in after.history[|row.history|..]
  {
    hide ResetAccepted, ResetAll, SetStatusRow, Messages, Targets, StatusToWrite, OwnEntry;
    PassLogs(row, order, at, Messages(row), faults, after, step);
    var i := MessageIs(row, step);
  }

  lemma PassLogs(row: Row, order: seq<string>, at: int, messages: map<string, string>, faults: Faults, after: Row, step: string)
    requires IsPass(row, order, at, messages, faults, after) && step in Targets(row) && ResetAccepted(row, step, faults)
    ensures row.history <= after.history && ResetEntry(step, at, messages[step]) in after.history[|row.history|..]
  {
    hide ResetAccepted, ResetAll, SetStatusRow, Targets, StatusToWrite;
    ResetsAreLogged(row, order, at, messages, faults, step);
    var reset := ResetAll(row, order, at, messages, faults);
    var w := StatusToWrite(row, faults);
    if w.Some? {
      SetStatusRowFrame(reset, w.value, at);
    }
    MoreHistory(row.history, reset.history, after.history, ResetEntry(step, at, messages[step]));
  }

  lemma MessageIs(row: Row, step: string) returns (i: int)
    requires step in Targets(row)
    ensures step in row.steps && step in Messages(row)
    ensures row.steps[step] == Aborted ==> Messages(row)[step] == "reset: upstream failure resolved"
    ensures row.steps[step] != Aborted ==>
              && 0 <= i < |row.history| && OwnEntry(row.history[i], step)
              && (forall j :: i < j < |row.history| ==> !OwnEntry(row.history[j], step))
              && Messages(row)[step] == "reset: canary retried after " + row.history[i].message
  {
    hide Latest, IsCanarySkipReason, OwnEntry;
    TargetsAreSteps(row);
    i := LatestIsLast(row.history, step);
  }

  /** A canary skip a pass has reset is not reset again, whatever happens next, until a newer entry skips the step
      for a canary reason. */
  lemma CanarySkipIsResetOnce(row: Row, order: seq<string>, at: int, messages: map<string, string>, faults: Faults,
                              after: Row, step: string, later: Row)
    requires IsPass(row, order, at, messages, faults, after) && step in CanaryResets(row) * Targets(row) && ResetAccepted(row, step, faults)
    requires after.history <= later.history && step in CanaryResets(later)
    ensures exists e :: e in later.history[|after.history|..] && OwnEntry(e, step) && e.status.Skipped? && IsCanarySkipReason(step, e.message)
  {
    hide Targets, ResetAccepted, PassRow, Latest, IsCanarySkipReason;
    PassResetsLatest(row, order, at, messages, faults, after, step);
    var more := later.history[|after.history|..];
    assert later.history == after.history + more;
    LatestOfMore(after.history, more, step);
    assert Latest(more, step).Some?;
    assert Latest(more, step).value in more;
  }

  // ---- the reset the pass writes is the store's own step write ----

  /** Every write to the aggregate step is a rollup: its components have reported, or its name is also another
      aggregate's component type. */
  ghost predicate OnlyRollsUp(cfg: Lookup, events: map<EventKey, StepStatus>, a: string) {
    Active(cfg, events, a) != {} || (a in cfg.aggregateOf && cfg.aggregateOf[a] != a)
  }

  /** A step that only rolls up reads what a rollup can give: never aborted, never skipped. */
  ghost predicate RolledUp(cfg: Lookup, row: Row) {
    && row.steps.Keys <= cfg.steps
    && (forall a :: a in cfg.componentOf && a in row.steps && OnlyRollsUp(cfg, row.events, a) ==>
          !row.steps[a].Aborted? && !row.steps[a].Skipped?)
  }

  /** As does every row a push creates, whose steps read pending or running. */
  lemma NewRowIsRolledUp(cfg: Lookup, row: Row)
    requires row.steps.Keys <= cfg.steps && forall s :: s in row.steps ==> row.steps[s].Pending? || row.steps[s].Running?
    ensures RolledUp(cfg, row)
  {
  }

  /** The status columns after an allowed write: one rollup, the step's own column, or none changed. */
  lemma WriteLands(cfg: Lookup, row: Row, w: StepWrite) returns (rolled: StepStatus)
    requires ConsistentLookup(cfg) && RolledUp(cfg, row) && ScanMatches(cfg, row, w) && StepWriteAllowed(row, w)
    ensures !rolled.Aborted? && !rolled.Skipped?
    ensures var steps, events := UpdateStep(cfg, row, w).steps, row.events[w.Key() := w.status];
            var target := RollupTarget(cfg, w.step, w.component);
            if target.Some? && w.scan != [] then
              target.value in cfg.steps && steps == row.steps[target.value := rolled]
            else if target.Some? then
              && (OnlyRollsUp(cfg, events, target.value) ==> OnlyRollsUp(cfg, row.events, target.value))
              && (target.value == w.step ==> !OnlyRollsUp(cfg, events, w.step))
              && (steps == row.steps || (w.step == target.value && w.step in cfg.steps && steps == row.steps[w.step := w.status]))
            else
              steps == row.steps || (w.step !in cfg.componentOf && w.step in cfg.steps && steps == row.steps[w.step := w.status])
  {
    hide Rollup, GuardAllows, FreshnessRefuses, Active, RolledUp;
    var target := RollupTarget(cfg, w.step, w.component);
    var events := row.events[w.Key() := w.status];
    rolled := Pending;
    if target.Some? && w.scan == [] {
      forall k ensures k !in Active(cfg, events, target.value) {
        assert k in Active(cfg, events, target.value) ==> k in w.scan;
      }
    } else if target.Some? {
      ScanIsRecorded(cfg, events, target.value, w.scan);
      RollupIsNeitherAbortedNorSkipped(Statuses(events, w.scan));
      rolled := Rollup(Statuses(events, w.scan));
    }
  }

  lemma ScanIsRecorded(cfg: Lookup, events: map<EventKey, StepStatus>, agg: string, scan: seq<EventKey>)
    requires Scans(cfg, events, agg, scan)
    ensures forall k :: k in scan ==> k in events
  {
  }

  lemma EventsAfter(cfg: Lookup, row: Row, w: StepWrite)
    requires ScanMatches(cfg, row, w) && StepWriteAllowed(row, w)
    ensures UpdateStep(cfg, row, w).events == row.events[w.Key() := w.status]
  {
    hide Rollup, GuardAllows, FreshnessRefuses;
  }

  lemma RollupIsNeitherAbortedNorSkipped(ss: seq<StepStatus>)
    ensures !Rollup(ss).Aborted? && !Rollup(ss).Skipped?
  {
  }

  lemma OtherAggregatesKeepTheirEvents(cfg: Lookup, row: Row, w: StepWrite, a: string)
    requires ConsistentLookup(cfg) && a in cfg.componentOf
    requires RollupTarget(cfg, w.step, w.component) != Some(a)
    ensures OnlyRollsUp(cfg, row.events[w.Key() := w.status], a) <==> OnlyRollsUp(cfg, row.events, a)
  {
    var events := row.events[w.Key() := w.status];
    if !(a in cfg.aggregateOf && cfg.aggregateOf[a] != a) {
      forall k ensures k in Active(cfg, events, a) <==> k in Active(cfg, row.events, a) {}
    }
  }

  /** Every step write keeps rolled-up steps rolled up. */
  lemma StepWriteKeepsRolledUp(cfg: Lookup, row: Row, w: StepWrite)
    requires ConsistentLookup(cfg) && RolledUp(cfg, row) && ScanMatches(cfg, row, w)
    ensures RolledUp(cfg, UpdateStep(cfg, row, w))
  {
    hide Rollup, GuardAllows, FreshnessRefuses, OnlyRollsUp, Land, ScanMatches, StepWriteAllowed;
    var row' := UpdateStep(cfg, row, w);
    if StepWriteAllowed(row, w) {
      var events := row.events[w.Key() := w.status];
      EventsAfter(cfg, row, w);
      var rolled := WriteLands(cfg, row, w);
      forall a | a in cfg.componentOf && a in row'.steps && OnlyRollsUp(cfg, events, a)
        ensures !row'.steps[a].Aborted? && !row'.steps[a].Skipped?
      {
        if RollupTarget(cfg, w.step, w.component) != Some(a) {
          OtherAggregatesKeepTheirEvents(cfg, row, w, a);
        }
      }
    }
  }

  /** On a rolled-up row, resetting an aborted or skipped step is exactly the store's componentless step write. */
  lemma ResetIsTheStepWrite(cfg: Lookup, row: Row, step: string, at: int, message: string, faults: Faults)
    requires ConsistentLookup(cfg) && RolledUp(cfg, row)
    requires step in row.steps && (row.steps[step].Aborted? || row.steps[step].Skipped?) && step !in faults.failing && !ReservedMarkerStep(step)
    ensures var w := StepWrite(step, "", Pending, Some(ResetEntry(step, at, message)), step in faults.recent, []);
            ScanMatches(cfg, row, w) && UpdateStep(cfg, row, w) == ResetRow(row, step, at, message, faults)
  {
    var w := StepWrite(step, "", Pending, Some(ResetEntry(step, at, message)), step in faults.recent, []);
    var events := row.events[w.Key() := Pending];
    if step in cfg.componentOf {
      forall k ensures k !in Active(cfg, events, step) {
        assert k in Active(cfg, events, step) ==> k in Active(cfg, row.events, step);
      }
      assert Active(cfg, events, step) == {};
    }
  }
}

/** Waiting for prerequisites: the polling loop and how its exits are reported
    (slippy/hold.go, slippy/client.go). Times are nanoseconds on a clock that never goes back. */
module Hold {
  import opened Status
  import opened Strings
  import opened Rows
  import opened Prereqs

  // ---- the client's configuration ----

  const DEFAULT_HOLD_TIMEOUT := 3_600_000_000_000
  const DEFAULT_POLL_INTERVAL := 60_000_000_000
  const DEFAULT_ANCESTRY_DEPTH := 25

  datatype Config = Config(holdTimeout: int, pollInterval: int, ancestryDepth: int, ancestryMaxDepth: int)

  class Client {
    const config: Config

    /** NewClientWithDependencies: nothing of 0 or less survives, and the search never narrows. */
    constructor (given: Config)
      ensures config.holdTimeout == (if given.holdTimeout > 0 then given.holdTimeout else DEFAULT_HOLD_TIMEOUT)
      ensures config.pollInterval == (if given.pollInterval > 0 then given.pollInterval else DEFAULT_POLL_INTERVAL)
      ensures config.ancestryDepth == (if given.ancestryDepth > 0 then given.ancestryDepth else DEFAULT_ANCESTRY_DEPTH)
      ensures config.ancestryMaxDepth >= config.ancestryDepth && config.ancestryMaxDepth >= given.ancestryMaxDepth
      ensures config.ancestryMaxDepth in {config.ancestryDepth, given.ancestryMaxDepth}
      ensures Ready()
    {
      var c := given;
      if c.holdTimeout <= 0 {
        c := c.(holdTimeout := DEFAULT_HOLD_TIMEOUT);
      }
      if c.pollInterval <= 0 {
        c := c.(pollInterval := DEFAULT_POLL_INTERVAL);
      }
      if c.ancestryDepth <= 0 {
        c := c.(ancestryDepth := DEFAULT_ANCESTRY_DEPTH);
      }
      if c.ancestryMaxDepth < c.ancestryDepth {
        c := c.(ancestryMaxDepth := c.ancestryDepth);
      }
      config := c;
    }

    predicate Ready() {
      config.holdTimeout > 0 && config.pollInterval > 0
    }

    /** applyHoldDefaults. */
    method ApplyHoldDefaults(timeout: int, pollInterval: int) returns (appliedTimeout: int, appliedPollInterval: int)
      ensures appliedTimeout == if timeout > 0 then timeout else config.holdTimeout
      ensures appliedPollInterval == if pollInterval > 0 then pollInterval else config.pollInterval
    {
      appliedTimeout := timeout;
      if appliedTimeout <= 0 {
        appliedTimeout := config.holdTimeout;
      }
      appliedPollInterval := pollInterval;
      if appliedPollInterval <= 0 {
        appliedPollInterval := config.pollInterval;
      }
    }
  }

  // ---- the world a wait runs in ----

  /** The clock, the context, what the store has been asked and answered, and the statuses this wait has put on its
      step. refused counts the status writes that failed; a context once cancelled stays so. */
  class World {
    var now: int
    var cancelled: bool
    var loads: nat
    var last: Option<Row>
    var written: seq<StepStatus>
    ghost var refused: nat

    constructor (now: int)
      ensures this.now == now && !cancelled && loads == 0 && last == None && written == [] && refused == 0
    {
      this.now, cancelled, loads, last, written, refused := now, false, 0, None, [], 0;
    }

    method Now() returns (t: int)
      modifies this`now
      ensures old(now) <= now == t
    {
      var passed: nat :| passed >= 0;
      now := now + passed;
      t := now;
    }

    method Cancelled() returns (done: bool)
      modifies this`cancelled
      ensures done == cancelled && (old(cancelled) ==> cancelled)
    {
      var cancels: bool := *;
      cancelled := cancelled || cancels;
      done := cancelled;
    }

    /** The select on the context and the poll timer. */
    method WaitPoll(interval: nat) returns (done: bool)
      modifies this`now, this`cancelled
      ensures old(now) <= now && (!done ==> old(now) + interval <= now)
      ensures (done ==> cancelled) && (old(cancelled) ==> cancelled)
    {
      var passed: nat :| passed >= 0;
      var cancels: bool := *;
      var timerFirst: bool := *;
      cancelled := cancelled || cancels;
      done := cancelled && !timerFirst;
      now := now + passed + if done then 0 else interval;
    }

    /** Another process may have changed the slip in any way since the last load. */
    method Load() returns (slip: Option<Row>)
      modifies this`loads, this`last
      ensures loads == old(loads) + 1 && last == slip
    {
      slip := *;
      loads, last := loads + 1, slip;
    }

    method WriteStep(status: StepStatus) returns (ok: bool)
      modifies this`written, this`refused
      ensures written == if ok then old(written) + [status] else old(written)
      ensures refused == if ok then old(refused) else old(refused) + 1
    {
      ok := *;
      if ok {
        written := written + [status];
      } else {
        refused := refused + 1;
      }
    }
  }

  datatype HoldOptions = HoldOptions(
    prerequisites: seq<string>, componentName: string, timeout: int, pollInterval: int, stepName: string)

  datatype HoldError =
    | HoldNotSet(step: string, cause: string)
    | CancelledBeforeLoad
    | CancelledDuringWait
    | LoadFailed(cause: string)
    | PrerequisitesFailed(names: seq<string>)
    | HoldTimedOut(detail: string)

  /** The status a wait puts on its step as it ends, if any. */
  function Closing(err: Option<HoldError>): seq<StepStatus> {
    match err
    case Some(PrerequisitesFailed(_)) => [Aborted]
    case Some(HoldTimedOut(_)) => [TimedOut]
    case _ => []
  }

  /** The statuses a wait leaves written, by the way it ends and by how many of its writes the store refused. */
  ghost predicate Wrote(err: Option<HoldError>, before: seq<StepStatus>, after: seq<StepStatus>, refusals: int, named: bool) {
    if !named then after == before && refusals == 0 && !(err.Some? && err.value.HoldNotSet?)
    else if err.Some? && err.value.HoldNotSet? then after == before && refusals == 1
    else if refusals == 0 then after == before + [Held] + Closing(err)
    else refusals == 1 && Closing(err) != [] && after == before + [Held]
  }

  ghost predicate EndsCancelled(err: Option<HoldError>) {
    err == Some(CancelledBeforeLoad) || err == Some(CancelledDuringWait)
  }

  /** What the last load said when the wait ended. */
  ghost predicate Saw(cfg: Option<Lookup>, opts: HoldOptions, err: Option<HoldError>, last: Option<Row>) {
    match err
    case None => last.Some? && Verdict(cfg, last.value, opts.prerequisites, opts.componentName) == PrereqCompleted
    case Some(PrerequisitesFailed(names)) =>
      && last.Some? && Verdict(cfg, last.value, opts.prerequisites, opts.componentName) == PrereqFailed
      && names == Those(cfg, last.value, opts.componentName, Names(opts.prerequisites), PrereqFailed)
    case Some(HoldTimedOut(_)) =>
      last.Some? && Verdict(cfg, last.value, opts.prerequisites, opts.componentName) == PrereqRunning
    case Some(LoadFailed(_)) => last.None?
    case _ => true
  }

  lemma ProductOrder(a: int, b: int, c: int)
    requires c > 0 && a * c < b * c
    ensures a < b
  {
    assert (b - a) * c > 0;
  }

  /** The least time that many polls take. */
  function Spent(polls: nat, interval: nat): int {
    polls * interval
  }

  lemma SpentOnward(polls: nat, interval: nat)
    ensures Spent(0, interval) == 0 && Spent(polls + 1, interval) == Spent(polls, interval) + interval
  {
  }

  function MaxPolls(timeout: nat, interval: nat): int
    requires interval > 0
  {
    timeout / interval
  }

  /** Polls that fit before the deadline. */
  lemma PollsFit(polls: nat, interval: nat, timeout: nat)
    requires interval > 0 && Spent(polls, interval) <= timeout
    ensures polls <= MaxPolls(timeout, interval)
  {
    ProductOrder(polls, timeout / interval + 1, interval);
  }

  lemma WhatWasSeen(cfg: Option<Lookup>, opts: HoldOptions, slip: Row, failed: seq<string>, detail: string)
    ensures var verdict := Verdict(cfg, slip, opts.prerequisites, opts.componentName);
            && (verdict == PrereqCompleted ==> Saw(cfg, opts, None, Some(slip)))
            && (verdict == PrereqFailed && failed == Those(cfg, slip, opts.componentName, Names(opts.prerequisites), PrereqFailed) ==>
                  Saw(cfg, opts, Some(PrerequisitesFailed(failed)), Some(slip)))
            && (verdict == PrereqRunning ==> Saw(cfg, opts, Some(HoldTimedOut(detail)), Some(slip)))
  {
    hide Verdict, Those, Names;
  }

  lemma NothingSeen(cfg: Option<Lookup>, opts: HoldOptions, last: Option<Row>, cause: string)
    ensures Saw(cfg, opts, Some(CancelledBeforeLoad), last) && Saw(cfg, opts, Some(CancelledDuringWait), last)
    ensures Saw(cfg, opts, Some(LoadFailed(cause)), None)
  {
  }

  /** The polling loop, once the step is held. */
  method Poll(world: World, cfg: Option<Lookup>, opts: HoldOptions, holdStart: int, timeout: nat,
              interval: nat) returns (err: Option<HoldError>)
    requires interval > 0 && holdStart <= world.now
    modifies world
    ensures old(world.loads) <= world.loads <= old(world.loads) + MaxPolls(timeout, interval) + 2
    ensures if opts.stepName != "" && world.refused == old(world.refused) then
              world.written == old(world.written) + Closing(err)
            else
              world.written == old(world.written)
    ensures world.refused == old(world.refused)
            || (world.refused == old(world.refused) + 1 && opts.stepName != "" && Closing(err) != [])
    ensures EndsCancelled(err) ==> world.cancelled
    ensures err.Some? ==> !err.value.HoldNotSet?
    ensures Saw(cfg, opts, err, world.last)
    ensures world.loads > old(world.loads) || err == Some(CancelledBeforeLoad)
    ensures err.Some? && err.value.HoldTimedOut? ==> world.now > holdStart + timeout
  {
    hide Verdict, Those, Names, Saw, Spent, MaxPolls;
    SpentOnward(0, interval);
    PollsFit(0, interval, timeout);
    var holdDeadline := holdStart + timeout;
    ghost var polls := 0;
    while true
      invariant world.written == old(world.written) && world.refused == old(world.refused)
      invariant world.loads == old(world.loads) + polls && polls <= MaxPolls(timeout, interval) + 1
      invariant holdStart + Spent(polls, interval) <= world.now
      decreases holdDeadline - world.now
    {
      var done := world.Cancelled();
      if done {
        NothingSeen(cfg, opts, world.last, "");
        return Some(CancelledBeforeLoad);
      }
      var slip := world.Load();
      if slip.None? {
        var cause: string := *;
        NothingSeen(cfg, opts, slip, cause);
        return Some(LoadFailed(cause));
      }
      var result := CheckPrerequisites(cfg, slip.value, opts.prerequisites, opts.componentName);
      match result.status {
        case PrereqCompleted =>
          WhatWasSeen(cfg, opts, slip.value, [], "");
          return None;
        case PrereqFailed =>
          if opts.stepName != "" {
            var _ := world.WriteStep(Aborted);
          }
          WhatWasSeen(cfg, opts, slip.value, result.failed, "");
          return Some(PrerequisitesFailed(result.failed));
        case PrereqRunning =>
          var t := world.Now();
          if t > holdDeadline {
            if opts.stepName != "" {
              var _ := world.WriteStep(TimedOut);
            }
            var detail: string := *;
            WhatWasSeen(cfg, opts, slip.value, [], detail);
            return Some(HoldTimedOut(detail));
          }
          PollsFit(polls, interval, timeout);
          SpentOnward(polls, interval);
          var cancelled := world.WaitPoll(interval);
          if cancelled {
            NothingSeen(cfg, opts, slip, "");
            return Some(CancelledDuringWait);
          }
          polls := polls + 1;
      }
    }
  }

  /** WaitForPrerequisites. It loads the slip at most timeout / interval + 2 times on any clock that advances at
      least one interval per wait, returns nil only when the last load showed every prerequisite successful, and
      leaves its step aborted, timed out or held exactly by the way it ended unless the store refused that write. */
  method WaitForPrerequisites(client: Client, world: World, cfg: Option<Lookup>,
                              opts: HoldOptions) returns (err: Option<HoldError>)
    requires client.Ready()
    modifies world
    ensures opts.prerequisites == [] ==>
              err == None && world.loads == old(world.loads) && world.written == old(world.written)
    ensures old(world.loads) <= world.loads
    ensures world.loads - old(world.loads) <=
            (if opts.timeout > 0 then opts.timeout else client.config.holdTimeout)
            / (if opts.pollInterval > 0 then opts.pollInterval else client.config.pollInterval) + 2
    ensures opts.prerequisites != [] ==>
              Wrote(err, old(world.written), world.written, world.refused - old(world.refused), opts.stepName != "")
    ensures opts.prerequisites != [] && opts.stepName != "" && world.refused == old(world.refused) ==>
              && (err.Some? && err.value.PrerequisitesFailed? ==> world.written == old(world.written) + [Held, Aborted])
              && (err.Some? && err.value.HoldTimedOut? ==> world.written == old(world.written) + [Held, TimedOut])
              && (err.None? || !(err.value.PrerequisitesFailed? || err.value.HoldTimedOut?) ==>
                    world.written == old(world.written) + [Held])
    ensures opts.stepName == "" ==> world.written == old(world.written)
    ensures err == Some(CancelledBeforeLoad) || err == Some(CancelledDuringWait) ==> world.cancelled
    ensures err.None? && opts.prerequisites != [] ==>
              && world.loads > old(world.loads) && world.last.Some?
              && forall p :: p in Names(opts.prerequisites) ==>
                   StatusOf(cfg, world.last.value, p, opts.componentName) in {Completed, Skipped}
    ensures err.Some? && err.value.PrerequisitesFailed? ==>
              && world.last.Some? && err.value.names != []
              && forall p :: p in err.value.names <==>
                   p in Names(opts.prerequisites)
                   && StatusOf(cfg, world.last.value, p, opts.componentName) in {Failed, Errored, Aborted, TimedOut}
    ensures opts.prerequisites != [] && (err.None? || !err.value.HoldNotSet?) ==>
              Saw(cfg, opts, err, world.last) && (world.loads > old(world.loads) || err == Some(CancelledBeforeLoad))
    ensures err.Some? && err.value.HoldTimedOut? ==>
              world.now > old(world.now) + if opts.timeout > 0 then opts.timeout else client.config.holdTimeout
  {
    hide Saw, StatusOf, Names, Verdict, Those;
    var timeout, interval := client.ApplyHoldDefaults(opts.timeout, opts.pollInterval);
    if |opts.prerequisites| == 0 {
      return None;
    }
    var holdStart := world.Now();
    if opts.stepName != "" {
      var held := world.WriteStep(Held);
      if !held {
        var cause: string := *;
        return Some(HoldNotSet(opts.stepName, cause));
      }
    }
    err := Poll(world, cfg, opts, holdStart, timeout, interval);
    SawMeans(cfg, opts, err, world.last);
  }

  /** What was seen, in terms of the statuses. */
  lemma SawMeans(cfg: Option<Lookup>, opts: HoldOptions, err: Option<HoldError>, last: Option<Row>)
    requires Saw(cfg, opts, err, last)
    ensures err.None? ==>
              last.Some? && forall p :: p in Names(opts.prerequisites) ==>
                              StatusOf(cfg, last.value, p, opts.componentName) in {Completed, Skipped}
    ensures err.Some? && err.value.PrerequisitesFailed? ==>
              && last.Some? && err.value.names != []
              && forall p :: p in err.value.names <==>
                   p in Names(opts.prerequisites)
                   && StatusOf(cfg, last.value, p, opts.componentName) in {Failed, Errored, Aborted, TimedOut}
  {
    hide StatusOf, Names, Those;
    var names := Names(opts.prerequisites);
    if err.Some? && err.value.PrerequisitesFailed? {
      forall p
        ensures p in Those(cfg, last.value, opts.componentName, names, PrereqFailed) <==>
                p in names && Outcome(StatusOf(cfg, last.value, p, opts.componentName)) == PrereqFailed
      {
        ThoseMembers(cfg, last.value, opts.componentName, names, PrereqFailed, p);
      }
      var p :| p in names && StatusOf(cfg, last.value, p, opts.componentName).IsFailure();
      assert p in err.value.names;
    }
  }

  // ---- how an exit is reported ----

  datatype HoldOutcome = Proceeded | HoldFailed | HoldTimeout | HoldCancelled

  function Joined(names: seq<string>): string {
    if names == [] then ""
    else if |names| == 1 then names[0]
    else Joined(names[..|names| - 1]) + " " + names[|names| - 1]
  }

  const CONTEXT_CANCELLED := "operation cancelled"
  const HOLD_NOT_SET := "failed to set held" + " status for step"

  function Text(e: HoldError): string {
    match e
    case HoldNotSet(step, cause) => HOLD_NOT_SET + " " + step + ": " + cause
    case CancelledBeforeLoad => CONTEXT_CANCELLED + ": context cancelled " + "while waiting for " + "prerequisites"
    case CancelledDuringWait => CONTEXT_CANCELLED + ": context cancelled " + "during wait"
    case LoadFailed(cause) => "failed to load slip: " + cause
    case PrerequisitesFailed(names) => "prerequisite failed: [" + Joined(names) + "]"
    case HoldTimedOut(detail) => "hold timeout exceeded: " + detail
  }

  /** WaitForPrerequisitesWithResult reads the outcome off the text of the error. */
  function Reported(err: Option<HoldError>): HoldOutcome {
    if err.None? then Proceeded
    else
      var text := Text(err.value);
      if Contains(text, "timeout") then HoldTimeout
      else if Contains(text, "prerequisite") then HoldFailed
      else if Contains(text, "cancelled") then HoldCancelled
      else HoldFailed
  }

  predicate NamesATimeout(names: seq<string>) {
    exists i :: 0 <= i < |names| && Contains(names[i], "timeout")
  }

  lemma {:induction false} JoinedNamesATimeout(names: seq<string>)
    ensures Contains(Joined(names), "timeout") <==> NamesATimeout(names)
  {
    if |names| >= 2 {
      var n := |names| - 1;
      JoinedNamesATimeout(names[..n]);
      SplitAt(Joined(names[..n]), ' ', names[n], "timeout");
      assert Joined(names) == Joined(names[..n]) + [' '] + names[n];
      assert NamesATimeout(names) <==> NamesATimeout(names[..n]) || Contains(names[n], "timeout") by {
        forall i | 0 <= i < n ensures names[..n][i] == names[i] {}
      }
    } else if names == [] {
      assert !Contains("", "timeout");
    }
  }

  lemma TheLetters()
    ensures 'm' in "timeout" && 'q' in "prerequisite"
  {
    assert "timeout"[2] == 'm' && "prerequisite"[5] == 'q';
  }

  lemma CancelledLetters()
    ensures 'm' !in Text(CancelledBeforeLoad)
    ensures 'm' !in Text(CancelledDuringWait) && 'q' !in Text(CancelledDuringWait)
  {
    assert 'm' !in CONTEXT_CANCELLED && 'q' !in CONTEXT_CANCELLED;
    assert 'm' !in ": context cancelled " && 'q' !in ": context cancelled ";
    assert 'm' !in "while waiting for " && 'm' !in "prerequisites";
    assert 'm' !in "during wait" && 'q' !in "during wait";
  }

  lemma CancelledBeforeLoadText()
    ensures !Contains(Text(CancelledBeforeLoad), "timeout") && Contains(Text(CancelledBeforeLoad), "prerequisite")
  {
    hide Contains;
    TheLetters();
    CancelledLetters();
    LacksCharacter(Text(CancelledBeforeLoad), "timeout", 'm');
    var before := CONTEXT_CANCELLED + ": context cancelled " + "while waiting for ";
    ContainsMiddle(before, "prerequisite", "s");
    assert "prerequisites" == "prerequisite" + "s";
    assert before + "prerequisites" == before + "prerequisite" + "s";
  }

  lemma CancelledDuringWaitText()
    ensures !Contains(Text(CancelledDuringWait), "timeout") && !Contains(Text(CancelledDuringWait), "prerequisite")
    ensures Contains(Text(CancelledDuringWait), "cancelled")
  {
    hide Contains;
    TheLetters();
    CancelledLetters();
    LacksCharacter(Text(CancelledDuringWait), "timeout", 'm');
    LacksCharacter(Text(CancelledDuringWait), "prerequisite", 'q');
    var after := ": context cancelled " + "during wait";
    ContainsMiddle("operation ", "cancelled", after);
    assert CONTEXT_CANCELLED == "operation " + "cancelled";
    assert Text(CancelledDuringWait) == CONTEXT_CANCELLED + after;
  }

  lemma PrerequisiteText(names: seq<string>)
    ensures Contains(Text(PrerequisitesFailed(names)), "timeout") <==> NamesATimeout(names)
    ensures Contains(Text(PrerequisitesFailed(names)), "prerequisite")
  {
    hide Contains, Joined;
    var list := Joined(names) + [']'] + "";
    TheLetters();
    JoinedNamesATimeout(names);
    SplitAt(Joined(names), ']', "", "timeout");
    SplitAt("prerequisite failed: ", '[', list, "timeout");
    LacksCharacter("prerequisite failed: ", "timeout", 'm');
    LacksCharacter("", "timeout", 'm');
    assert Text(PrerequisitesFailed(names)) == "prerequisite failed: " + ['['] + list;
    ContainsMiddle("", "prerequisite", " failed: [" + Joined(names) + "]");
    assert Text(PrerequisitesFailed(names)) == "" + "prerequisite" + (" failed: [" + Joined(names) + "]");
  }

  /** What each exit is reported as. A timeout always is one and a cancelled wait always is one, but a
      cancellation seen just before a load is always reported as failed, and failed prerequisites are
      reported as a timeout exactly when one of their names contains that word. */
  lemma ReportedAs(names: seq<string>, detail: string)
    ensures Reported(Some(HoldTimedOut(detail))) == HoldTimeout
    ensures Reported(Some(CancelledDuringWait)) == HoldCancelled
    ensures Reported(Some(CancelledBeforeLoad)) == HoldFailed
    ensures Reported(Some(PrerequisitesFailed(names))) == if NamesATimeout(names) then HoldTimeout else HoldFailed
  {
    hide Contains;
    CancelledBeforeLoadText();
    CancelledDuringWaitText();
    PrerequisiteText(names);
    ContainsMiddle("hold ", "timeout", " exceeded: " + detail);
    assert Text(HoldTimedOut(detail)) == "hold " + "timeout" + (" exceeded: " + detail);
  }

  /** A prefix that cannot hold the word, and a space the word does not have, leave it to the rest. */
  lemma AfterPrefix(prefix: string, rest: string, part: string, c: char)
    requires c in part && c !in prefix && ' ' !in part
    ensures Contains(prefix + [' '] + rest, part) <==> Contains(rest, part)
  {
    hide Contains;
    SplitAt(prefix, ' ', rest, part);
    LacksCharacter(prefix, part, c);
  }

  lemma LoadText(cause: string, part: string, c: char)
    requires c in part && ' ' !in part && c in {'m', 'q', 'c'}
    ensures Contains(Text(LoadFailed(cause)), part) <==> Contains(cause, part)
  {
    hide Contains;
    assert 'm' !in "failed to load slip:" && 'q' !in "failed to load slip:" && 'c' !in "failed to load slip:";
    AfterPrefix("failed to load slip:", cause, part, c);
    assert Text(LoadFailed(cause)) == "failed to load slip:" + [' '] + cause;
  }

  lemma HoldLetters()
    ensures 'm' !in HOLD_NOT_SET && 'q' !in HOLD_NOT_SET && 'c' !in HOLD_NOT_SET
  {
    assert 'm' !in "failed to set held" && 'q' !in "failed to set held" && 'c' !in "failed to set held";
    assert 'm' !in " status for step" && 'q' !in " status for step" && 'c' !in " status for step";
  }

  lemma WrappedText(start: string, step: string, cause: string, part: string, c: char)
    requires c in part && c !in start && ' ' !in part && ':' !in part
    ensures Contains(start + " " + step + ": " + cause, part) <==> Contains(step, part) || Contains(cause, part)
  {
    hide Contains;
    var after := [' '] + cause;
    AfterPrefix(start, step + [':'] + after, part, c);
    SplitAt(step, ':', after, part);
    assert after == "" + [' '] + cause;
    AfterPrefix("", cause, part, c);
    assert start + " " + step + ": " + cause == start + [' '] + (step + [':'] + after);
  }

  lemma HoldText(step: string, cause: string, part: string, c: char)
    requires c in part && ' ' !in part && ':' !in part && c in {'m', 'q', 'c'}
    ensures Contains(Text(HoldNotSet(step, cause)), part) <==> Contains(step, part) || Contains(cause, part)
  {
    hide Contains;
    HoldLetters();
    WrappedText(HOLD_NOT_SET, step, cause, part, c);
  }

  /** Which outcome the three words lead to, tried in this order. */
  function ByWords(timeout: bool, prerequisite: bool, cancelled: bool): HoldOutcome {
    if timeout then HoldTimeout else if cancelled && !prerequisite then HoldCancelled else HoldFailed
  }

  lemma TheWords()
    ensures 'm' in "timeout" && 'q' in "prerequisite" && 'c' in "cancelled"
    ensures ' ' !in "timeout" && ' ' !in "prerequisite" && ' ' !in "cancelled"
    ensures ':' !in "timeout" && ':' !in "prerequisite" && ':' !in "cancelled"
  {
    TheLetters();
    assert "cancelled"[0] == 'c';
  }

  /** An error that wraps another one is reported by what the inner text, or the step's name, happens to hold. */
  lemma WrappedReportedAs(step: string, cause: string)
    ensures Reported(Some(LoadFailed(cause))) ==
            ByWords(Contains(cause, "timeout"), Contains(cause, "prerequisite"), Contains(cause, "cancelled"))
    ensures Reported(Some(HoldNotSet(step, cause))) ==
            ByWords(Contains(step, "timeout") || Contains(cause, "timeout"),
                    Contains(step, "prerequisite") || Contains(cause, "prerequisite"),
                    Contains(step, "cancelled") || Contains(cause, "cancelled"))
  {
    hide Contains, Text;
    TheWords();
    LoadText(cause, "timeout", 'm');
    LoadText(cause, "prerequisite", 'q');
    LoadText(cause, "cancelled", 'c');
    HoldText(step, cause, "timeout", 'm');
    HoldText(step, cause, "prerequisite", 'q');
    HoldText(step, cause, "cancelled", 'c');
  }

  /** The outcome the exit taken stands for. */
  function TrueOutcome(err: Option<HoldError>): HoldOutcome {
    match err
    case None => Proceeded
    case Some(HoldTimedOut(_)) => HoldTimeout
    case Some(CancelledBeforeLoad) => HoldCancelled
    case Some(CancelledDuringWait) => HoldCancelled
    case _ => HoldFailed
  }

  /** The text does not lead a failure to another outcome. */
  predicate ReadsAsFailed(timeout: bool, prerequisite: bool, cancelled: bool) {
    !timeout && (prerequisite || !cancelled)
  }

  /** The reported outcome is the exit taken exactly when the exit is nil, a timeout or a cancellation during the wait,
      or a failure whose text does not hold another outcome's word; and only nil is ever reported as proceeding. */
  lemma ReportedTrulyExactlyWhen(err: Option<HoldError>)
    ensures Reported(err).Proceeded? <==> err.None?
    ensures Reported(err) == TrueOutcome(err) <==>
            match err
            case None => true
            case Some(HoldTimedOut(_)) => true
            case Some(CancelledDuringWait) => true
            case Some(CancelledBeforeLoad) => false
            case Some(PrerequisitesFailed(names)) => !NamesATimeout(names)
            case Some(LoadFailed(cause)) =>
              ReadsAsFailed(Contains(cause, "timeout"), Contains(cause, "prerequisite"), Contains(cause, "cancelled"))
            case Some(HoldNotSet(step, cause)) =>
              ReadsAsFailed(Contains(step, "timeout") || Contains(cause, "timeout"),
                            Contains(step, "prerequisite") || Contains(cause, "prerequisite"),
                            Contains(step, "cancelled") || Contains(cause, "cancelled"))
  {
    hide Contains, Text;
    ReportedAs(if err.Some? && err.value.PrerequisitesFailed? then err.value.names else [],
               if err.Some? && err.value.HoldTimedOut? then err.value.detail else "");
    WrappedReportedAs(if err.Some? && err.value.HoldNotSet? then err.value.step else "",
                      if err.Some? && (err.value.HoldNotSet? || err.value.LoadFailed?) then err.value.cause else "");
  }

  datatype HoldResult = HoldResult(outcome: HoldOutcome, failedPrereqs: seq<string>)

  /** The error reads as failed prerequisites. */
  predicate ReadsAsPrerequisites(err: Option<HoldError>) {
    err.Some? && !Contains(Text(err.value), "timeout") && Contains(Text(err.value), "prerequisite")
  }

  /** WaitForPrerequisitesWithResult. An error that reads as failed prerequisites costs one more load after the wait's
      own, and the names reported are exactly the failed ones of that load, none when it fails. */
  method WaitForPrerequisitesWithResult(client: Client, world: World, cfg: Option<Lookup>, opts: HoldOptions)
    returns (result: HoldResult, err: Option<HoldError>, ghost waitLoads: nat)
    requires client.Ready()
    modifies world
    ensures result.outcome == Reported(err)
    ensures waitLoads <=
            (if opts.timeout > 0 then opts.timeout else client.config.holdTimeout)
            / (if opts.pollInterval > 0 then opts.pollInterval else client.config.pollInterval) + 2
    ensures err.Some? && err.value.HoldTimedOut? ==>
              world.now > old(world.now) + if opts.timeout > 0 then opts.timeout else client.config.holdTimeout
    ensures world.loads == old(world.loads) + waitLoads + if ReadsAsPrerequisites(err) then 1 else 0
    ensures result.failedPrereqs ==
            if ReadsAsPrerequisites(err) && world.last.Some? then
              Those(cfg, world.last.value, opts.componentName, Names(opts.prerequisites), PrereqFailed)
            else []
  {
    hide Contains, Text, Verdict, Those, Names, Saw, Wrote;
    err := WaitForPrerequisites(client, world, cfg, opts);
    waitLoads := world.loads - old(world.loads);
    result := HoldResult(Reported(err), []);
    if err.Some? && !Contains(Text(err.value), "timeout") && Contains(Text(err.value), "prerequisite") {
      var slip := world.Load();
      if slip.Some? {
        var checked := CheckPrerequisites(cfg, slip.value, opts.prerequisites, opts.componentName);
        result := result.(failedPrereqs := checked.failed);
      }
    }
  }
}

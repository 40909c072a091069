/** Slip and step statuses with their predicates (slippy/status.go).
    A Go status is a string, so every status type also has the values no constant names. */
module Status {

  datatype SlipStatus =
    | SlipUnset                  // ""; as a claim it means "not claimed"
    | SlipPending
    | SlipInProgress
    | SlipCompleted
    | SlipFailed
    | SlipCompensating
    | SlipCompensated
    | SlipAbandoned
    | SlipPromoted
    | SlipUnknown(name: string)
  {
    predicate IsTerminal() {
      SlipCompleted? || SlipCompensated? || SlipAbandoned? || SlipPromoted?
    }

    predicate IsLive() {
      !IsTerminal() && !SlipFailed?
    }
  }

  datatype StepStatus =
    | Pending
    | Held
    | Running
    | Completed
    | Failed
    | Errored
    | Aborted
    | TimedOut
    | Skipped
    | UnknownStep(name: string)  // any other string, "" included
  {
    predicate IsSuccess() {
      Completed? || Skipped?
    }

    predicate IsFailure() {
      Failed? || Errored? || Aborted? || TimedOut?
    }

    predicate IsTerminal() {
      IsSuccess() || IsFailure()
    }

    predicate IsRunning() {
      Running? || Held?
    }
  }

  datatype Option<+T> = None | Some(value: T)
}

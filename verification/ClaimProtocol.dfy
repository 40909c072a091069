/** The slip claim protocol: a store of rows, the operations pre-jobs, post-jobs, pushes and status
    writers run against it, each as one atomic step under the row lock, and what every interleaving
    keeps (slippy/claim.go, slippy/interfaces.go, slippy/postgres_store_updates.go). */
module ClaimProtocol {
  import opened Status
  import opened Rows
  import opened Claim
  import opened Utf8

  /** Rows by correlation ID. */
  type Store = map<string, Row>

  /** The columns a full-row write carries: everything but claimed_from. */
  datatype Snapshot = Snapshot(
    status: SlipStatus, steps: map<string, StepStatus>, aggregates: map<string, seq<Component>>, history: seq<Entry>)

  /** Create's upsert: the conflict arm keeps claimed_from and the component states. */
  function Upsert(s: Store, id: string, slip: Snapshot): Store {
    var status := if slip.status.SlipUnset? then SlipPending else slip.status;
    if id in s then
      s[id := s[id].(status := status, steps := slip.steps, aggregates := slip.aggregates, history := slip.history)]
    else
      s[id := Row(status, SlipUnset, slip.steps, slip.aggregates, map[], slip.history)]
  }

  // ---- row operations ----

  function ClaimRow(row: Row, expected: seq<SlipStatus>, actor: Bytes, at: int): Row {
    match DecideClaim(row.status, row.claimedFrom, InFlight(row), expected)
    case ClaimRefused(_) => row
    case ClaimAgreed(prior, write) =>
      if write then row.(claimedFrom := prior, history := row.history + [ClaimMarker(actor, at)]) else row
  }

  function ReleaseRow(row: Row, actor: Bytes, at: int): Row {
    if DecideRelease(row).Clear? then
      row.(claimedFrom := SlipUnset, history := row.history + [ReleaseMarker(actor, at)])
    else row
  }

  /** UpdateSlipStatus: a terminal status also ends any claim, with its marker. */
  function SetStatusRow(row: Row, status: SlipStatus, at: int): Row {
    if !status.IsTerminal() then row.(status := status)
    else if !row.Claimed() then row.(status := status, claimedFrom := SlipUnset)
    else row.(status := status, claimedFrom := SlipUnset, history := row.history + [EndMarker(at)])
  }

  /** The statuses Repave's guarded delete names. */
  predicate Ended(status: SlipStatus) {
    status.SlipFailed? || status.SlipCompleted? || status.SlipAbandoned? || status.SlipPromoted? || status.SlipCompensated?
  }

  /** The guard's list and the push path's predicate are the same set. */
  lemma EndedIsNotLive(status: SlipStatus)
    ensures Ended(status) <==> !status.IsLive()
    ensures Ended(status) <==> status in {SlipFailed, SlipCompleted, SlipAbandoned, SlipPromoted, SlipCompensated}
  {
  }

  function RepaveEntry(at: int): Entry {
    Entry(PUSH_PARSED, "", Running, at, LIBRARY_ACTOR, "repaved")
  }

  function Repaved(s: Store, oldId: string, newId: string, slip: Snapshot, at: int): Store {
    if oldId == newId then s
    else if oldId !in s then Upsert(s, newId, slip)
    else if Ended(s[oldId].status) && !s[oldId].Claimed() then
      var t := Upsert(s - {oldId}, newId, slip);
      t[newId := t[newId].(history := t[newId].history + [RepaveEntry(at)])]
    else s
  }

  datatype Op =
    | Create(id: string, slip: Snapshot)
    | Update(id: string, slip: Snapshot)  // the whole row, as some caller last read it
    | Claim(id: string, expected: seq<SlipStatus>, actor: Bytes, at: int)
    | Release(id: string, actor: Bytes, at: int)
    | SetStatus(id: string, status: SlipStatus, at: int)
    | WriteStep(id: string, write: StepWrite)
    | Append(id: string, entry: Entry)
    | Reset(id: string, slip: Snapshot)
    | Repave(oldId: string, newId: string, slip: Snapshot, at: int)
    | RolledBack  // any operation whose transaction failed

  /** What the callers and the database guarantee: fresh histories hold no marker, and a rollup reads the
      rows the query returns. An Update may carry any history. */
  predicate Admissible(cfg: Lookup, s: Store, op: Op) {
    match op
    case Create(_, slip) => MarkerFree(slip.history)
    case WriteStep(id, w) => id in s ==> ScanMatches(cfg, s[id], w)
    case Reset(_, slip) => MarkerFree(slip.history)
    case Repave(_, _, slip, _) => MarkerFree(slip.history)
    case _ => true
  }

  /** A write of the whole row that does not know its claim: a Create that reaches the conflict arm of a claimed row, a
      repave that goes ahead with a claimed row's ID for its successor, or an Update whose history names a claimant
      where the row holds no claim, or none where it does. */
  predicate Clashes(s: Store, op: Op) {
    match op
    case Create(id, _) => id in s && s[id].Claimed()
    case Update(id, slip) => id in s && (s[id].Claimed() <==> ClaimedBy(slip.history) == [])
    case Repave(oldId, newId, _, _) =>
      && newId in s && s[newId].Claimed() && oldId != newId
      && (oldId in s ==> Ended(s[oldId].status) && !s[oldId].Claimed())
    case _ => false
  }

  function Apply(cfg: Lookup, s: Store, op: Op): Store
    requires Admissible(cfg, s, op)
  {
    match op
    case Create(id, slip) => Upsert(s, id, slip)
    case Update(id, slip) => if id in s then Upsert(s, id, slip) else s
    case Claim(id, expected, actor, at) => if id in s then s[id := ClaimRow(s[id], expected, actor, at)] else s
    case Release(id, actor, at) => if id in s then s[id := ReleaseRow(s[id], actor, at)] else s
    case SetStatus(id, status, at) => if id in s then s[id := SetStatusRow(s[id], status, at)] else s
    case WriteStep(id, w) => if id in s then s[id := UpdateStep(cfg, s[id], w)] else s
    case Append(id, entry) => if id in s then s[id := AppendHistory(s[id], entry)] else s
    case Reset(id, slip) => if id in s && !DecideReset(s[id].claimedFrom) then s else Upsert(s, id, slip)
    case Repave(oldId, newId, slip, at) => Repaved(s, oldId, newId, slip, at)
    case RolledBack => s
  }

  /** The store after the first n operations of an interleaving, as long as each was admissible. */
  ghost predicate IsRun(cfg: Lookup, states: seq<Store>, ops: seq<Op>) {
    && |states| == |ops| + 1
    && forall i :: 0 <= i < |ops| ==> Admissible(cfg, states[i], ops[i]) && states[i + 1] == Apply(cfg, states[i], ops[i])
  }

  // ---- what each operation does to a row ----

  /** Create and Update over a row that exists: the slip's columns replace the row's, a slip without a status is pending,
      and neither the claim nor the reported states change; a row that does not exist is created unclaimed. */
  lemma UpsertMeans(s: Store, id: string, slip: Snapshot)
    ensures var after := Upsert(s, id, slip);
            && after.Keys == s.Keys + {id} && (forall other :: other in s && other != id ==> after[other] == s[other])
            && after[id].status == (if slip.status == SlipUnset then SlipPending else slip.status)
            && after[id].steps == slip.steps && after[id].aggregates == slip.aggregates && after[id].history == slip.history
            && after[id].claimedFrom == (if id in s then s[id].claimedFrom else SlipUnset)
            && after[id].events == (if id in s then s[id].events else map[])
  {
  }

  /** ResetSlipInPlace lands exactly on an ID whose row holds no claim, and then is that upsert. */
  lemma ResetLandsExactlyWhen(cfg: Lookup, s: Store, id: string, slip: Snapshot)
    requires Admissible(cfg, s, Reset(id, slip))
    ensures Apply(cfg, s, Reset(id, slip)) == if id in s && s[id].claimedFrom != SlipUnset then s else Upsert(s, id, slip)
  {
  }

  /** ReleaseClaim clears a claim exactly when it is held and nothing but push_parsed runs or is held. */
  lemma ReleaseMeans(row: Row, actor: Bytes, at: int)
    ensures var quiet := && (forall x :: x in row.steps && x != "push_parsed" ==> row.steps[x] !in {StepStatus.Running, Held})
                         && (forall a, c :: a in row.aggregates && a != "push_parsed" && c in row.aggregates[a] ==>
                               c.status !in {StepStatus.Running, Held});
            ReleaseRow(row, actor, at) ==
            if row.claimedFrom != SlipUnset && quiet then
              row.(claimedFrom := SlipUnset, history := row.history + [ReleaseMarker(actor, at)])
            else row
  {
    hide InFlight;
    InFlightMeans(row);
  }

  /** UpdateSlipStatus: the status is always written; a terminal one clears the claim, and leaves a release marker of the
      library exactly when there was one. */
  lemma StatusWriteMeans(row: Row, status: SlipStatus, at: int)
    ensures var after := SetStatusRow(row, status, at);
            var ends := status in {SlipCompleted, SlipCompensated, SlipAbandoned, SlipPromoted};
            && after.status == status && after.steps == row.steps && after.aggregates == row.aggregates && after.events == row.events
            && after.claimedFrom == (if ends then SlipUnset else row.claimedFrom)
            && after.history == row.history + if ends && row.claimedFrom != SlipUnset then [ReleaseMarker(LIBRARY_ACTOR, at)] else []
  {
    hide EndMarker, ReleaseMarker;
    EndMarkerIsTheReleaseMarker(at);
    assert row.history + [] == row.history;
  }

  /** Repave goes ahead exactly when the IDs differ and the old row, if it is still there, has ended or failed and is
      unclaimed: the old row is gone and the successor is written, with an entry of push_parsed unless there was
      nothing to replace. Otherwise nothing changes. */
  lemma RepaveMeans(s: Store, oldId: string, newId: string, slip: Snapshot, at: int)
    ensures var after := Repaved(s, oldId, newId, slip, at);
            var ahead := && oldId != newId
                         && (oldId in s ==> s[oldId].claimedFrom == SlipUnset)
                         && (oldId in s ==> s[oldId].status in {SlipCompleted, SlipCompensated, SlipAbandoned, SlipPromoted, SlipFailed});
            && (!ahead ==> after == s)
            && (ahead ==>
                  && after.Keys == s.Keys - {oldId} + {newId}
                  && (forall other :: other in after && other != newId ==> after[other] == s[other])
                  && var written := Upsert(s, newId, slip)[newId];
                  after[newId] ==
                  if oldId in s then
                    written.(history := slip.history + [Entry("push_parsed", "", StepStatus.Running, at, LIBRARY_ACTOR, "repaved")])
                  else written)
  {
  }

  // ---- the two readers of a claim agree ----

  /** How a client that reads only the history names the claimant: the actor of the newest claim
      marker, or "" when there is none or a release follows it. */
  function ClaimedBy(history: seq<Entry>): Bytes {
    if history == [] then []
    else
      var e := history[|history| - 1];
      if e.step == CLAIM_MARKER then e.actor
      else if e.step == RELEASE_MARKER then []
      else ClaimedBy(history[..|history| - 1])
  }

  predicate Agree(row: Row) {
    row.Claimed() <==> ClaimedBy(row.history) != []
  }

  ghost predicate AllAgree(s: Store) {
    forall id :: id in s ==> Agree(s[id])
  }

  lemma {:induction false} MarkerFreeNamesNobody(history: seq<Entry>)
    requires MarkerFree(history)
    ensures ClaimedBy(history) == []
  {
    if history != [] {
      assert !IsMarker(history[|history| - 1]);
      MarkerFreeNamesNobody(history[..|history| - 1]);
    }
  }

  lemma ClaimedByAfter(history: seq<Entry>, e: Entry)
    ensures ClaimedBy(history + [e]) ==
            if e.step == CLAIM_MARKER then e.actor else if e.step == RELEASE_MARKER then [] else ClaimedBy(history)
  {
    assert (history + [e])[..|history|] == history;
  }

  lemma LogKeepsAgreement(row: Row, stepName: string, entry: Option<Entry>)
    requires Agree(row) && GuardAllows(stepName, entry)
    ensures Agree(Log(row, entry))
  {
    if entry.Some? {
      GuardKeepsMarkersOut(stepName, entry.value);
      ClaimedByAfter(row.history, entry.value);
    }
  }

  lemma RowOpsKeepAgreement(cfg: Lookup, row: Row)
    requires Agree(row)
    ensures forall expected, actor, at :: Agree(ClaimRow(row, expected, actor, at))
    ensures forall actor, at :: Agree(ReleaseRow(row, actor, at))
    ensures forall status, at :: Agree(SetStatusRow(row, status, at))
    ensures forall entry :: Agree(AppendHistory(row, entry))
    ensures forall w :: ScanMatches(cfg, row, w) ==> Agree(UpdateStep(cfg, row, w))
  {
    StepWritesKeepAgreement(cfg, row);
    hide UpdateStep, ScanMatches;
    forall expected, actor, at ensures Agree(ClaimRow(row, expected, actor, at)) {
      MarkerActorIsBounded(actor);
      ClaimedByAfter(row.history, ClaimMarker(actor, at));
    }
    forall actor, at ensures Agree(ReleaseRow(row, actor, at)) {
      ClaimedByAfter(row.history, ReleaseMarker(actor, at));
    }
    forall status, at ensures Agree(SetStatusRow(row, status, at)) {
      ClaimedByAfter(row.history, EndMarker(at));
    }
    forall entry: Entry ensures Agree(AppendHistory(row, entry)) {
      if GuardAllows("", Some(entry)) { LogKeepsAgreement(row, "", Some(entry)); }
    }
  }

  lemma StepWritesKeepAgreement(cfg: Lookup, row: Row)
    requires Agree(row)
    ensures forall w :: ScanMatches(cfg, row, w) ==> Agree(UpdateStep(cfg, row, w))
  {
    hide UpdateStep, ScanMatches;
    forall w | ScanMatches(cfg, row, w) ensures Agree(UpdateStep(cfg, row, w)) {
      UpdateStepFrame(cfg, row, w);
      if StepWriteAllowed(row, w) && w.entry.Some? { LogKeepsAgreement(row, w.step, w.entry); }
    }
  }

  lemma UpsertKeepsAgreement(s: Store, id: string, slip: Snapshot)
    requires AllAgree(s) && MarkerFree(slip.history)
    ensures AllAgree(Upsert(s, id, slip)) <==> !(id in s && s[id].Claimed())
  {
    MarkerFreeNamesNobody(slip.history);
    var t := Upsert(s, id, slip);
    assert id in s && s[id].Claimed() ==> !Agree(t[id]);
  }

  lemma SameAgreement(s: Store, id: string, row: Row)
    requires id in s && (Agree(row) <==> Agree(s[id]))
    ensures AllAgree(s[id := row]) <==> AllAgree(s)
  {
    var t := s[id := row];
    assert forall k :: k in s ==> k in t && (Agree(t[k]) <==> Agree(s[k]));
  }

  lemma UpdateKeepsAgreement(s: Store, id: string, slip: Snapshot)
    requires AllAgree(s) && id in s
    ensures AllAgree(Upsert(s, id, slip)) <==> !Clashes(s, Update(id, slip))
  {
    var t := Upsert(s, id, slip);
    assert Agree(t[id]) <==> !Clashes(s, Update(id, slip));
    assert forall other :: other in t && other != id ==> t[other] == s[other];
  }

  lemma RepaveKeepsAgreement(s: Store, oldId: string, newId: string, slip: Snapshot, at: int)
    requires AllAgree(s) && MarkerFree(slip.history)
    ensures AllAgree(Repaved(s, oldId, newId, slip, at)) <==> !Clashes(s, Repave(oldId, newId, slip, at))
  {
    hide MarkerFree, ClaimedBy;
    MarkerFreeNamesNobody(slip.history);
    UpsertKeepsAgreement(s, newId, slip);
    if oldId != newId && oldId in s && Ended(s[oldId].status) && !s[oldId].Claimed() {
      UpsertKeepsAgreement(s - {oldId}, newId, slip);
      var u := Upsert(s - {oldId}, newId, slip);
      ClaimedByAfter(slip.history, RepaveEntry(at));
      var row := u[newId].(history := u[newId].history + [RepaveEntry(at)]);
      SameAgreement(u, newId, row);
      assert Repaved(s, oldId, newId, slip, at) == u[newId := row];
    }
  }

  /** One step keeps the readers in agreement exactly when it writes no row whose claim it does not know. */
  lemma StepKeepsAgreement(cfg: Lookup, s: Store, op: Op)
    requires AllAgree(s) && Admissible(cfg, s, op)
    ensures AllAgree(Apply(cfg, s, op)) <==> !Clashes(s, op)
  {
    hide Agree, Upsert, Repaved, ClaimRow, ReleaseRow, SetStatusRow, UpdateStep, AppendHistory, MarkerFree;
    match op
    case Create(id, slip) => UpsertKeepsAgreement(s, id, slip);
    case Update(id, slip) => if id in s { UpdateKeepsAgreement(s, id, slip); }
    case Reset(id, slip) => UpsertKeepsAgreement(s, id, slip);
    case Repave(oldId, newId, slip, at) => RepaveKeepsAgreement(s, oldId, newId, slip, at);
    case Claim(id, _, _, _) => if id in s { RowOpsKeepAgreement(cfg, s[id]); }
    case Release(id, _, _) => if id in s { RowOpsKeepAgreement(cfg, s[id]); }
    case SetStatus(id, _, _) => if id in s { RowOpsKeepAgreement(cfg, s[id]); }
    case WriteStep(id, w) => if id in s { RowOpsKeepAgreement(cfg, s[id]); }
    case Append(id, _) => if id in s { RowOpsKeepAgreement(cfg, s[id]); }
    case RolledBack =>
  }

  /** No step before n writes a row whose claim it does not know. */
  ghost predicate NoClashBefore(states: seq<Store>, ops: seq<Op>, n: nat)
    requires |states| == |ops| + 1 && n < |states|
  {
    forall i :: 0 <= i < n ==> !Clashes(states[i], ops[i])
  }

  /** In every interleaving that starts from an empty store, claimed_from is set exactly when the newest
      marker names a claimant, in every state up to n, if and only if no step so far writes a row whose claim it does not know. */
  lemma {:induction false} ReadersAlwaysAgree(cfg: Lookup, states: seq<Store>, ops: seq<Op>, n: nat)
    requires IsRun(cfg, states, ops) && states[0] == map[]
    requires n < |states|
    ensures (forall i :: 0 <= i <= n ==> AllAgree(states[i])) <==> NoClashBefore(states, ops, n)
  {
    if n > 0 {
      ReadersAlwaysAgree(cfg, states, ops, n - 1);
      if AllAgree(states[n - 1]) {
        StepKeepsAgreement(cfg, states[n - 1], ops[n - 1]);
        assert states[n] == Apply(cfg, states[n - 1], ops[n - 1]);
      }
    }
  }

  lemma {:induction false} EntriesNameNobodyElse(history: seq<Entry>, more: seq<Entry>)
    requires MarkerFree(more)
    ensures ClaimedBy(history + more) == ClaimedBy(history)
  {
    if more == [] {
      assert history + more == history;
    } else {
      var n := |more| - 1;
      assert history + more == (history + more[..n]) + [more[n]] && !IsMarker(more[n]);
      ClaimedByAfter(history + more[..n], more[n]);
      EntriesNameNobodyElse(history, more[..n]);
    }
  }

  /** Load, then Update with entries of its own: the readers still agree exactly when the row is claimed now if and only
      if it was when it was loaded, whoever claimed or released in between. */
  lemma UpdateAgreesExactlyWhenStillAsLoaded(s: Store, id: string, loaded: Row, slip: Snapshot, more: seq<Entry>)
    requires id in s && Agree(loaded) && slip.history == loaded.history + more && MarkerFree(more)
    ensures Agree(Upsert(s, id, slip)[id]) <==> (s[id].Claimed() <==> loaded.Claimed())
  {
    EntriesNameNobodyElse(loaded.history, more);
  }

  /** The row alone: a bare Create over an existing row keeps its readers in agreement exactly when the row is
      unclaimed: it rewrites the history under a claim it cannot see. */
  lemma BareUpsertAgreesExactlyWhenUnclaimed(s: Store, id: string, slip: Snapshot)
    requires id in s && MarkerFree(slip.history)
    ensures Agree(Upsert(s, id, slip)[id]) <==> !s[id].Claimed()
  {
    MarkerFreeNamesNobody(slip.history);
  }

  /** A repave whose successor's ID already belongs to another run has the same fault. */
  lemma CollidingRepaveAgreesExactlyWhenUnclaimed(s: Store, oldId: string, newId: string, slip: Snapshot, at: int)
    requires oldId in s && newId in s && oldId != newId && MarkerFree(slip.history)
    requires Ended(s[oldId].status) && !s[oldId].Claimed()
    ensures Agree(Repaved(s, oldId, newId, slip, at)[newId]) <==> !s[newId].Claimed()
  {
    MarkerFreeNamesNobody(slip.history);
    ClaimedByAfter(slip.history, RepaveEntry(at));
  }

  // ---- one claim tenure ----

  ghost predicate Holds(s: Store, id: string) {
    id in s && s[id].Claimed()
  }

  /** The two ways a tenure ends. */
  ghost predicate EndsTenure(s: Store, op: Op, id: string) {
    && Holds(s, id)
    && ( || (op.Release? && op.id == id && !InFlight(s[id]))
         || (op.SetStatus? && op.id == id && op.status in {SlipCompleted, SlipCompensated, SlipAbandoned, SlipPromoted}))
  }

  lemma TenureStep(cfg: Lookup, s: Store, op: Op, id: string)
    requires Holds(s, id) && Admissible(cfg, s, op) && !Clashes(s, op)
    ensures var t := Apply(cfg, s, op);
            && id in t
            && (!(op.Update? && op.id == id) ==> s[id].history <= t[id].history)
            && (Holds(t, id) <==> !EndsTenure(s, op, id))
            && (Holds(t, id) ==> t[id].claimedFrom == s[id].claimedFrom)
            && (!Holds(t, id) ==> ClaimedBy(t[id].history) == [] && t[id].history != s[id].history)
            && (op.Create? || op.Reset? || op.Repave? ==> t[id] == s[id])
            && (op.Claim? && op.id == id ==> t == s)
  {
    if op.Claim? && op.id == id {
      assert s[id := s[id]] == s;
    }
    if op.WriteStep? && op.id == id {
      UpdateStepFrame(cfg, s[id], op.write);
    }
    if EndsTenure(s, op, id) {
      ClaimedByAfter(s[id].history, if op.Release? then ReleaseMarker(op.actor, op.at) else EndMarker(op.at));
    }
  }

  /** From any state that holds a claim, as long as no step writes a row whose claim it does not know or ends this one:
      the claim holds with the same recorded prior, the row's history only grows unless an Update rewrote it, and no
      create, reset or repave on the way changed the row. */
  lemma {:induction false} TenureOverRun(cfg: Lookup, states: seq<Store>, ops: seq<Op>, id: string, n: nat)
    requires IsRun(cfg, states, ops) && n < |states| && NoClashBefore(states, ops, n)
    requires Holds(states[0], id)
    requires forall i :: 0 <= i < n ==> !EndsTenure(states[i], ops[i], id)
    ensures Holds(states[n], id)
    ensures states[n][id].claimedFrom == states[0][id].claimedFrom
    ensures (forall i :: 0 <= i < n ==> !(ops[i].Update? && ops[i].id == id)) ==> states[0][id].history <= states[n][id].history
    ensures forall i :: 0 <= i < n && (ops[i].Create? || ops[i].Reset? || ops[i].Repave?) ==>
              id in states[i] && id in states[i + 1] && states[i + 1][id] == states[i][id]
  {
    hide Admissible, Apply, EndsTenure, Clashes;
    if n > 0 {
      TenureOverRun(cfg, states, ops, id, n - 1);
      TenureStep(cfg, states[n - 1], ops[n - 1], id);
    }
  }

  /** A step starts a tenure exactly when it is a claim of a row that has a status, which the caller names or names
      nothing, with nothing in flight unless it is named; it records that status and appends one claim marker. */
  lemma TenureStart(cfg: Lookup, s: Store, op: Op, id: string)
    requires Admissible(cfg, s, op) && !Holds(s, id)
    ensures Holds(Apply(cfg, s, op), id) <==>
            && op.Claim? && op.id == id && id in s && s[id].status != SlipUnset
            && (op.expected == [] || s[id].status in op.expected)
            && (InFlight(s[id]) ==> s[id].status in op.expected)
    ensures Holds(Apply(cfg, s, op), id) ==>
              Apply(cfg, s, op) ==
              s[id := s[id].(claimedFrom := s[id].status, history := s[id].history + [ClaimMarker(op.actor, op.at)])]
  {
    if op.WriteStep? && op.id in s {
      UpdateStepFrame(cfg, s[op.id], op.write);
    }
  }

  /** On every row, whatever its status: after the claim it is claimed exactly when it was, or when its status is set,
      the caller names it or names nothing, and it is named if anything is in flight. A refusal says which of the
      three was missing, the status first and the work in flight last. */
  lemma ClaimTakenExactlyWhen(row: Row, expected: seq<SlipStatus>, actor: Bytes, at: int)
    ensures ClaimRow(row, expected, actor, at).Claimed() <==>
            || row.claimedFrom != SlipUnset
            || (&& row.status != SlipUnset
                && (expected == [] || row.status in expected)
                && (InFlight(row) ==> row.status in expected))
    ensures var d := DecideClaim(row.status, row.claimedFrom, InFlight(row), expected);
            && (d == ClaimRefused(NoStatusToRecord) <==> row.status == SlipUnset)
            && (d == ClaimRefused(OutsideExpected) <==> row.status != SlipUnset && expected != [] && row.status !in expected)
            && (d == ClaimRefused(RunInFlightNotNamed) <==>
                  row.status != SlipUnset && row.claimedFrom == SlipUnset && expected == [] && InFlight(row))
  {
    hide InFlight;
  }

  /** A claim is refused, or leaves the slip claimed: on a held one it hands back the recorded prior,
      whoever asks, and the compare-and-set applies whether or not a claim is held. */
  lemma ClaimOutcomes(row: Row, expected: seq<SlipStatus>, actor: Bytes, at: int)
    ensures var d := DecideClaim(row.status, row.claimedFrom, InFlight(row), expected);
            var r := ClaimRow(row, expected, actor, at);
            && (d.ClaimRefused? ==> r == row)
            && (d.ClaimAgreed? ==> r.Claimed() && r.claimedFrom == d.prior && r.status == row.status)
            && (d.ClaimAgreed? && |expected| > 0 ==> row.status in expected)
            && (d.ClaimAgreed? && row.Claimed() ==> r == row)
            && (row.Claimed() && !row.status.SlipUnset? && (expected == [] || row.status in expected) ==>
                  d == ClaimAgreed(row.claimedFrom, false))
            && DecideClaim(r.status, r.claimedFrom, InFlight(r), expected) ==
               (if d.ClaimRefused? then d else ClaimAgreed(d.prior, false))
  {
  }
}

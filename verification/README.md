# Verified model of the routing-slip library and its companions

Dafny models of seven parts of this repository, with proofs about all their inputs and runs.
`dafny verify dfyconfig.toml` checks everything.

- **Claims on a slip** (`Status`, `Rows`, `Claim`, `ClaimProtocol`, `PostJobs`, `ChainedAggregates`, `PushRow`).
  Pre-jobs, post-jobs, pushes and status writers act on rows, each as one atomic step under the row lock. The step
  writes include the component states, the aggregate rollup and the terminal-freshness gate. Proved over all interleavings: exactly when the column
  and the markers agree, what a claim tenure keeps, exactly when a run reads in flight, and that a claim taken on a row
  a push has opened outlives the work the row can show.
- **Canary evidence** (`Canary`). The inference from an aborted rollout's status, against a step machine of the
  controller that leaves that status behind.
- **Log fields** (`Utf8`, `Sanitize`, `FixedPoints`, `Sorting`, `LogLine`). The escaping printer with its cap and
  marker, the `key=value` line, and readers that undo both.
- **Pipeline configuration and the slip row** (`Graph`, `Pipeline`, `Lookups`, `AcceptedConfigs`, `SlipColumns`,
  `SlipStore`, `SlipRoundTrip`). What Validate accepts, the columns it generates, and writing and loading a row.
- **Reconciliation** (`Aggregate`, `Prereqs`, `AggregatePrereqs`, `NoDeadlock`, `Reconcile`, `ReconcileFacts`,
  `Endings`, `Strings`, `Hold`). Prerequisites, the completion check with its resets, and the polling wait.
- **The Postgres migrator** (`Migrations`). What is applied and what is recorded at every point a run can stop.
- **The first-parent walk** (`FirstParent`).

What a caller or the outside supplies is a parameter or an arbitrary choice: clocks, actors, query results in any
order, map iteration order, and which reads, writes and commits fail. Code points, byte bounds, the int32 conversion
of a recorded version and Postgres's folding and truncation of identifiers are written out.

## Where the code differs from what it says

The model follows the code. Each difference has a theorem saying exactly when it shows.

- `fieldNeedsSanitizing` reports some values that `sanitizeField` leaves unchanged
  (`FixedPoints.UnchangedExactlyWhen`).
- Validate checks explicit prerequisites only, so an accepted gate can deadlock the pipeline
  (`NoDeadlock.EffectivelyLiveExactlyWhenAcyclic`, `AcceptedConfigs.AcceptedGateDeadlocks`).
- Validate accepts an aggregate step that is another one's component type. A claim then fails both ways: component
  reports can leave the step running for good, so that no release clears the claim, and the step's own start is not
  seen, so that a release clears it while that job works. Exactly these configurations do either
  (`ChainedAggregates.FailsExactlyWhenChained`, `ChainedAggregates.ComponentReportsStrandTheClaim`,
  `ChainedAggregates.ChainedStartIsUnseen`, `AcceptedConfigs.AcceptedConfigIsChained`).
- A claim covers the work the row shows. An aggregate step started by itself after a component has reported is not shown
  (`PostJobs.RestartIsUnseen`), nor a component that reports under both names of its aggregate
  (`PostJobs.TwoNamesHideWork`), and a component put back to pending can hold the claim with nobody at work
  (`PostJobs.ResetComponentStallsExactlyWhen`).
- Validate accepts an aggregate step called by a reserved SQL word, whose slips can then be neither written nor loaded
  (`SlipRoundTrip.WriteThenLoad`, `AcceptedConfigs.AcceptedConfigIsNeverStored`).
- A bare Create, or a repave onto an ID that has a row, breaks the marker agreement exactly on a claimed row, and a
  full-row Update exactly when the row has been claimed or released since it was loaded
  (`ClaimProtocol.ReadersAlwaysAgree`, `ClaimProtocol.BareUpsertAgreesExactlyWhenUnclaimed`,
  `ClaimProtocol.CollidingRepaveAgreesExactlyWhenUnclaimed`, `ClaimProtocol.UpdateAgreesExactlyWhenStillAsLoaded`).
- A person's pause or skip makes canary evidence claim traffic that was not taken, exactly when it is not harmless
  (`Canary.HarmlessExactlyWhenNothingIsOverclaimed`, `Canary.PausesAreHarmlessExactlyOn`).
- The store's rollup counts reported components only, so an aggregate step can satisfy a prerequisite before all its
  components do (`AggregatePrereqs.RollupCountsReportedComponents`).
- `compensated` is terminal in slippy/status.go:48 but falls through in slippy/executor.go:274
  (`ReconcileFacts.TerminalStatusOverwrittenExactlyWhen`).
- A step that `WaitForPrerequisites` has just aborted can be reset to pending by the check that write triggers
  (`Endings.AbortedStepStaysExactlyWhen`).
- A cancellation seen before a load is reported as failed, and a failure whose text holds another outcome's word is
  reported as that outcome: failed prerequisites with `timeout` in a name, a load that failed with an i/o timeout, a
  held write that failed for a step called by such a word (`Hold.ReportedTrulyExactlyWhen`).
- A down-migration records its final version with the first revert (`Migrations.ExactMidwayExactlyWhen`).
- Nothing enforces the unique, positive versions that postgresmigrator/interfaces.go:63 asks for, or their width. Of two
  migrations with one version the second is lost when a run dies between them (`Migrations.UpKeepsCoveredExactlyWhen`),
  one that is not positive makes the record of a new database inexact (`Migrations.EmptyIsExactExactlyWhenPositive`) and
  is applied only by a run that starts from a lower recorded version, and one beyond int32 is recorded as another number
  (`Migrations.RecordsItselfExactlyInInt32`).

## Model

| member | source | states |
|---|---|---|
| Utf8.DecodeAt | logger/sanitize.go:79-91 | one DecodeRuneInString step: the unit at a position and how many bytes it takes, with every undecodable byte a unit of its own |
| Utf8.EncodeUndoesDecode | logger/sanitize.go:79-104 | the rune-by-rune scan loses nothing: the units of any byte string give the bytes back, so two strings with equal units are equal |
| Utf8.DecodeUndoesEncode | slippy/claim.go:74-82 | text built from code points is valid UTF-8 and decodes to exactly those code points |
| Sanitize.FieldNeedsSanitizing | logger/sanitize.go:229-247 | true exactly when the value has more than 1024 units or some unit that cannot stand as it is |
| Sanitize.SanitizeField | logger/sanitize.go:54-108 | for every byte string, fast path included, the output is the rendering of the shown prefix, followed by the marker exactly when something is left out |
| Sanitize.LetterEscapesAre | logger/sanitize.go:190-222 | a backslash, a quote, a newline, a carriage return and a tab are written as a backslash and their own letter |
| Sanitize.EscapesAre | logger/sanitize.go:178-222 | an undecodable byte and every other control below U+0080 as a backslash, x and two lower-case hex digits, the controls up to U+009F and the line separators as u and four, everything else as itself |
| Sanitize.ShownIsFirstAtCap | logger/sanitize.go:72-77 | where the cut falls: every shorter prefix renders below the cap, and a cut one has reached it |
| Sanitize.RenderingStaysNearTheCap | logger/sanitize.go:15-19 | what comes before the marker is at most 1029 runes |
| Sanitize.PlainTextIsItsOwnRendering | logger/sanitize.go:52-57 | when fieldNeedsSanitizing says no, the slow path would have returned the input too |
| Sanitize.ReadUndoesSanitize | logger/sanitize.go:25-50 | a reader undoes the printer: an uncut rendering gives the whole input, a cut one the exact prefix with the true shown and total counts, and neither is taken for the other |
| Sanitize.SameRenderingSameInput | logger/sanitize.go:41-50 | injectivity on byte strings: equal renderings come from equal inputs, or from two inputs cut at the same prefix with the same length |
| Sanitize.SanitizedIsLineSafe | logger/sanitize.go:178-222 | no rendering holds a control character, U+2028 or U+2029 (rule LB4 of UAX #14) |
| FixedPoints.UnchangedExactlyWhen | logger/sanitize.go:225-228 | the code differs from its comment: an input sanitizeField leaves alone is reported as needing sanitizing exactly when it is plain runes, then backslashes, then the very marker its own cut would write |
| FixedPoints.AnUnchangedInputThatNeedsSanitizing | logger/sanitize.go:225-247 | such an input exists: 1024 plain runes and the marker saying 1024 of 1063 are shown |
| LogLine.RenderField | logger/sanitize.go:166-173 | the rendering, in quotes exactly when it holds a comma, an equals sign or a quote |
| LogLine.RenderSanitizedFields | logger/sanitize.go:121-143 | for any map iteration order the line is the list over the sorted keys, it parses back to exactly that list of rendered pairs, and it is one safe line |
| LogLine.LineReads | logger/sanitize.go:121-143 | key, equals sign, value, pairs apart by a comma and a space |
| Sorting.OneSortedOrder | logger/sanitize.go:126-130 | a key set has one sorted order, so the line does not depend on map iteration order |
| LogLine.ShapeIsClosed | logger/sanitize.go:161-165 | no rendering, marker included, has an unescaped quote or a dangling backslash, so a quoted value cannot break out |
| LogLine.ReadTokenUndoesQuoted | logger/sanitize.go:145-173 | a parser reads a rendered key or value back whole, whatever follows it |
| LogLine.ParseUndoesRenderPairs | logger/sanitize.go:121-143 | the line parser undoes the list printer on any texts that cannot break out of quotes |
| LogLine.ParseUndoesRender | logger/sanitize.go:121-173 | no forgery: whatever keys and values hold, cut ones included, the line reads back as exactly its own fields in order |
| LogLine.SameLineSameFields | logger/sanitize.go:121-173 | two field maps with the same line, in whatever key orders, are the same map when one of them has nothing cut |
| LogLine.LineIsSafe | logger/sanitize.go:121-143 | the whole line holds no control character, U+2028 or U+2029 |
| Aggregate.ComputeAggregateStatus | slippy/aggregate_status.go:13-43 | failed exactly when some component is failed, error, aborted or timeout; completed exactly when all are completed or skipped; running exactly when neither and some is completed, skipped, running or held; else pending |
| Aggregate.RollupIgnoresOrder | slippy/aggregate_status.go:13-43 | the rollup is the same for every order of the components |
| Claim.ClampRunes | slippy/claim.go:70-83 | the clamped text: the input when it fits both bounds, else the longest fitting prefix and an ellipsis |
| Claim.KeptIsLongestPrefix | slippy/claim.go:48-83 | a cut keeps the longest rune prefix within both bounds, and never the whole text |
| Claim.ClampKeepsBothBounds | slippy/claim.go:48-83 | at most limit runes and 1024 bytes, decodable to the kept runes and an ellipsis, and empty only for an empty input |
| Claim.MarkerActorIsBounded | slippy/claim.go:108-129 | a marker always names somebody within both bounds |
| Claim.EndMarkerIsTheReleaseMarker | slippy/postgres_store_updates.go:212-217 | the marker of a terminal status write is the release marker of the library's own name, which the clamp leaves alone |
| Claim.MarkersSay | slippy/claim.go:85-160 | step, status and actor of both markers: a name of at most 128 runes and 1024 bytes stands as it is, an empty one is the library |
| Claim.RunInFlight | slippy/claim.go:238-297 | two loops in any map order: in flight exactly when a step other than push_parsed, or a component of an aggregate other than it, is running or held |
| Rows.UpdateStepFrame | slippy/postgres_store_updates.go:432-512 | a step write never touches the slip status or the claim, and appends its entry exactly when it is allowed |
| Rows.WriteIsRefusedExactlyWhen | slippy/postgres_store_updates.go:551-612 | a step write is turned down exactly when it names a marker, or is pending, held or running over a terminal state inside the window, except a reset of an aborted one and what push_parsed does itself |
| Rows.StepWriteMeans | slippy/postgres_store_updates.go:432-512 | an accepted write records its state, appends its entry and sets its own column, or makes the aggregate step exactly the rollup of all states reported under its two names; a refused one changes nothing |
| Rows.AppendMeans | slippy/postgres_store_updates.go:125-157 | an entry is added, and nothing else, unless it carries a marker name in any case |
| Rows.GatedWriteLosesTerminalExactlyWhen | slippy/errors.go:71-97 | inside the freshness window a write loses a recorded terminal state exactly when it resets an aborted step to pending |
| Rows.TerminalStateSurvivesABurst | slippy/postgres_store_updates.go:551-592 | through any burst of step writes inside the window a recorded terminal state stays terminal unless an aborted one is reset |
| ClaimProtocol.EndedIsNotLive | slippy/status.go:57-70 | the repave guard's list of statuses is exactly the statuses that are not live |
| ClaimProtocol.StepKeepsAgreement | slippy/interfaces.go:41-57 | each operation of the protocol, the full-row Update and the conflict arm of every upsert included, keeps column and markers in agreement if and only if it writes no row whose claim it does not know |
| ClaimProtocol.ReadersAlwaysAgree | slippy/interfaces.go:41-57 | in every interleaving from an empty store, claimed_from is set exactly when the newest marker names a claimant, in every state so far, if and only if no Create or repave so far hit a claimed row and no Update wrote a history that disagrees with the row's claim |
| ClaimProtocol.BareUpsertAgreesExactlyWhenUnclaimed | slippy/interfaces.go:41-57 | a bare Create over an existing row keeps the readers in agreement exactly when the row is unclaimed |
| ClaimProtocol.UpdateAgreesExactlyWhenStillAsLoaded | slippy/postgres_store.go:92-147 | a full-row Update of a loaded slip with entries of its own keeps agreement exactly when the row is claimed now if and only if it was when loaded |
| ClaimProtocol.CollidingRepaveAgreesExactlyWhenUnclaimed | slippy/postgres_store_updates.go:956-1107 | a repave whose successor ID already has a row keeps agreement exactly when that row is unclaimed |
| ClaimProtocol.TenureStep | slippy/interfaces.go:155-165 | one step under a held claim that knows it: the tenure ends exactly by a quiet release or a terminal status write, else the prior stays, the history only grows unless an Update rewrites it, and no create, reset or repave touches the row |
| ClaimProtocol.TenureOverRun | slippy/interfaces.go:167-329 | at every point of a run that no clashing write and neither ending precedes, the claim holds with the same prior, the history extends the first one where no Update rewrote it, and no create, reset or repave on the way changed the row |
| ClaimProtocol.TenureStart | slippy/claim.go:459-477 | a step starts a tenure if and only if it is a claim of a row with a status that the caller names, or names nothing, with nothing in flight unless it is named; it records that status and writes one marker |
| ClaimProtocol.ClaimTakenExactlyWhen | slippy/claim.go:430-477 | for every row, whatever its status: claimed afterwards exactly when it was, or under those conditions; and which of the three refusals is given when |
| ClaimProtocol.ReleaseMeans | slippy/claim.go:479-516 | a release clears the claim and writes one marker exactly when it is held and nothing but push_parsed runs or is held |
| ClaimProtocol.StatusWriteMeans | slippy/postgres_store_updates.go:135-218 | the status is written; the four terminal ones clear the claim and leave the library's release marker exactly when there was one |
| ClaimProtocol.UpsertMeans | slippy/postgres_store.go:372-441 | the slip's columns replace the row's, a missing status is pending, the claim and the reported states stay, no other row changes |
| ClaimProtocol.ResetLandsExactlyWhen | slippy/postgres_store_updates.go:340-378 | the in-place reset lands exactly on an unclaimed or missing row |
| ClaimProtocol.RepaveMeans | slippy/postgres_store_updates.go:956-1107 | a repave goes ahead exactly when the IDs differ and the old row, if still there, is unclaimed and failed or ended; then the old row is gone and the successor written with its entry |
| ClaimProtocol.ClaimOutcomes | slippy/claim.go:459-477 | the compare-and-set applies whether or not a claim is held, a repeat claim hands back the recorded prior and writes nothing, and a refusal writes nothing |
| PostJobs.InFlightExactlyUnlessQuiet | slippy/claim.go:267-297 | a row that tells what was reported is in flight if and only if a job is at work, a step the push started is owed its first report, or an aggregate is stalled |
| PostJobs.WriteKeepsTelling | slippy/postgres_store_updates.go:432-512 | every step write, accepted or refused, of any status and with its rollup in any scan order, keeps the row telling what was reported |
| PostJobs.ClaimOutlivesTheWork | slippy/claim.go:479-516 | over every interleaving of claims, reports, releases, status writes and notes on a row a push has opened: in flight exactly unless quiet, and a claim taken at any point is held exactly until a terminal status or a release at a quiet moment, and cleared once |
| PostJobs.CoveredUntilItEnds | slippy/claim.go:479-516 | a job at work under the claim is covered until it reports its end, whoever releases meanwhile, unless a terminal status is written |
| PostJobs.ClearOnceEveryJobHasLeft | slippy/claim.go:479-516 | once every job has reported its end and released, with nothing owed or stalled at the last release, the claim is clear and was cleared exactly once |
| PostJobs.RestartIsUnseen | slippy/postgres_store_updates.go:477-500 | starting an aggregate step by itself after a component has reported changes nothing a claim sees, so a release of an otherwise quiet run clears it while that job works |
| PostJobs.ResetComponentStallsExactlyWhen | slippy/postgres_store_updates.go:674-702 | putting a component of a quiet run back to pending puts it in flight with nobody at work exactly when another component succeeded and none failed |
| PostJobs.TwoNamesHideWork | slippy/postgres_store_updates.go:773-782 | a component reported under both names of its aggregate can work on a row that is not in flight |
| PushRow.InitializeSlipForPush | slippy/push.go:2420-2554 | the slip of a push: every step pending but the first, which runs unless it is an aggregate without components, pending items for every aggregate, one seed entry |
| PushRow.PushSlipMeans | slippy/push.go:2420-2554 | the first step runs unless it is an aggregate with nothing to track, the others are pending, every aggregate lists each tracked component as pending in order, one entry says how the first step starts |
| PushRow.PushOpensTheRow | slippy/push.go:2423-2554 | the row of an accepted configuration's push opens the runs above: nobody is at work, the first step alone may be owed a report, and the run is in flight exactly when it is |
| PushRow.PushedRowIsClaimedExactlyWhen | slippy/claim.go:459-477 | a job claims that row exactly when it names the status in progress, or names none while the first step has not been started, and the claimed row opens the runs too |
| ChainedAggregates.ComponentlessWriteLandsExactlyWhenNotChained | slippy/postgres_store_updates.go:477-500 | a componentless write to an unreported aggregate step lands exactly when its name is not another aggregate's component type |
| ChainedAggregates.ChainedStepStrandsTheClaim | slippy/postgres_store_updates.go:489-500 | on every row, a componentless write to such a step leaves it as it reads, so while that is running no release clears the claim |
| ChainedAggregates.ComponentReportsStrandTheClaim | slippy/postgres_store_updates.go:465-500 | on every row a push has created, three component reports leave all states completed and the chained step running for good, so no release ever clears the claim |
| ChainedAggregates.ChainedStartIsUnseen | slippy/postgres_store_updates.go:489-500 | on every row a push has created, the chained step's own start is recorded and not seen, so the next release of a quiet run clears the claim while that job works |
| ChainedAggregates.FailsExactlyWhenChained | slippy/postgres_store_updates.go:465-500 | over all runs of reports from a created row, a stranded claim is impossible if and only if no aggregate is chained, and so is hidden work |
| Canary.MovedPastTrafficStep | argocdclient/canary_evidence.go:62-94 | true exactly when a traffic step lies below a reached index, or in the window up to the first waiting step after the last passed barrier when the abort or a pause points behind it; repeated entries included |
| Canary.StartedBarrierIsRecognised | argocdclient/canary_evidence.go:36-37 | over every run, a read that carries the Run entry of the barrier, in any phase, behind a traffic step shows traffic |
| Canary.IndexIsRecognised | argocdclient/canary_evidence.go:38-41 | so does every read whose index is past a traffic step |
| Canary.AnalysisAbortIsRecognised | argocdclient/canary_evidence.go:42-46 | so does every read after a step analysis aborted behind a traffic step, unless another waiting step lies between the last barrier it shows as passed and that one |
| Canary.PauseIsRecognised | argocdclient/canary_evidence.go:42-48 | so does a pause begun there strictly after every barrier the read shows as passed had finished, when it shows one |
| Canary.OnlyBarrierRunsCount | argocdclient/canary_evidence.go:64-76 | any plugin entry that is not a Run of the barrier can be taken out without changing the answer |
| Canary.NoCreditBehindAFirstWait | argocdclient/canary_evidence.go:48-49 | when the first step waits, the barrier included, a read with no passed barrier and no later index or Run entry shows no traffic |
| Canary.EvidenceIsSound | argocdclient/canary_evidence.go:31-62 | over every run of the controller in which people do only what is harmless, and every read of its status, an affirmative answer means a traffic step was really completed |
| Canary.HarmlessExactlyWhenNothingIsOverclaimed | argocdclient/canary_evidence.go:53-61 | after any such run, a pause or skip by a person is harmless if and only if no read of the status it leaves claims traffic that was not taken |
| Canary.PausesAreHarmlessExactlyOn | argocdclient/canary_evidence.go:54-57 | pausing on a step is harmless in every such run exactly when it is a pause, a step analysis or an experiment; on any other kind a run is given that overclaims |
| Graph.CycleDetector.Dfs | slippy/pipeline_config.go:561-593 | one call either reports a real cycle or finishes its node and everything below it, leaving the gray set as it was; the white set shrinks at every call |
| Graph.FindCycle | slippy/pipeline_config.go:544-604 | nothing is reported exactly when the graph is acyclic, and a reported path is a cycle |
| Graph.AcyclicExactlyWhenNothingIsStuck | slippy/pipeline_config.go:544-604 | a graph is acyclic exactly when no non-empty set of nodes waits only for itself |
| Pipeline.ValidateStepIdentifier | slippy/pipeline_config.go:288-336 | accepted exactly for a bare identifier of at most 56 characters that is no fixed column, no marker and generates no column already claimed; the new claims are recorded, and a reported fault is there |
| Pipeline.CheckNames | slippy/pipeline_config.go:137-151 | the first loop passes exactly when all names are good, distinct and generate distinct columns |
| Pipeline.GoodNameMeans | slippy/pipeline_config.go:288-336 | a good name, letter by letter: 1 to 56 ASCII letters, digits and underscores, no digit first, and folded no fixed column, no reserved column and no marker |
| Pipeline.CheckPrerequisiteNames | slippy/pipeline_config.go:153-160 | the second loop passes exactly when every prerequisite names a step |
| Pipeline.DetectCircularDependencies | slippy/pipeline_config.go:544-604 | on the prerequisites of the steps as listed |
| Pipeline.CheckAggregates | slippy/pipeline_config.go:167-177 | the last loop passes exactly when no two steps aggregate the same component type |
| Pipeline.Validate | slippy/pipeline_config.go:127-180 | accepts exactly the valid configurations, and every error it reports names a fault the configuration has |
| Pipeline.ValidConfigMeans | slippy/pipeline_config.go:127-180 | validity written out: a first step that waits for nothing, good distinct names, columns that fold apart, known prerequisites, no cycle, no component type aggregated twice |
| Lookups.PipelineConfig.Initialize | slippy/pipeline_config.go:523-542 | the three lookups as functions of the step list |
| Lookups.PipelineConfig.GetEffectivePrerequisites | slippy/pipeline_config.go:397-429 | each explicit prerequisite and each gate listed before the step, once and in ascending order; nothing for an unknown step |
| Lookups.ValidLookupIsConsistent | slippy/pipeline_config.go:364-378 | in an accepted configuration aggregate steps and component types name each other, one to one |
| NoDeadlock.ValidNeverDeadlocks | slippy/pipeline_config.go:127-180 | whatever the step statuses, while some step has not succeeded some unsuccessful step's prerequisites are all reported completed |
| NoDeadlock.EffectivelyLiveExactlyWhenAcyclic | slippy/pipeline_config.go:397-429 | with gates counted in that holds in every state exactly when the effective graph is acyclic |
| NoDeadlock.ListedEarlierIsLive | slippy/pipeline_config.go:411-419 | which it is when every explicit prerequisite is listed before its step |
| AcceptedConfigs.AcceptedGateDeadlocks | slippy/pipeline_config.go:411-419 | a three-step configuration Validate accepts whose gate and later step wait for each other |
| AcceptedConfigs.AcceptedConfigIsChained | slippy/pipeline_config.go:167-177 | a two-step configuration Validate accepts in which one aggregate step is another's component type, with the runs that strand and that hide on every row created for it |
| AcceptedConfigs.AcceptedConfigIsNeverStored | slippy/pipeline_config.go:274-282 | a configuration Validate accepts whose aggregate step is called order: where that is a reserved word no slip can be written or loaded |
| SlipColumns.SlipColumns | slippy/postgres_store.go:418-432 | the column list: fixed, then status columns, then aggregate columns |
| SlipColumns.SelectColumnsDistinct | slippy/pipeline_config.go:239-263 | in an accepted configuration no two select columns are equal after lower-casing |
| SlipColumns.SelectColumnsAreWhole | slippy/pipeline_config.go:182-190 | and every one is a bare identifier of at most 63 bytes |
| SlipColumns.PgNamesDistinct | slippy/pipeline_config.go:182-190 | so no two are one column after folding and truncation |
| SlipStore.SlipValues | slippy/postgres_store.go:746-807 | one value per column, in the column order |
| SlipStore.SplicedExactlyWhen | slippy/pipeline_config.go:274-282 | what an accepted configuration splices into its statements reads as columns exactly when no aggregate step is called by a reserved word, whatever those words are |
| SlipStore.ReadsBackWhatWasWritten | slippy/postgres_store.go:418-441 | the upsert of an accepted configuration goes through exactly when no aggregate step is called by a reserved word; the select then gives each value back at its position, and claimed_from is what the row held |
| SlipStore.SlipRecord.MergeStepDetails | slippy/postgres_store.go:850-892 | for any map order, each known step gets the details recorded for it and others are dropped |
| SlipStore.SlipRecord.ReconstructStepTiming | slippy/postgres_store.go:501-571 | for any map order, only missing timing is filled, from the first running and the first terminal entry of the step itself |
| SlipStore.SlipRecord.Populate | slippy/postgres_store.go:479-499 | the hydrated slip as a function of the scanned values |
| SlipRoundTrip.WriteThenLoad | slippy/postgres_store.go:746-807 | the slip is written exactly when no aggregate step is called by a reserved word, and loading it then gives its normal form: unset statuses pending, unknown steps dropped, missing timing filled, the row's own claim; otherwise no row can be loaded |
| SlipRoundTrip.LoadedIsWritten | slippy/postgres_store.go:479-571 | field by field: what a written slip is loaded as, with every recorded time kept and a missing one that of the step's own first running or terminal entry |
| SlipRoundTrip.NormalFormIsStable | slippy/postgres_store.go:479-571 | writing and loading again changes only the update time |
| SlipRoundTrip.BothReadsAgree | slippy/postgres_store.go:629-688 | the claim's read of a row and the full read see the same claim, status, step statuses and components |
| Prereqs.GetPrereqStatus | slippy/prereqs.go:51-80 | a component type is looked up among its aggregate's components, everything else among the steps, and what is not found is pending |
| Prereqs.CheckPrerequisites | slippy/prereqs.go:10-47 | the three lists in order and the verdict: failed when one failed, completed when all succeeded, else running |
| Prereqs.PaddedNamesCount | slippy/prereqs.go:20-26 | white space around a name does not count, and white space alone is no prerequisite |
| Prereqs.ListsKeepTheOrder | slippy/prereqs.go:20-47 | each list keeps the order in which the prerequisites are given |
| Prereqs.ListsSplitTheNames | slippy/prereqs.go:23-44 | the three lists split the named prerequisites with none lost or repeated |
| AggregatePrereqs.AggregateStandsForItsComponents | slippy/prereqs.go:51-80 | an aggregate step in sync with its distinct components is completed as a prerequisite exactly when every component is, and failed exactly when some component is |
| AggregatePrereqs.RollupCountsReportedComponents | slippy/postgres_store_updates.go:674-702 | after the store's rollup the aggregate step is completed exactly when all reported components succeeded, and its components exactly when the unreported ones did too |
| Reconcile.LatestStepEntry | slippy/executor.go:460-469 | the last entry of the step itself |
| Reconcile.CanarySkipsToReset | slippy/executor.go:434-458 | exactly the skipped canary steps whose latest entry is that skip for a canary reason, once prod_canary has succeeded, with their reasons |
| Reconcile.Completion.Classify | slippy/executor.go:278-292 | primary and cascade failures, for any map order |
| Reconcile.Completion.ResetStepsToPending | slippy/executor.go:385-400 | for any map order, the row after the resets and exactly the refused ones as failures |
| Reconcile.Completion.EvaluateLoaded | slippy/executor.go:263-383 | the row after the pass, and the completion flag, status and error the caller gets, for every order and every set of failing writes |
| Reconcile.Completion.CheckPipelineCompletion | slippy/executor.go:257-261 | a slip that cannot be loaded is left alone and reported |
| Reconcile.ResetAllMeans | slippy/executor.go:385-400 | whatever the order, exactly the accepted targets become pending and nothing else changes but the history, which grows |
| ReconcileFacts.PassMeans | slippy/executor.go:257-383 | a pass changes exactly the accepted targets, and the status only as its branch says |
| ReconcileFacts.SlipStatusAfterPass | slippy/executor.go:263-383 | from the steps' own statuses: failed as soon as some step failed and is not merely aborted, else completed once prod_steady_state is, else in progress again exactly when the slip was failed and every reset was accepted |
| ReconcileFacts.StatusChangesOnlyFor | slippy/executor.go:263-383 | and conversely a pass writes failed, completed or in progress for these reasons only, never to a completed, abandoned or promoted slip |
| ReconcileFacts.TargetsMean | slippy/executor.go:300-370 | exactly which steps a pass tries to reset: the aborted ones of a failed slip with nothing failed, and the canary's own skips once prod_canary has succeeded, unless the slip is completed |
| ReconcileFacts.PassLogsEachReset | slippy/executor.go:385-400 | every accepted reset is logged under the library's name with its reason |
| ReconcileFacts.TerminalStatusOverwrittenExactlyWhen | slippy/executor.go:274-276 | a terminal status is overwritten exactly when it is compensated, a primary failure or a completed steady state is there and the write succeeds |
| ReconcileFacts.FullPassRecovers | slippy/executor.go:337-370 | when every write succeeds a recoverable slip ends in progress with no aborted step and no stale canary skip |
| ReconcileFacts.RefusedPassStaysFailed | slippy/executor.go:346-364 | when a reset is refused the slip stays failed with exactly the refused steps outstanding |
| ReconcileFacts.PassesConverge | slippy/executor.go:346-370 | passes that fail leave the slip recoverable with no new aborted step, and the first that succeeds puts it in progress |
| ReconcileFacts.PassNeverUnblocks | slippy/executor.go:294-300 | prerequisites completed after a pass were completed before it |
| ReconcileFacts.CanarySkipIsResetOnce | slippy/executor.go:434-458 | a reset canary skip is not reset again until a newer entry skips the step for a canary reason |
| ReconcileFacts.StepWriteKeepsRolledUp | slippy/postgres_store_updates.go:432-512 | for every consistent lookup, every step write keeps reported and chained aggregate steps neither aborted nor skipped |
| ReconcileFacts.ResetIsTheStepWrite | slippy/executor.go:389-391 | on such a row, chained lookups included, the pass's reset is exactly the store's componentless step write |
| Endings.SlipHandle.AbandonSlip | slippy/client.go:102-129 | abandons a running slip, leaves a terminal one alone without an error |
| Endings.SlipHandle.PromoteSlip | slippy/client.go:141-173 | promotes a running slip, leaves a terminal one alone without an error |
| Endings.FirstEndingWins | slippy/client.go:231-243 | of any calls in any order the first that lands decides, and the claim is released with it |
| Endings.FinalIsFinal | slippy/executor.go:263-273 | no mix of completion checks and ending calls changes a completed, abandoned or promoted slip |
| Endings.AbortedStepStaysExactlyWhen | slippy/steps.go:148-157 | the completion check after AbortStep puts the step back to pending exactly when the slip is failed with no primary failure, no completed steady state, and the reset lands |
| Endings.TimedOutStepStays | slippy/steps.go:148-157 | the check after TimeoutStep leaves the step timed out and marks the slip failed |
| Hold.Client.constructor | slippy/client.go:34-57 | a value of 0 or less gets its default, and the maximum depth is raised to the depth, never to its own default |
| Hold.Client.ApplyHoldDefaults | slippy/client.go:210-228 | a timeout or interval of 0 or less becomes the configured one |
| Hold.Poll | slippy/hold.go:59-158 | the loop: bounded loads, what the last load showed at each exit, and exactly the status write of that exit unless it was refused; a cancelled exit saw a cancellation |
| Hold.WaitForPrerequisites | slippy/hold.go:32-159 | with the given or else the configured timeout and interval: at most timeout / interval + 2 loads, a timeout only after that time; nil only when the last load showed every prerequisite completed or skipped, failed with exactly the failed ones, cancelled only after a cancellation, and the step left held, aborted or timed out exactly by exit when no status write is refused |
| Hold.WaitForPrerequisitesWithResult | slippy/hold.go:193-238 | the outcome read off the error text; an error that reads as failed prerequisites costs exactly one more load, and the names are exactly that load's failed ones |
| Hold.ReportedAs | slippy/hold.go:209-253 | a cancellation before a load is reported failed, one during the wait cancelled, and failed prerequisites as a timeout exactly when a name contains that word |
| Hold.WrappedReportedAs | slippy/hold.go:209-253 | a failed load or a failed held write is reported by which of the three words its cause, or the step's name, happens to hold |
| Hold.ReportedTrulyExactlyWhen | slippy/hold.go:193-253 | for all six exits: the reported outcome is the exit taken if and only if the stated words are absent, never for a cancellation before a load; and proceeding is reported exactly for nil |
| Migrations.Migrator.AddMigrations | postgresmigrator/migrator.go:275-279 | appended and sorted by version, none lost |
| Migrations.Migrator.InTx | postgresmigrator/migrator.go:479-507 | commit or roll back as one step, where a lost acknowledgement reads as an error |
| Migrations.Migrator.Apply | postgresmigrator/migrator.go:405-449 | the migration and its version land together or not at all; blank SQL and a missing version table fail |
| Migrations.Migrator.ApplyRange | postgresmigrator/migrator.go:336-346 | wherever it stops, nothing is unapplied and what was applied is runnable and above the version it started from, and on versions that are unique and fit an int32 coverage and exactness survive; on success everything in the range is applied and none was blank |
| Migrations.Migrator.CreateTables | postgresmigrator/migrator.go:113-154 | on any sorted list: success means everything above the recorded version is applied, and undisturbed it fails only for a blank pending migration; on unique int32 versions the applied migrations are at every stop exactly those at or below the recorded version, which only rises |
| Migrations.Migrator.MigrateDown | postgresmigrator/migrator.go:348-377 | wherever it stops every migration at or below the recorded version is applied, and the state is that of a completed prefix of the work |
| Migrations.Migrator.PreviousVersion | postgresmigrator/migrator.go:361-367 | the greatest registered version at or below the target, or the target |
| Migrations.Migrator.MigrateToVersion | postgresmigrator/migrator.go:229-253 | up, down or nothing by the recorded version, keeping coverage; undisturbed on a migrated database it succeeds, upward exactly when nothing in the range is blank |
| Migrations.Migrator.Operate | postgresmigrator/migrator.go:113-253 | any sequence of runs that may each fail or die anywhere keeps coverage, and exactness when none goes down |
| Migrations.Migrator.OperateAndRecover | postgresmigrator/migrator.go:113-154 | after any such sequence one undisturbed CreateTables applies everything and records the latest version, unless a migration it must apply is blank |
| Migrations.Migrator.FromScratch | postgresmigrator/migrator.go:113-154 | from a new database, however many runs die, the record is exact at every stop and never falls, and one undisturbed run then succeeds exactly when no migration is blank, with everything applied and the latest version recorded |
| Migrations.UpKeepsCoveredExactlyWhen | postgresmigrator/migrator.go:336-346 | on any versions, applying the next migration keeps coverage exactly when no other one of the same version is still to come |
| Migrations.EmptyIsExactExactlyWhenPositive | postgresmigrator/migrator.go:179-219 | before any run the record is exact exactly when every version is positive |
| Migrations.DownMeans | postgresmigrator/migrator.go:348-377 | a complete down-run removes exactly the reversible migrations of the range and records the greatest registered version at or below the target, or changes nothing |
| Migrations.ExactMidwayExactlyWhen | postgresmigrator/migrator.go:361-369 | stopped after its first revert, the record is exact exactly when nothing of the range is applied any more: the final version is recorded first |
| Migrations.FloorIsBelow | postgresmigrator/migrator.go:361-367 | what the inner loop finds is the greatest registered version at or below the target |
| Migrations.RecordsItselfExactlyInInt32 | postgresmigrator/migrator.go:436-437 | an applied migration records its own version exactly when that fits an int32 |
| FirstParent.FilterFirstParentChain | github/graphql.go:437-480 | the map-based loop equals the recursive walk over the fetched commits |
| FirstParent.ChainIsTheWalk | github/graphql.go:433-436 | every listed commit is the true first-parent ancestor of the first one at its distance |
| FirstParent.ChainStopsOnlyAtTheEnd | github/graphql.go:460-474 | a chain shorter than asked ends at a root or at a parent that was not fetched |
| FirstParent.ChainGrowsWithDepth | github/graphql.go:436-480 | a deeper request extends the chain of a shallower one |
| FirstParent.ChainRepeatsNothing | github/graphql.go:433-480 | in a history without cycles no commit is listed twice |

## Left out

- The text of claim, release and reset reasons inside history messages, apart from the reset messages a pass writes.
- Ancestry links, the one-row-per-commit index and its duplicate error, and the successor's parent link in Repave.
- `Client.ClaimSlip` and `Client.ReleaseClaim` as wrappers: the probe for a store without claims, tracing and logging.
- The push path that decides between create, reset and repave; the slip it builds and the store operations it calls are
  modelled, without the components' other data.
- SQL text, pgx, connection handling, `ProbeSchema` and the database's own status checks: a transaction is one step.
- JSON and time formats: a JSON column holds the value it encodes, a timestamp is an instant. Malformed JSON is not modelled.
- `applyClaimants` and the `ClaimedBy` of a step, image tags and start times of components in an aggregate's items.
- The freshness window's clock: whether a recorded state is young enough to refuse a write is an arbitrary choice.
- Lower-casing beyond A-Z and the two code points whose lower case is ASCII: the names compared with are ASCII.
- Go's `%v` formatting of field values: a value is the string it gave. Output is a list of code points, which is valid text.
- `slices.Sort` and `sort.Slice` are library calls, modelled by an insertion sort with the contract they promise.
- Which words Postgres reserves: any set that holds no column of the slip's own and nothing that reads like a status column.
- int32 step indexes of a rollout, and a controller with background analyses that pause it.
- Reads and writes of a slip that interleave between a client's load and its write: each pass and each ending sees one row.
- Version tables created before their id column existed, whose newest row is then found by time.
- Schema ensurers beyond their failing, `DropTables`, `ValidateSchema`, and concurrent migrators.
- FirstParent.FilterFirstParentChain: takes a depth of at least 0; a negative one panics when the slice is made.
- Configuration loading, HTTP, GitHub, Kafka, Vault and notification clients, and the ClickHouse migrator.

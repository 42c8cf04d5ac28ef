# NetAudit model

NetAudit ingests network configurations, parses them into security baselines, evaluates
them against a control bundle, proposes remediations, collects approvals and reports. This
project models the parts of it that keep state or promise a relation between several
functions, and proves those promises for all inputs, all runs and all interleavings.

- **Remediation approvals.** `RemediationDb` holds the effect of each database transaction,
  `ApprovalProtocol` the calls as interleaved transactions on a clock, `ApprovalSafety` the
  inductive invariant with quorum safety and lifecycle, `ApprovalConcurrency` what overlapping
  calls keep, `ApprovalConditions` when exactly they break the two-person rule,
  `ApprovalRejection` when a rejection voids the approvals before it, `ApprovalTraces` runs in
  which neither holds, `ApprovalLifecycle` what a rollback restores, `ApprovalStore` the service
  as a class whose methods run whole calls, `ApprovalPermission` who may approve what and who
  logged every event, and `ApprovalHistory` every column of a row traced to the call that wrote it.
- **Topology graph.** `Topology` is the incremental ingest as a class over stored nodes and
  edges, `TopologyInvariant` the placeholder invariant, `TopologyConfluence` agreement with the
  graph computed from all devices at once, `TopologyOrders` when exactly scan order is irrelevant,
  `TopologyExamples` the smallest fleets on which it is not, `BlastRadius` bounded undirected reachability.
- **Baseline merge.** `Merge` is the in-place recursive merge folded over chunks,
  `MergeTheorems` its closed form per path and what chunk order cannot change, `Survivors` and
  `MergeConflicts` how often each path is reported and when exactly that depends on the order,
  `MergePenalty` the same for the confidence penalty, and `MergeMeaning` which chunk prevails, in
  the chunks' own words.
- **Chunk parsing, confidence gate, chunking, evidence, rate limiter.** `ChunkParser` with its
  cache, `ConfidenceGate`, `Evidence`, `RateLimiter`.
- **Reverse translation.** `CliLexer` gives configuration text as lines of words with the
  line patterns of the mock extractor, `MockExtractor` and `MockPrinter` the pair of agents,
  `Spelling`, `PrintedText`, `PrintedMatches`, `PrintedIke`, `MockRoundTrip` and `PrintedNames`
  the proof that they undo each other on text, `Fidelity`, `FidelityTheorem` and `FidelityFacts`
  the fidelity score. `LinePatterns`, `ExtractorMeaning` and `PrinterMeaning` say what is read from
  any text and what is printed, in the literal words of its lines.
- **Reporting.** `Ledger` and `FindingStore` are the shared ledger and the writer of
  detections, `DetectionLedger` and `FirstReports` all runs of the services that share them,
  `ExecutiveReport`, `HiddenFindings`, `Mttr`, `MttrLaws`, `MttrOrder`, `MttrMeaning`, `Scoring`,
  `ScoreMeaning` and `Trend` what is derived.
- **What-if analysis.** `ReachabilityDiff`, `Counterfactual`, `ScriptImpact`, and `ScriptDirection` on
  whether the directions a script is estimated to have are true of the device it runs on.

## Findings

- Quorum safety needs its hypotheses. An approval that
  counted its quorum finalises a version saved meanwhile: the row is then sound exactly unless
  that version passed its preflight (`LateFinalisationIsSoundExactly`). A save or reject that
  began before an approval and commits after it leaves an `updated_at` older than that approval,
  which then counts for the wrong version: one caller alone completes the two-person rule exactly
  if somebody else's approval is stamped at or after `updated_at` (`SaveIsUnsafeExactly`,
  `RejectIsUnsafeExactly`), which on an increasing clock means recorded since that call began
  (`StampedSinceIsRecordedSince`) and covers the clock that reads the same instant twice. An
  approver with an empty user id counts twice (`EmptyActorCountsTwice`). Each has its run.
- A rejection voids the approvals before it as long as no save or reject overlaps an approval or
  rollback of its row. Otherwise an approval counted before a rejection and finalised after it
  overwrites the rejection (`OverwritesRejectionExactly`, run `RejectInBetween`), and `updated_at`
  may be wound back behind an approval that should be void: by the rejection itself, or by a
  rollback that began before that approval. One caller alone then gets the row approved exactly if
  somebody else's approval is stamped since the late call began (`LateRejectExactly`,
  `LateRollbackExactly`; on any waiting row, since `updated_at`, `OneCallerUnbacksItExactly`; runs
  `LateRejectVoidsNothing`, `LateRollbackRevives`).
- Re-evaluating a run deletes its findings and, by the foreign key of the schema, its
  proposals. A rollback can therefore only ever restore the hash of the run's newest evaluation.
- Scan order changes the topology graph exactly if some scanned device routes to an address in an
  unsteady way (`ConfluentExactly`): either another device lists it and none keeps it, because it
  stands only under interface names that are reused further down; or another device may answer, as
  it lists the address, and keeps it if the caller does, but need not, as the caller routes by the
  same protocol to no address that it does not keep and this device alone of the others lists.
  Where no two devices share an address only a dropped one does that (`DisjointIsSteadyExactly`);
  two devices that both keep it do so as well (`SharedAddressBreaksConfluence`). One owner for
  every called address is enough (`OneOwnerIsSteady`) but not needed (`SharedAddressCanBeHidden`).
- The set of conflict paths does not depend on chunk order, but how often each is reported can.
  At each path that is independent of order exactly if all known values that are not negative
  occur equally often and then no negative one occurs twice, or all are negative and occur equally
  often (`CountIsOrderFreeExactly`). If that holds at every path, so is the confidence penalty,
  which only counts the conflicts (`SameWhenBalanced`), but not conversely: three chunks, each the
  odd one out at a path of its own, yield four conflicts in every order (`OddOnesOut`). Where all
  values are known and not negative the penalty is independent of order exactly if every chunk
  disagrees with the others in as many places (`PenaltyIsOrderFreeExactly`).
- A failed chunk is cached, against what the cache says of itself, if its candidate passes both
  gates and the schema then refuses it (`FailureIsCachedExactly`). While the cache lasts that chunk
  fails on every later job whose identity the schema refuses it with, whatever the model would
  answer (`CachedFailureStays`).
- Still open misses a failing pair exactly if its run was moved to an unfinished status after its
  last accepted save and not back (`NothingIsHiddenExactly`).
- Applying a filter does not always narrow, as the estimate of a script reports: it does exactly
  if the place is shut, had no filter, or had one that permits all the new one does
  (`ApplyNarrowsExactly`). Setting a trusted host narrows exactly if all it matches was trusted
  (`TrustNarrowsExactly`). Unsetting one is reported as permitting, but while others remain it shuts
  out what only it matched (`UntrustWidensExactly`, `UnsettingHostNarrows`).
- `locate` returns one hit even for a limit of zero or less, and chunking drops a final empty line.
- The mock round trip loses IKE policies without an id (FortiOS proposals) and community
  strings with blanks in them; `FidelityExactly` says when fidelity is 1.
- The averages, counts and open violations of a remediation-time summary depend on event order
  exactly when equally early detections of a pair disagree on the tier
  (`SummaryIsOrderFreeExactly`); the writer's uniqueness rules that out.

## Model

| member | source | states |
|---|---|---|
| `ApprovalSafety.QuorumSafety` | services/remediation/app/db.py:29-259 | In every interleaving where no save overlaps an approve or reject of its row and approvers are named, an APPROVED row is preflight SAFE, not BLOCK, and backed by approvals given after its latest proposal, by two different actors if DUAL_APPROVAL; it was applied only after such an approval, and applied_at is null exactly while rollback_status is NONE |
| `ApprovalSafety.StepKeepsInv` | services/remediation/app/db.py:29-259 | Each transaction keeps the invariant relating rows, ledger order, timestamps and calls in flight |
| `ApprovalSafety.RecordFindsQuorum` | services/remediation/app/db.py:103-143 | When the locked half of an approval counts a quorum, the ledger really holds two different approvers of the current version, or the row already had them |
| `ApprovalSafety.StepsAreLocal` | services/remediation/app/db.py:330-350 | A step on one proposal leaves every other row and its events alone; no step removes a ledger event |
| `ApprovalSafety.LedgerOnlyGrows` | services/remediation/app/db.py:330-350 | Over any run the earlier ledger is a prefix of the later one |
| `ApprovalSafety.TransactionFrame` | services/remediation/app/db.py:93-259 | What any transaction may write: events of its own key between its two clock readings, its own row, a row's draft only by a save |
| `ApprovalConcurrency.NoApprovalIsLost` | services/remediation/app/db.py:98-143 | If two distinct actors' recording transactions commit on a DUAL_APPROVAL row with its updated_at unchanged between them, the later one finds the quorum, in every interleaving |
| `ApprovalConcurrency.EmptyActorCountsTwice` | services/remediation/app/db.py:129-143 | A satisfied two-person count rests on two recorded actors if and only if the caller is named or somebody other than system approved before |
| `ApprovalConcurrency.OverlappingSaveBreaksQuorum` | services/remediation/app/db.py:143-149 | A run in which a save between the two transactions of an approval gets an unreviewed script approved, one case of LateFinalisationIsSoundExactly |
| `ApprovalConcurrency.ClockTieBreaksQuorum` | services/remediation/app/db.py:129-136 | A history with one repeated clock reading in which one actor alone satisfies the two-person rule, one case of SaveIsUnsafeExactly |
| `ApprovalConcurrency.EmptyActorBreaksQuorum` | services/remediation/app/db.py:347-347 | A run in which one unnamed caller approves twice and satisfies the two-person rule |
| `ApprovalConditions.LateFinalisationIsSoundExactly` | services/remediation/app/db.py:143-149 | After an approval counted its quorum anything may happen but an approval of a version saved meanwhile; its finalisation leaves a sound row if and only if no save of that key came in between or the version then stored did not pass its preflight |
| `ApprovalConditions.FinalisedAfterSaveExactly` | services/remediation/app/db.py:170-176 | For any tables, version, user and times, a finalisation right after a save is sound if and only if the saved version did not pass its preflight |
| `ApprovalConditions.OneCallerBreaksItExactly` | services/remediation/app/db.py:122-143 | On a waiting DUAL_APPROVAL row that only this caller approved, a further approval by the same caller completes the rule, unsoundly, if and only if the ledger holds somebody else's approval stamped at or after updated_at |
| `ApprovalConditions.SaveIsUnsafeExactly` | services/remediation/app/db.py:70-143 | A save leaves a version that one caller alone gets approved if and only if somebody else's approval is stamped at or after the updated_at it wrote: a clock tie or a save that committed late |
| `ApprovalConditions.RejectIsUnsafeExactly` | services/remediation/app/db.py:93-176 | The same for a reject, whose updated_at is the instant its call began |
| `ApprovalConditions.StampedSinceIsRecordedSince` | services/remediation/app/db.py:330-350 | On a strictly increasing clock, in every interleaving, the events stamped at or after the instant a call began are exactly those recorded since |
| `ApprovalTraces.LateSaveBreaksQuorum` | services/remediation/app/db.py:70-70 | A run in which a save reads the clock, an approval of the old version is recorded, the save commits, and then one person alone gets the new version approved |
| `ApprovalTraces.LateRejectBreaksQuorum` | services/remediation/app/db.py:93-96 | A run in which a reject that began before an approval commits after a save and winds updated_at back, with the same effect |
| `ApprovalRejection.RejectionVoidsApprovals` | services/remediation/app/db.py:86-195 | In every interleaving where no save or reject overlaps an approval or rollback of its row and approvers are named, an APPROVED row has its approvals, by two different actors if DUAL_APPROVAL, since it was last proposed or rejected |
| `ApprovalRejection.WholeCallsVoidApprovals` | services/remediation/app/db.py:86-195 | The same for any history of whole calls |
| `ApprovalRejection.StepHolds` | services/remediation/app/db.py:29-259 | Each transaction keeps the invariant behind it |
| `ApprovalRejection.RecordIsBacked` | services/remediation/app/db.py:122-143 | The counted quorum rests on two different approvers since the latest proposal or rejection, or the row already had them |
| `ApprovalRejection.OverwritesRejectionExactly` | services/remediation/app/db.py:143-176 | An approval that counted its quorum and finalises a SAFE row leaves it APPROVED, with its approvals since the latest proposal or rejection if and only if neither came in between, as long as nobody approved anew what was reset meanwhile |
| `ApprovalTraces.RejectInBetween` | services/remediation/app/db.py:143-176 | A run that ends APPROVED although its last event is a rejection |
| `ApprovalRejection.OneCallerUnbacksItExactly` | services/remediation/app/db.py:122-143 | On any tables with a waiting SAFE DUAL_APPROVAL row on which nobody else's approval stands, a further approval by one caller alone gets it approved without two approvals since the latest proposal or rejection if and only if somebody else's is stamped at or after updated_at |
| `ApprovalRejection.LateRejectExactly` | services/remediation/app/db.py:93-176 | After any rejection of a SAFE DUAL_APPROVAL row that happens if and only if somebody else's approval is stamped at or after the instant the reject began |
| `ApprovalRejection.LateRollbackExactly` | services/remediation/app/db.py:235-259 | And after the rollback of an applied row that is not APPROVED and on which nobody else's approval stands, if and only if one is stamped at or after the instant the rollback began |
| `ApprovalTraces.LateRejectVoidsNothing` | services/remediation/app/db.py:93-96 | A run in which a reject reads the clock, an approval is recorded, the reject commits, and then one other person alone gets the row approved |
| `ApprovalTraces.LateRollbackRevives` | services/remediation/app/db.py:241-252 | A run in which a rollback reads the clock, an approval is recorded and rejected, the rollback commits, and then one person alone gets the row approved |
| `ApprovalLifecycle.RowCarriesPinned` | services/remediation/app/db.py:158-195 | In every run a row carries the hash its last finalised approval pinned, across rejections and regenerations, until its run is evaluated anew |
| `ApprovalLifecycle.LastFinalisedIsLast` | services/remediation/app/db.py:158-186 | The approval meant is the last finalised one, with no evaluation of the run since |
| `ApprovalLifecycle.PinnedIsNewest` | services/remediation/app/db.py:160-166 | The pinned hash is still that of the run's newest evaluation |
| `ApprovalLifecycle.RollbackRestoresPinnedHash` | services/remediation/app/db.py:235-259 | Every rollback event in the ledger of any run was logged by the commit of a rollback of its row, after an approval of that row was finalised, and holds the hash the latest such approval pinned, which was then that of the run's newest evaluation |
| `ApprovalStore.WholeCallsAreSafe` | services/remediation/app/db.py:29-259 | Quorum safety and lifecycle for any history of whole calls, one at a time on an increasing clock |
| `ApprovalStore.ApproveKeepsQuiescent` | services/remediation/app/db.py:86-155 | A whole approve or reject call keeps the invariant of a store between calls |
| `ApprovalStore.Store.Safety` | services/remediation/app/db.py:29-259 | Whatever calls a valid store has served, if its approvers were named every stored row is soundly approved and applied |
| `ApprovalStore.HandleKeepsQuiescent` | services/remediation/app/db.py:29-259 | Each whole call of the service keeps the invariant of a store between calls |
| `ApprovalStore.Store.SaveProposal` | services/remediation/app/db.py:29-83 | The upsert resets the approval columns, keeps the pinned hash and logs the proposal and its decision |
| `ApprovalStore.Store.Approve` | services/remediation/app/db.py:86-155 | The whole call: rejection, permission check, version-scoped count of approvers, logged approval, and finalisation only with a quorum; whom the check lets through is `LogsExactly` |
| `ApprovalPermission.LogsExactly` | services/remediation/app/db.py:103-141 | For all tables the locked transaction logs an approval, in the name of the user or of system, if and only if the row exists, its preflight is SAFE, the actor is human, the action is not BLOCK, and the role is admin, or is operator with a decision, a risk other than HIGH and no blast radius; otherwise it changes nothing |
| `ApprovalPermission.LowerIsLetThrough` | services/remediation/app/approval_matrix.py:47-58 | What is let through at a risk and blast radius is let through at every lower one |
| `ApprovalPermission.AnswersExactly` | services/remediation/app/db.py:98-155 | What a whole approve call answers: not found, refused, waiting with one approver, or finalised with the two that DUAL_APPROVAL needs, each exactly when |
| `ApprovalPermission.EveryEventIsEntitled` | services/remediation/app/db.py:330-350 | In every run each event was logged by the commit of a call entitled to it on the tables it found: an approval by somebody permitted to approve the draft then stored, an application of an approved row, a rollback of an applied one with its pinned hash |
| `ApprovalPermission.LoggedExactly` | services/remediation/app/db.py:70-83 | And a step logs what there is occasion for, and nothing else |
| `ApprovalPermission.CurrentApprovalsArePermitted` | services/remediation/app/db.py:103-141 | An approval not older than the row's latest proposal was given by somebody permitted to approve the very draft the row holds now |
| `ApprovalPermission.RiskyNeedsAdmins` | services/remediation/app/approval_matrix.py:51-58 | Where saves keep apart, an APPROVED row that is undecided, of HIGH risk or with a blast radius rests on approvals that human admins gave, by two actors if DUAL_APPROVAL |
| `ApprovalHistory.RowIsExplained` | services/remediation/app/db.py:29-259 | In every run a row is there exactly if it was proposed since its run was last evaluated; its draft is the one proposed last, its status, approver, comment and instant those of the last verdict since, its application and rollback those of the last ones since, and updated_at the start of the last of these calls |
| `ApprovalHistory.LatestIsLast` | services/remediation/app/db.py:158-259 | The call meant is the last of its kind that took effect |
| `ApprovalStore.Store.CountPriorActors` | services/remediation/app/db.py:129-136 | The loop collects the distinct actors of approvals not older than the version |
| `ApprovalStore.Store.FinalizeApproval` | services/remediation/app/db.py:158-195 | The guarded update, pinning the newest evaluation hash on approval and logging only rejections |
| `ApprovalStore.Store.MarkApplied` | services/remediation/app/db.py:214-232 | Only an approved row is applied and logged |
| `ApprovalStore.Store.Rollback` | services/remediation/app/db.py:235-259 | A failed verification is logged even when no applied row matches; an applied row is rolled back to its pinned hash |
| `ApprovalStore.Store.RecordEvent` | services/remediation/app/db.py:330-350 | One event is appended, with system for an empty actor |
| `ApprovalStore.Store.RecordEvaluation` | services/compliance/app/db.py:63-147 | The run's proposals disappear with its findings, and with a baseline its hash is appended to the evaluations |
| `RemediationDb.NewestEvaluation` | services/remediation/app/db.py:160-166 | The run's evaluation of greatest timestamp, and None exactly if there is none |
| `RemediationDb.NewestHashExactly` | services/remediation/app/db.py:160-166 | The pinned hash is that of an evaluation of the run than which none is later |
| `ApprovalMatrix.QuorumNamesAnother` | services/remediation/app/approval_matrix.py:61-68 | The two-person rule is satisfied if and only if somebody other than the caller approved before |
| `TopologyConfluence.IncrementalIsBatch` | services/compliance/app/graph_client.py:87-172 | If each device always carries the same baseline and every call is steady, any sequence of ingests yields the batch graph: the last port of each name, and a call answered by the caller if it keeps the address, else by the only other device that lists it, else parked on a placeholder; addresses may be shared and names reused |
| `TopologyConfluence.ArrivalOrderIsIrrelevant` | services/compliance/app/graph_client.py:87-172 | So any two sequences of ingests of the same devices, repeats allowed, give the same graph |
| `TopologyConfluence.ScansReach` | services/compliance/app/graph_client.py:87-172 | With no such hypothesis, after any sequence of ingests the ports are the last ones of each name, every call of a scanned device is answered or parked, and every edge is one that some call may have left |
| `TopologyOrders.ConfluentExactly` | services/compliance/app/graph_client.py:100-172 | For any fleet, all sequences that scan a set of devices, repeats allowed, give one graph if and only if every call is steady: if another device lists the address, somebody keeps it, and each other device that may answer must answer some call of that caller and protocol |
| `TopologyOrders.OrdersDisagree` | services/compliance/app/graph_client.py:107-172 | Otherwise two orders in which each device is scanned once give different graphs |
| `TopologyOrders.DisjointIsSteadyExactly` | services/compliance/app/graph_client.py:107-172 | If no two devices share an address, every call is steady if and only if none routes to an address that another lists only under interface names it reuses further down |
| `TopologyOrders.OneOwnerIsSteady` | services/compliance/app/graph_client.py:132-172 | Every call is steady if each called address is kept by the caller and by no other lister, or is listed by at most one other device, which keeps it |
| `TopologyOrders.OneCallNeedsOneOwner` | services/compliance/app/graph_client.py:132-172 | For a caller whose calls of a protocol are all for one address, that is also necessary |
| `TopologyConfluence.BatchIsUnique` | services/compliance/app/graph_client.py:87-172 | The batch conditions determine the graph |
| `TopologyConfluence.CallsExactly` | services/compliance/app/graph_client.py:127-152 | A device calls an address exactly if it names a neighbour with it, by the neighbour's protocol, or by one called unknown if it has none |
| `TopologyConfluence.ListsExactly` | services/compliance/app/graph_client.py:100-125 | It lists an address exactly if an interface with a name has it |
| `TopologyExamples.RepeatedNameBreaksConfluence` | services/compliance/app/graph_client.py:107-125 | The smallest case: a repeated interface name and two orders of two devices with different edges |
| `TopologyExamples.SharedAddressBreaksConfluence` | services/compliance/app/graph_client.py:132-172 | Two devices that keep one address and a third that routes to it: the graph depends on the order although no address is dropped, for any names and addresses |
| `TopologyExamples.SharedAddressCanBeHidden` | services/compliance/app/graph_client.py:132-172 | If the third device also routes to each of the two by an address of its own, the order no longer matters, although the shared address has two owners |
| `TopologyInvariant.PlaceholderInvariant` | services/compliance/app/graph_client.py:127-172 | In every reachable graph, for any baselines, no scanned device but the caller owns a parked address, and every placeholder has an incoming edge |
| `TopologyInvariant.IngestKeepsInv` | services/compliance/app/graph_client.py:87-172 | One ingest keeps that invariant, for any graph that has it |
| `BlastRadius.QueryFindsPaths` | services/compliance/app/graph_client.py:179-191 | The query returns exactly the other devices joined by a path of one to max_hops relationships, in either direction, without repeated nodes |
| `BlastRadius.BlastRadiusIsMutual` | services/compliance/app/graph_client.py:179-191 | Blast radius is symmetric, grows with the hop limit and leaves out the source |
| `BlastRadius.BlastRadiusOnlyGrows` | services/compliance/app/graph_client.py:87-191 | Ingesting any device with any facts into any graph removes no device from another's blast radius |
| `Topology.GraphStore.IngestBaseline` | services/compliance/app/graph_client.py:74-85 | A baseline without a device id changes nothing, any other is written in one transaction |
| `Topology.GraphStore.WriteTopology` | services/compliance/app/graph_client.py:87-172 | The loops over interfaces and neighbours and the reconciliation leave exactly the specified graph |
| `MergeTheorems.ScalarClosedForm` | services/parsing/app/merge.py:84-118 | At every scalar path the folded merge holds the first known non-negative value, else the first known negative one, else the first present |
| `MergeTheorems.ListClosedForm` | services/parsing/app/merge.py:105-108 | At every list path it holds the first list followed by the later unseen items in order |
| `MergeTheorems.ListItemsAreUnion` | services/parsing/app/merge.py:105-108 | The items of a merged list are those of all chunks' lists |
| `MergeTheorems.ConflictsAreDisagreements` | services/parsing/app/merge.py:109-112 | A path is reported if and only if two baselines hold different known scalars there |
| `MergeTheorems.NegativeWins` | services/parsing/app/merge.py:80-81 | A scalar ends up false or DISABLED exactly when something is known there and everything known is; by literal words in `EnabledWins` and `TrueWins` |
| `MergeMeaning.EnabledWins` | services/parsing/app/merge.py:80-112 | Where chunks say ENABLED, DISABLED or nothing, the merged value is ENABLED if and only if some chunk says so, and DISABLED if and only if one says that and none says ENABLED, in whatever order |
| `MergeMeaning.TrueWins` | services/parsing/app/merge.py:80-112 | The same for true and false |
| `MergeMeaning.FirstFirmWordStays` | services/parsing/app/merge.py:75-112 | The first chunk to say anything but false or DISABLED decides, whatever comes later: a number, zero included, is never replaced |
| `MergeMeaning.UnknownExactly` | services/parsing/app/merge.py:115-118 | What says nothing is null, unknown, none and blanks, in any letter case and with blanks around |
| `MergeMeaning.IdentityIsTheJobs` | services/parsing/app/merge.py:33-39 | Vendor, system, version and model are the job's, and so is the hostname if it has one; every other path is as merged |
| `MergeMeaning.PenaltyPerConflict` | services/parsing/app/merge.py:26-48 | The penalty is subtracted once per conflict, and the result kept between 0 and 1 |
| `MergeMeaning.MergedExactly` | services/parsing/app/merge.py:26-64 | The merged confidence is the least confident chunk's less the penalties, and the two signals are the least that any chunk measured |
| `MergeMeaning.UnknownBlocksAddUp` | services/parsing/app/merge.py:49-51 | Unknown blocks add up over the chunks |
| `MergeTheorems.OrderIsIrrelevant` | services/parsing/app/merge.py:20-24 | Conflict paths, list items and the sign of a scalar do not depend on chunk order |
| `MergeConflicts.ConflictsAreClashes` | services/parsing/app/merge.py:84-112 | The merge walks over the known scalars of each path: its survivor is the merged value, each clash a reported conflict |
| `MergeConflicts.ConflictsClosedForm` | services/parsing/app/merge.py:84-112 | With k known scalars at a path, its leader the first that is not negative or, without one, the first: the path is reported k minus the copies of the leader times if the leader comes first, otherwise one time more minus the copies of the first value in front of the leader |
| `MergeConflicts.CountIsOrderFreeExactly` | services/parsing/app/merge.py:26-29 | The count at a path is the same for all orders of the chunks if and only if all known values that are not negative occur equally often and then no negative one twice, or all are negative and occur equally often |
| `MergeConflicts.ReportIsOrderFreeExactly` | services/parsing/app/merge.py:26-29 | The whole report, each path as often as it is reported, is the same for all orders if and only if that holds at every path |
| `MergeConflicts.SameWhenBalanced` | services/parsing/app/merge.py:26-29 | If it does, the number of conflicts and so the penalty is the same too |
| `MergePenalty.PenaltyIsOrderFreeExactly` | services/parsing/app/merge.py:26-29 | Where all values are known and not negative, the number of conflicts is the same for all orders if and only if every chunk disagrees with the others in equally many places |
| `MergePenalty.CountsTheFirst` | services/parsing/app/merge.py:84-118 | There the merge reports as many conflicts as the first chunk has disagreements with the others |
| `MergePenalty.OddOnesOut` | services/parsing/app/merge.py:26-29 | Three chunks, each the odd one out at one of three paths: four conflicts in every order, although the count at each path depends on it |
| `Survivors.ClashesClosedForm` | services/parsing/app/merge.py:109-112 | How often a surviving value clashes with those it meets, for any values and any notion of negative |
| `MergeTheorems.PenaltyDependsOnOrder` | services/parsing/app/merge.py:26-29 | The smallest case: three chunks whose number of conflicts depends on their order, for any two values |
| `MergeTheorems.MergedShape` | services/parsing/app/merge.py:20-24 | The merged tree has the common shape of the baselines |
| `Merge.Merger.MergeDict` | services/parsing/app/merge.py:84-112 | The recursive in-place merge returns the specified dictionary and appends exactly the specified conflicts |
| `Merge.Merger.MergeBaselines` | services/parsing/app/merge.py:11-64 | The fold, the job's device identity, the penalised minimum confidence, the summed unknown blocks and the weakest measured log-probability and fidelity, unmeasured only if no chunk measured it |
| `ChunkParser.Parser.ParseChunk` | services/parsing/app/worker.py:156-275 | One chunk: a cache hit skips the model and both gates; otherwise the log-probability gate, the fidelity gate, the cache and then the schema decide; what they raise becomes an unknown block |
| `ChunkParser.EachIsOne` | services/parsing/app/worker.py:156-275 | Every chunk parsed returns a baseline or an unknown block, never both and never neither, whatever the cache holds |
| `ChunkParser.BaselinesPass` | services/parsing/app/worker.py:176-241 | Whatever was parsed before, no baseline, from the model or the cache, carries a signal below its gate |
| `ChunkParser.FailureIsCachedExactly` | services/parsing/app/worker.py:239-275 | A chunk that was not cached and fails leaves a candidate in the cache if and only if it passed both gates, could be stored, and was then refused by the schema |
| `ChunkParser.CachedFailureStays` | services/parsing/app/worker.py:175-183 | From then on, over any further chunks, that chunk fails with the same candidate whatever the model would answer, as long as the cache can be read and the schema refuses it |
| `ChunkParser.HitIsIndependent` | services/parsing/app/worker.py:175-183 | On a hit neither the model's answer nor its fidelity matters |
| `ChunkParser.ParsedExactly` | services/parsing/app/worker.py:172-267 | A chunk yields a baseline if and only if there is a cached candidate, or an answer whose measured signals reach both thresholds, and the schema accepts it; the baseline is what the schema makes of it |
| `ChunkParser.CachedExactly` | services/parsing/app/worker.py:172-243 | The cache gains exactly the candidates that reached both thresholds and were not read from it, and nothing else in it changes |
| `ChunkParser.FailsExactly` | services/parsing/app/worker.py:207-275 | It fails for the first gate it missed, with the raw answer if there was one |
| `ConfidenceGate.ChunksArePartitioned` | services/parsing/app/worker.py:301-315 | Over any chunks parsed with any cache, every chunk becomes exactly one baseline or unknown block, and each unknown block is listed once, in order |
| `ConfidenceGate.GateOpensExactly` | services/parsing/app/worker.py:346-380 | The confidence of a job reaches the threshold if and only if mean times coverage minus the conflict penalty does; that the job is then submitted is `SubmittedExactly` |
| `ConfidenceGate.SubmittedExactly` | services/parsing/app/worker.py:322-415 | For chunk confidences between 0 and 1 the verdict is a submission if and only if some chunk was parsed and mean times (1 - failed / (2 chunks)) - conflicts / 20 is at least 0.60, and then that number is the published confidence |
| `ConfidenceGate.EvaluatedExactly` | services/parsing/app/worker.py:316-415 | An evaluation is asked for exactly then, once, after every failed chunk was dispatched, with that confidence, the merged tree and the agreement |
| `ConfidenceGate.SumsAddUp` | services/parsing/app/worker.py:346-346 | The confidences of two lists of chunks add up |
| `ConfidenceGate.SubmittedIsTrustworthy` | services/parsing/app/worker.py:335-415 | Whatever the cache and the model answer, a submitted job has mean chunk confidence at least 0.60, at most four fifths failed chunks and at most eight conflicts |
| `ConfidenceGate.Worker.ProcessConfig` | services/parsing/app/worker.py:291-426 | The chunks are parsed in order, unknown blocks dispatched once each, exactly one of submission and review happens, and neither verdict nor published baseline depends on the deterministic cross-check |
| `Evidence.ChunkingKeepsLines` | services/ingestion/app/chunker.py:12-23 | Chunks hold at most max_lines lines and joining them restores every truncated line at its number, but for a final empty one |
| `Evidence.HitsSurviveChunking` | services/parsing/app/worker.py:370-370 | The hits found after chunking are those of the uploaded lines, exactly unless a pattern matches a final empty line |
| `Evidence.HitsAreLines` | services/compliance/app/evidence_locator.py:21-29 | A hit shows the line whose number it carries, and no matching line is missing |
| `Evidence.SplitsAtBreaks` | services/ingestion/app/chunker.py:12-13 | A line ends at a line feed, a carriage return with or without line feed, and the other eight characters Python splits at |
| `Evidence.KeptExactly` | services/ingestion/app/chunker.py:12-23 | A line longer than the limit keeps that many characters and a mark that it was cut |
| `Evidence.ShownExactly` | services/compliance/app/evidence_locator.py:21-29 | A hit shows its line without the blanks around it, at most 240 characters |
| `Evidence.TakenExactly` | services/compliance/app/evidence_locator.py:27-28 | The hits returned are a prefix of all of them, all if they are fewer than asked for, and one at the least if there is one |
| `Evidence.Locate` | services/compliance/app/evidence_locator.py:21-29 | The loop returns the first limit matching lines in order, at least one if there is one |
| `RateLimiter.Limiter.Request` | gateway/app/main.py:52-61 | With a non-decreasing clock at most the limit is accepted in any sixty seconds, a request is refused only when exactly that many were, and the deque is the recent part of the accepted history |
| `RateLimiter.Limiter.Expire` | gateway/app/main.py:56-57 | The pop loop leaves exactly the instants of the last minute |
| `RateLimiter.AcceptKeepsLimit` | gateway/app/main.py:58-61 | Accepting below the limit keeps every sixty-second interval within it |
| `RateLimiter.SpreadExactly` | gateway/app/main.py:52-61 | The bound on every interval holds if and only if of limit + 1 accepted requests in a row the first and the last are sixty seconds apart |
| `RateLimiter.RoomExactly` | gateway/app/main.py:56-61 | A request has room if and only if fewer than the limit were accepted or the one that many back is sixty seconds old |
| `MockRoundTrip.RoundTrip` | services/parsing/app/slm_client.py:176-392 | For every candidate the extractor can produce whose community strings are words, extracting from its printed text gives it back in order and content, but for IKE policies without an id |
| `MockRoundTrip.RoundTripExactly` | services/parsing/app/slm_client.py:217-222 | With community strings that are words it gives the very same candidate if and only if every policy carries an id |
| `FidelityTheorem.IdentityExactly` | services/parsing/app/slm_client.py:176-392 | For every candidate the extractor can produce, extracting from its printed text gives it back if and only if all its community strings are words and all its policies carry ids |
| `FidelityTheorem.ExtractIsProducible` | services/parsing/app/slm_client.py:264-363 | Whatever the text, the extracted candidate satisfies the round trip's conditions on hostnames, versions, hosts, servers and community strings |
| `FidelityTheorem.FidelityExactly` | services/parsing/app/reverse_translation.py:52-93 | Fidelity of the mock round trip is 1 if and only if all community strings are words and policies with ids name every encryption, for everything the extractor can produce |
| `FidelityTheorem.FidelityOfWords` | services/parsing/app/reverse_translation.py:80-93 | With community strings that are words the second condition alone decides, whatever device identity and topology surround it |
| `FidelityTheorem.OtherCommunitiesAreLost` | services/parsing/app/reverse_translation.py:80-93 | A community string that is not a word costs fidelity, whatever the other strings spell when printed |
| `PrintedNames.PrintedHasNoName` | services/parsing/app/slm_client.py:336-341 | No printed text reads as a quoted FortiOS name, even if its community strings hold line breaks and spell a block header |
| `PrintedNames.FlatIsWords` | services/parsing/app/slm_client.py:336-341 | A text has the same words line by line or all at once |
| `Fidelity.FidelityIsFullExactly` | services/parsing/app/reverse_translation.py:80-93 | Fidelity lies between 0 and 1 and is 1 exactly when no leaf fact is lost |
| `FidelityFacts.FactsExactly` | services/parsing/app/reverse_translation.py:52-77 | The facts of a candidate are what it holds under each key, placeholders, device identity and topology excepted |
| `FidelityFacts.FidelityIsTheShareKept` | services/parsing/app/reverse_translation.py:80-93 | Fidelity times the number of facts is the number of them that are kept |
| `MockExtractor.MockResponse` | services/parsing/app/slm_client.py:248-383 | Filling the result field by field gives the specified candidate and the confidence of the fields found; what that is in the words of any text is `ExtractorMeaning` |
| `ExtractorMeaning.TelnetExactly` | services/parsing/app/slm_client.py:289-300 | For every text telnet is read from the first of these that some line says: no transport input telnet, transport input telnet, set admin-telnet disable, set admin-telnet enable; and is unknown if none does |
| `ExtractorMeaning.PasswordExactly` | services/parsing/app/slm_client.py:302-307 | Password encryption likewise, where the affirmative line comes first |
| `ExtractorMeaning.HttpExactly` | services/parsing/app/slm_client.py:309-317 | The web server likewise, last from a set allowaccess line with the word http further along |
| `ExtractorMeaning.HostnameExactly` | services/parsing/app/slm_client.py:275-279 | The hostname is what the first hostname line gives, else the first set system host-name line, else the first set deviceconfig system hostname line |
| `ExtractorMeaning.VersionExactly` | services/parsing/app/slm_client.py:284-287 | The version is the first 1 or 2 that ends the line of an ip ssh version |
| `ExtractorMeaning.ListsExactly` | services/parsing/app/slm_client.py:319-329 | Logging hosts and time servers are what their lines give, in order |
| `ExtractorMeaning.CommunitiesExactly` | services/parsing/app/slm_client.py:335-341 | Community strings are what their lines give, and a FortiOS block's names after them if the text has such a block and a quoted name |
| `ExtractorMeaning.MentionsExactly` | services/parsing/app/slm_client.py:325-333 | A banner, and authentication of time servers that there are, are present exactly if some line says so |
| `ExtractorMeaning.PolicyExactly` | services/parsing/app/slm_client.py:343-348 | A policy header with its indented block is a policy exactly if the encryption named first is des or 3des in any letter case, with the header's number |
| `ExtractorMeaning.IkeExactly` | services/parsing/app/slm_client.py:343-359 | The policies are those of the headers in order, and after them, if the text has a FortiOS phase1-interface block, its proposals without ids |
| `ExtractorMeaning.ConfidenceExactly` | services/parsing/app/slm_client.py:375-376 | 0.20 for nothing, 0.65 for one kind of fact, 0.80 for two, 0.95 for more |
| `ExtractorMeaning.EveryKindCounts` | services/parsing/app/slm_client.py:273-363 | Each of the ten kinds of facts counts once, and nothing else counts |
| `LinePatterns.PhraseExactly` | services/parsing/app/slm_client.py:289-333 | A phrase pattern matches exactly if from some line on its words follow one another, in any letter case, and the last ends at a word boundary |
| `LinePatterns.FirstExactly` | services/parsing/app/slm_client.py:275-279 | A value pattern finds the word that the first line to give one gives |
| `LinePatterns.AllExactly` | services/parsing/app/slm_client.py:319-335 | Finding all yields the word after the phrase on each line, in order, where no value stands on another line |
| `MockExtractor.CollectMatches` | services/parsing/app/slm_client.py:344-348 | The loop over matches keeps what each yields, in order |
| `MockPrinter.MockReverseTranslate` | services/parsing/app/slm_client.py:176-233 | Appending lines section by section prints the specified text |
| `PrinterMeaning.PrintsTheSheet` | services/parsing/app/slm_client.py:185-233 | The printed text is the literal lines of its sections, joined by newlines |
| `PrintedText.LexPrinted` | services/parsing/app/slm_client.py:233-233 | The printed text reads back as the printed commands, line by line |
| `PrintedMatches.FindAllIsValues` | services/parsing/app/slm_client.py:319-341 | A value pattern finds exactly the values printed after its phrase, in order |
| `PrintedMatches.HasIsMention` | services/parsing/app/slm_client.py:289-333 | A phrase pattern matches exactly if a command was printed with it |
| `PrintedMatches.PrintedIsCalm` | services/parsing/app/slm_client.py:336-350 | No printed text looks like the header of a FortiOS block |
| `PrintedIke.PoliciesAreRead` | services/parsing/app/slm_client.py:343-348 | The printed policies are read back in order, those with an id |
| `PrintedIke.ParseDecimal` | services/parsing/app/slm_client.py:348-348 | Reading a printed policy id gives the id |
| `Spelling.PrefixFree` | services/parsing/app/slm_client.py:275-333 | Two different phrases differ at a keyword both have, so at most one matches a line |
| `FindingStore.Tables.SaveFindings` | services/compliance/app/db.py:42-183 | One transaction: rows replaced, first detections logged, history and status written, or, on a constraint violation, nothing at all |
| `FindingStore.SavesExactly` | infra/postgres/init.sql:85-103 | A save succeeds exactly if the run is registered, unless there is nothing to store, each finding has its six required columns, and no two findings share a control |
| `FindingStore.Tables.RecordDetections` | services/compliance/app/db.py:100-123 | The loop inserts a detection for each tracked finding whose pair has none and returns those findings |
| `FindingStore.CheckRows` | infra/postgres/init.sql:85-103 | Rows are accepted exactly if no column is null and no control is named twice |
| `DetectionLedger.LedgerIsExact` | services/compliance/app/db.py:92-123 | After any steps of the services the detections are exactly the pairs ever reported, each once, and whatever fails now was reported |
| `FirstReports.DetectionsAreFirstReports` | services/compliance/app/db.py:100-123 | After any steps each detection carries the severity of the finding that first reported its pair, and the time of that report |
| `FirstReports.SnapshotsAreSaves` | services/compliance/app/db.py:125-147 | The history holds exactly what the successful saves with a baseline saved, and when |
| `FirstReports.StatusIsTheLastSet` | services/compliance/app/db.py:174-182 | After any steps a run's status is the one set last: ingested by its registration, evaluated by a successful save, or as it was moved |
| `DetectionLedger.ReturnsFirstTimeFindings` | services/compliance/app/db.py:57-62 | A save returns exactly the findings never detected before, in order |
| `DetectionLedger.LedgerGrows` | services/compliance/app/db.py:103-121 | No step shortens the ledger |
| `ExecutiveReport.CountsAreTrue` | services/reporting/app/executive_report.py:69-85 | After any steps found counts the pairs ever reported, still open those failing now in a finished run, resolved the rest |
| `HiddenFindings.NothingIsHiddenExactly` | services/reporting/app/db.py:66-79 | After any steps, still open counts every failing pair if and only if, whenever a run's status was last set to an unfinished one after its last accepted save, that save reported nothing failing |
| `HiddenFindings.TablesAreExplained` | services/compliance/app/db.py:63-160 | The tables hold of each run what its last accepted save wrote, and if that was not empty the run's status is finished unless it was last set to an unfinished one since |
| `ExecutiveReport.RemediationTimesAreComplete` | services/reporting/app/mttr.py:29-78 | After any steps the remediation samples and open violations together are as many as the pairs ever reported, in whatever order the ledger is read |
| `ExecutiveReport.CountViolations` | services/reporting/app/executive_report.py:77-85 | The loop computes the specified counts from events and current findings |
| `ExecutiveReport.EventsCountPairs` | services/reporting/app/executive_report.py:84-85 | On a ledger that detects each pair once, counting events is counting pairs |
| `MttrLaws.OutcomeMeans` | services/reporting/app/mttr.py:41-62 | A pair is closed exactly with the earliest approval strictly after its earliest detection, at a positive duration; otherwise it is open with its age and SLA status; it is absent exactly if never detected |
| `MttrLaws.EveryDetectionIsCounted` | services/reporting/app/mttr.py:64-78 | Sample sizes and open violations add up to the detected pairs |
| `MttrMeaning.AverageIsMean` | services/reporting/app/mttr.py:64-72 | For each tier the average times the sample size is the sum of the closed durations and lies between the shortest and the longest; the targets are 8, 120, 720 and 720 hours |
| `MttrMeaning.OpenViolationsAreOpen` | services/reporting/app/mttr.py:54-62 | An open violation states the age of the earliest detection, its tier in any letter case, and whether that is more hours than the tier allows |
| `MttrLaws.OrderOfEventsIsIrrelevant` | services/reporting/app/mttr.py:41-49 | Averages, counts and the open violations are unchanged by permuting the events when equally early detections agree on the tier |
| `MttrOrder.SummaryIsOrderFreeExactly` | services/reporting/app/mttr.py:29-78 | The averages, counts and open violations are independent of event order if and only if they do |
| `MttrLaws.OrderFreeExactly` | services/reporting/app/mttr.py:41-47 | So are the outcomes of the pairs |
| `MttrLaws.OnceIsEnough` | services/reporting/app/mttr.py:42-42 | One detection per pair suffices |
| `Mttr.Summarise` | services/reporting/app/mttr.py:29-78 | Grouping, sorting, pairing and averaging give the specified summary |
| `Mttr.Classify` | services/reporting/app/mttr.py:41-62 | Sorting one pair's events and taking the first of each kind gives its outcome |
| `Sorting.SortingKeepsEarliest` | services/reporting/app/mttr.py:41-51 | Searching the sorted events finds the earliest match of the unsorted ones |
| `Sorting.SortingKeepsNewest` | services/reporting/app/executive_report.py:43-44 | Sorting does not change which evaluation of a run is the newest |
| `Sorting.NewestIsGreatest` | services/reporting/app/executive_report.py:43-44 | The newest evaluation is the matching one of greatest time, and there is none exactly if none matches |
| `Sorting.EarliestIsLeast` | services/reporting/app/mttr.py:41-51 | The earliest match is the matching event of least time, and there is none exactly if none matches |
| `Sorting.SortByOrders` | services/reporting/app/mttr.py:41-41 | The stable sort orders the events and keeps all of them |
| `Trend.TrendIsRecomputed` | services/reporting/app/executive_report.py:34-47 | Every trend point is the fleet score recomputed from the unsorted history: of each run the latest snapshot among the evaluations not after the point's own, in time and then in position |
| `Trend.DrawingOrderIsStable` | services/reporting/app/executive_report.py:34-47 | The points are drawn once per evaluation, in order of time and then of position |
| `Trend.CompleteMoments` | services/reporting/app/executive_report.py:34-47 | The last point of a moment is the score of the fleet as it stood at that moment |
| `Sorting.SortIsStable` | services/reporting/app/executive_report.py:34-47 | Sorting is stable |
| `Trend.ScoreTrend` | services/reporting/app/executive_report.py:34-47 | The loop over sorted evaluations produces the specified points |
| `Scoring.FleetLiesBetweenDevices` | services/compliance/app/risk_scorer.py:113-131 | The rounded weighted fleet score lies between the smallest and the largest device score |
| `Scoring.ScoreInRange` | services/compliance/app/risk_scorer.py:69-89 | A device score is a percentage |
| `ScoreMeaning.ScoreIsNearest` | services/compliance/app/risk_scorer.py:81-89 | 2 times the distance of 100 passed from score times total is at most total, and if equal the score is even |
| `ScoreMeaning.FleetScoreIsNearest` | services/compliance/app/risk_scorer.py:113-131 | The same for what the devices passed together; 100 without any |
| `ScoreMeaning.GenericScore` | services/compliance/app/risk_scorer.py:43-89 | Under the shipped bundle a device's score is the nearest percentage of 235 less the weights of the controls its findings name |
| `ScoreMeaning.UnlistedCounts` | services/compliance/app/risk_scorer.py:59-88 | A failing control outside the bundle adds the weight of its severity, in any letter case, to the total alone |
| `ScoreMeaning.ListedCounts` | services/compliance/app/risk_scorer.py:81-88 | A failing control of the bundle takes its weight from what is passed |
| `Scoring.OneMoreFailureNeverHelps` | services/compliance/app/risk_scorer.py:81-89 | Failing one more control never raises the score, in the catalogue or outside it |
| `Scoring.WeightsAreProper` | services/compliance/app/risk_scorer.py:81-88 | The total weight is positive and the passed weight lies between 0 and it |
| `Scoring.FailedExactly` | services/compliance/app/risk_scorer.py:81-81 | A control failed exactly if some finding names it |
| `Scoring.GenericBundleIsCatalog` | services/compliance/app/risk_scorer.py:43-56 | The shipped bundle is a catalogue in the sense of the scoring theorems |
| `Scoring.ScoreFleet` | services/compliance/app/risk_scorer.py:113-131 | The loops over devices and controls compute the score that `FleetScoreIsNearest` describes |
| `Scoring.Score` | services/compliance/app/risk_scorer.py:69-89 | The loops over findings and controls compute the score that `ScoreIsNearest` describes |
| `Rounding.RoundIsMonotone` | services/compliance/app/risk_scorer.py:89-89 | Rounding halves to even never reverses an order |
| `Rounding.PercentIsNearest` | services/compliance/app/risk_scorer.py:89-89 | No whole percentage is nearer, and of two as near it is the even one |
| `ReachabilityDiff.UndoIsSymmetric` | services/compliance/app/reachability_diff.py:43-60 | Undoing a change exchanges blocked and permitted flows and touches as many lines |
| `ReachabilityDiff.LegsCoverTheWhole` | services/compliance/app/reachability_diff.py:43-60 | Two changes in a row permit, block and touch at most what the two do between them |
| `ReachabilityDiff.FlowsChangeThroughLines` | services/compliance/app/reachability_diff.py:98-105 | No line is touched exactly when both sides have the same lines, and a flow changes only if a line does |
| `ReachabilityDiff.ReachabilityChangeIsReal` | services/compliance/app/reachability_diff.py:91-117 | A change is reported exactly when a side permits something else, and then lines and interfaces are |
| `ReachabilityDiff.FlowsExactly` | services/compliance/app/reachability_diff.py:26-60 | A flow is newly permitted exactly if some entry permits it after the change and none did before, whatever the letter case, an absent port being any |
| `ReachabilityDiff.TouchedExactly` | services/compliance/app/reachability_diff.py:43-60 | An added entry touches one line more, one less or none, by which sides have its line |
| `ReachabilityDiff.ServicesExactly` | services/compliance/app/reachability_diff.py:43-60 | A service is affected exactly if it is that of a flow that changes |
| `ReachabilityDiff.SidesExactly` | services/compliance/app/reachability_diff.py:91-117 | A side is listed exactly if a line of it is touched, under the new name if there is one |
| `Counterfactual.SafeExactly` | services/compliance/app/counterfactual.py:70-98 | The verdict is SAFE if and only if the score does not fall and neither side permits anything new; a missing access list permits nothing |
| `Counterfactual.RiskExactly` | services/compliance/app/counterfactual.py:34-97 | The risk is high exactly if a critical or high finding is introduced, or access is opened and a medium one is introduced or the score falls; and low exactly if none of this happens |
| `Counterfactual.EffectExactly` | services/compliance/app/counterfactual.py:77-94 | Delta, resolved and introduced controls, in terms of the findings |
| `Counterfactual.AffectedExactly` | services/compliance/app/reachability_diff.py:63-88 | How many interfaces and neighbours differ, whatever the letter case of a protocol |
| `Counterfactual.MissingExactly` | services/compliance/app/counterfactual.py:70-75 | Reachability and blast radius are left out exactly if neither side has access lists or a topology; one missing side counts as empty |
| `Counterfactual.SafeChangesCompose` | services/compliance/app/counterfactual.py:98-98 | SAFE changes compose, and no change is SAFE |
| `Counterfactual.SafeBothWaysExactly` | services/compliance/app/counterfactual.py:98-98 | A change and its undoing are both SAFE exactly when they move neither the score nor the permissions |
| `ScriptImpact.ContextIsNearestHeader` | services/remediation/app/reachability_fallback.py:109-172 | The scanner's context variables name exactly the nearest enclosing line, interface and access-list blocks |
| `ScriptImpact.EstimateReachabilityImpact` | services/remediation/app/reachability_fallback.py:107-198 | The loop attributes every line to its block as specified |
| `ScriptImpact.ReportedExactly` | services/remediation/app/reachability_fallback.py:109-187 | What is reported as blocked or permitted is exactly what some line does in the block it stands in |
| `ScriptImpact.ListedExactly` | services/remediation/app/reachability_fallback.py:116-198 | Every place, access list and route that a line names is listed, and nothing else |
| `ScriptImpact.UndoExchanges` | services/remediation/app/reachability_fallback.py:140-158 | The script that takes filters back blocks what the other permitted and permits what it blocked, in the same places |
| `ScriptDirection.NothingPermittedNarrows` | services/remediation/app/reachability_fallback.py:20-44 | A script of directed lines for which nothing newly permitted is reported only narrows what reaches any line, side of an interface or administration, on every device where it replaces no filter by one that permits more and adds no trusted host that matches more |
| `ScriptDirection.NothingBlockedWidens` | services/remediation/app/reachability_fallback.py:20-44 | A script of directed lines for which nothing newly blocked is reported only widens it, on every device where it unsets no trusted host while others remain that match less |
| `ScriptDirection.EntryDirection` | services/remediation/app/reachability_fallback.py:28-30 | Removing a permit only narrows and removing a deny only widens, whatever the list holds and wherever it is applied |
| `ScriptDirection.ApplyNarrowsExactly` | services/remediation/app/reachability_fallback.py:24-27 | Applying a filter narrows if and only if the place is shut, unfiltered, or filtered by a list that permits everything the new one does |
| `ScriptDirection.TrustNarrowsExactly` | services/remediation/app/reachability_fallback.py:182-184 | Setting a trusted host narrows if and only if everything it matches was trusted before, as everything is without trusted hosts |
| `ScriptDirection.UntrustWidensExactly` | services/remediation/app/reachability_fallback.py:185-187 | Unsetting one widens if and only if it was not set or everything it matches is trusted without it |
| `ScriptDirection.ReplacingFilterWidens` | services/remediation/app/reachability_fallback.py:131-138 | A device and a script that is reported to block but opens a line |
| `ScriptDirection.UnsettingHostNarrows` | services/remediation/app/reachability_fallback.py:185-187 | A device and a script that is reported to permit but shuts a host out |

## Left out

- Web routes, proxying, tokens, password hashing, CORS, webhooks, queues, object storage, PDF and HTML rendering, the frontend: plumbing without state of its own worth proving.
- Database and graph drivers: only the effect of the statements is modelled; FOR UPDATE is the atomicity of one transaction.
- Clocks are explicit arguments. The approval model takes every reading of one service to be strictly later than the one before, and shows what happens otherwise.
- Floating point: all numbers are exact; `round` is half to even on rationals. Hashes are uninterpreted.
- Ruleset versions, comments and titles in event payloads, and the scripts' text, are not modelled where nothing reads them back.
- A save of a proposal whose finding does not exist violates the foreign key; the approval model does not reject it.
- Merge.Merger.MergeDict: keys are visited in arbitrary order, so the conflict list is a multiset; paths are sequences of keys instead of dotted strings.
- Merge.Merger.MergeBaselines: Python's equality of 1 and True is left out.
- MergePenalty.PenaltyIsOrderFreeExactly: is about chunks whose values are all known and not negative; for others the condition on the penalty is the sufficient one of `SameWhenBalanced`.
- Merging baselines in which one path holds a list in one chunk and a scalar in another is outside the closed form: schema validation gives all baselines one shape.
- Blast radius is a set; the query returns it sorted. The read-only `topology` query is left out.
- Letter case is that of ASCII letters, in `lower`, `upper` and case-insensitive patterns, and so are word characters and digits.
- CliLexer: regular expressions are not interpreted; each pattern used is stated on lines and words, which is what its blanks and anchors see.
- MockExtractor.MockResponse: what the text between a FortiOS header and its end yields is an arbitrary function, used only when the header's four words stand in a row and, for names, when set name stands before a quotation mark; the topology extraction and the process with its timeout are left out.
- Fidelity.FidelityIsFullExactly: dictionary keys are those of the candidate, further keys are names; values are null, booleans, integers, texts, lists and dictionaries.
- The language-model client, retrieval, embeddings, anomaly detection, vendor fingerprints, the Rego bundle and the decision table are inputs: findings, classifications and chunk results are arbitrary.
- ScriptImpact.EstimateReachabilityImpact: the line patterns are abstracted to the forms of line they recognise, and the messages to the change they describe.
- ScriptImpact.UndoExchanges: is about scripts of filters; taking back the removal of an entry adds one, to which the estimate gives no direction.
- ScriptDirection.NothingPermittedNarrows: an access list that is empty or does not exist denies everything, the trusted hosts are those of one administrator, and lines without a direction (added entries, allowaccess, transport but none) or of no known form are taken out of the script.
- ChunkParser.Parser.ParseChunk: the cache key, retrieval, the model, normalisation, the reverse translation and the schema's validation are inputs of each chunk; of a reason only its kind is kept, and the gates' settings do not change while the cache lasts.
- Evidence.Locate: the pattern search is an arbitrary predicate on lines.
- `summarize`'s other counts, `top_exposed_devices`, `remediation_action_mix` and the provenance join would only add easy members.

# Verified model of jav-pilot's stateful core

This project models the parts of jav-pilot that keep state across failures and proves what they promise.
`dafny verify dfyconfig.toml` checks everything.

* **History cleanup** (`HistoryState`, `HistoryCleanup`, `HistoryRuns`, `HistorySettlement`, `HistoryOutcomes`,
  `HistoryTornCommits`, `HistoryDisplayCodes`, `HistoryTables`, `HistoryLifecycle`, `HistoryService`, `BatchChain`).
  Finished task records are replaced by archived facts with a write-ahead protocol over three database files: prepare,
  apply, complete or abort, and recovery. The persistent state is a set of maps, each transaction is one step, and
  between any two steps the process may crash, a commit over several files may fail or reach one file only, and task
  writers may run. The service class has the loops and branches of the source.
* **Download replacement store** (`CatalogCode`, `CatalogSpelling`, `ReplacementRow`, `ReplacementStore`,
  `ReplacementGrants`, `ReplacementRuns`, `ReplacementHistory`, `ReplacementService`, `ArchiveRekey`). Rows with eight
  statuses, leases, a discovery and a smart-selection sub-machine, lazy expiry and restart recovery; every call is one
  step on the whole table. `ArchiveRekey` is the migration that gives the rows of a unique-key table new keys through
  temporary names.
* **Search continuations** (`OrderedDict`, `Continuations`, `ContinuationRuns`, `ContinuationGrants`,
  `ContinuationRegistry`). Claims, commits, aborts, renewals and replays, with expiry and an eviction that spares work
  in flight.
* **Smaller pieces.** The weighted cache (`TtlCache`), the migration runners (`Migrations`), the process trees of the
  download fault matrix (`ProcessTree`), the printer and parser of the runtime lock (`LockText`, `RuntimeLock`,
  `LockAcceptance`, `LockGrammar`) and the recovery work queue (`RecoveryQueue`). `Collections` holds what they share.

Each class refines functions on values: a method's contract ties the new state to such a function, and what the source
promises is proved about the functions and about every run of them. `HistoryTables`, `ReplacementGrants`,
`ContinuationGrants`, `LockGrammar` and `CatalogSpelling` say what these functions do a second time, on the columns of
the tables and the characters of a text and without the functions themselves: when a task may go, when a lease or a
claim is granted and what the row holds then, which texts are a lock, what a code normalizes to, and nothing else.

## What the proofs found

* **A torn commit is safe only without task writers.** If a commit over several files reaches only one of them and a
  task writer runs before recovery, recovery aborts and takes back the archived fact of a record that is already
  deleted. `HistorySettlement.TornCommitThenWriterLosesARecord` gives the run for every finished download and metadata
  job that refers to it, and `HistoryTornCommits.TornIsReachable` a run that gets to it.
  `HistoryTornCommits.LosesExactly` says exactly when recovery loses a record, whatever any task writer does, and
  `HistoryTornCommits.LosesExactlyInTables` says it in terms of the tables alone. The source recovers before it starts
  the workers (`jav_pilot/api/server.py:162-172`), and `HistoryRuns.NothingIsLost` is proved for that order.
* **The display code of a batch item is outside the fingerprint** that apply re-checks
  (`jav_pilot/history/candidates.py:288-303`), so a code that is changed between collection and deletion is archived
  in its earlier form. `HistoryDisplayCodes.CodeWrittenInBetween` continues every run that is about to delete such an
  item to one that does that, and `HistoryDisplayCodes.WrongCodeIsReachable` gives a whole run from an empty library.
  `HistoryDisplayCodes.ExactIfCodesRest` is the exact condition: in every run, the archive holds each deleted record
  exactly if and only if every deletion found the codes its operation was collected with. Everything else about a
  record is always archived as it was (`HistoryRuns.NothingIsLost`).
* **`_verify_schema` is weaker than the invariant of the store**: `ReplacementRow.VerificationIsWeaker` gives rows
  that pass the checks and that no run can write.
* **Not every request for a recovery is served.** One that comes after the row's worker has asked the store, but
  before it discards the id, is lost (`RecoveryQueue.RequeueCanBeLost`). One that resumes a row whose lease is still
  live gets a worker to ask for it, but the store does not let it go, and nobody comes back when the lease runs out
  (`RecoveryQueue.LiveLeaseIsNotClaimed`, `RecoveryQueue.LiveLeaseIsLost`). And one that passes the test of the stop
  signal in `enqueue` or `resume` before the signal, but schedules its row after it, is lost if no worker waits any
  more (`RecoveryQueue.LateRequestIsLost`). `RecoveryQueue.ScheduleServes` gives the exact condition, on what a caller
  could look at before asking; a request that meets it is served in whatever order the workers run
  (`RecoveryQueue.ServedInAnyOrder`).
* **A rendered lock is not always accepted, and not always as what was rendered**: `_wheel_record` and `_render_lock`
  check versions but not names. As far as these two functions go (whether the resolver ever delivers such a wheel is
  not part of this model), a wheel named `a b` is rendered and then refused (`LockAcceptance.NameWithSpaceIsRefused`);
  a wheel named `foo==1` of version `2` is accepted as package `foo` of version `1==2`
  (`LockAcceptance.NameWithEqualitySignsIsAnotherPackage`). `LockAcceptance.LockIsAccepted` is the exact condition for
  acceptance, `RuntimeLock.RoundTrip` the one for getting the same packages back.
* **The outcome of a smart selection is not final**: the update does not ask whether an outcome is there already, so
  the selection begun last can record again, even over the failure that a restart has recorded
  (`ReplacementRuns.LastOutcomeWins`). `ReplacementRuns.RecordsExactly` is the exact condition, and
  `ReplacementRuns.OutcomeIsOverwritten` a run that records any outcome and then any other.
* **Not every word and number keeps its own code.** A word of letters and a number get a dash between them and a key of
  their own, except that `FC` with a number of 3 to 8 digits that starts with 2 is taken for the FC2 family:
  `FC-2123` normalizes to `FC2-PPV-123`, as `FC2-123` does (`CatalogSpelling.WordWithAnotherKey`).
  `CatalogSpelling.SplitExactly` is the exact condition, `CatalogSpelling.KeysAgreeExactly` says when two texts share a
  key.

## Model

| member | source | states |
|---|---|---|
| HistoryRuns.NothingIsLost | jav_pilot/history/cleanup.py:69-132 | in every state of every run of prepare, apply, complete, abort, crash, torn commit, recovery and task writers (none while a commit is torn), every record a cleanup has deleted is an archived fact, equal to it up to the display code of an item |
| HistoryRuns.StepKeepsInv | jav_pilot/history/cleanup.py:176-428 | every step keeps the inductive invariant: at most one prepared operation, whose facts are archived and whose deletion has happened not at all, in part (only while torn) or completely |
| HistoryRuns.AppliedKeepsArchived | jav_pilot/history/cleanup.py:361-428 | whatever part of the deletion reaches the disk, each deleted record is archived with the values it had, up to the display code of an item |
| HistoryRuns.AtMostOneToRecover | jav_pilot/history/cleanup.py:320-359 | recovery never meets more than one prepared operation |
| HistorySettlement.SettledForward | jav_pilot/history/cleanup.py:320-359 | rolled forward: every candidate gone, every record archived, no older fact changed, the operation completed |
| HistorySettlement.SettledBack | jav_pilot/history/cleanup.py:342-349 | rolled back: tasks untouched and the library exactly as before the preparation |
| HistorySettlement.RecoveryLeavesNothingToRecover | jav_pilot/history/cleanup.py:320-359 | after recovery no operation is prepared, so a second recovery changes nothing |
| HistorySettlement.CompletedOperationsAreDone | jav_pilot/history/cleanup.py:649-719 | an operation becomes completed only when all its candidates are gone and all its mapped facts are there |
| HistorySettlement.RecoveryKeepsArchiveExactly | jav_pilot/history/cleanup.py:342-349 | with any writers before it, recovery keeps the archive complete if and only if the rest can still be deleted or no deleted record rests on a fact that only this operation created |
| HistorySettlement.TornCommitThenWriterLosesARecord | jav_pilot/history/cleanup.py:342-349 | the witness: torn commit, restarted metadata job, recovery, and the record is in neither place |
| HistoryTornCommits.LosesExactly | jav_pilot/history/cleanup.py:342-349 | after any run and then any task writer, with no recovery before it: recovery loses a record if and only if the rest can no longer be deleted and some candidate that a cleanup has deleted has a record whose fact this operation created and no other operation maps |
| HistoryTornCommits.LosesExactlyInTables | jav_pilot/history/cleanup.py:342-349 | the same condition read off the tables, if no task writer deletes a task: deleted are then the candidates that are not there |
| HistoryTornCommits.RunTracks | jav_pilot/history/cleanup.py:205-236 | in every run: a fact that an operation was the first to archive stands only for deleted records of its own candidates, and every record of a candidate that a cleanup has deleted is among the deleted records |
| HistoryTornCommits.PairIsReachable | jav_pilot/history/cleanup.py:69-98 | every finished download with a finished metadata job that refers to it comes to be prepared for removal in some run from an empty library |
| HistoryTornCommits.TornIsReachable | jav_pilot/history/cleanup.py:361-428 | and some run goes on to the torn commit that deletes the download only |
| HistoryOutcomes.AbortedLeavesNoTrace | jav_pilot/history/cleanup.py:721-747 | in every run, when a prepared operation leaves the library by whatever step, the library is exactly the one from before it was prepared |
| HistoryOutcomes.CompletedStaysDone | jav_pilot/history/cleanup.py:649-719 | in every run, once an operation is completed and for as long as the ledger lists it, no candidate it was prepared for is there again and every fact it maps is |
| HistoryOutcomes.CommitLeavesNothingDangling | jav_pilot/history/cleanup.py:361-428 | in every run, after a committed deletion, in a cleanup or in recovery, every candidate is gone and no batch item or web metadata job that is left refers to a download deleted in that commit |
| HistoryOutcomes.DeletionLeavesNothingDangling | jav_pilot/history/cleanup.py:361-428 | in every run, from the first commit of a deletion to the one that ends it, however often it is torn and recovered in between: nothing that is left refers to any download that has gone since |
| HistoryDisplayCodes.DeletionIsExact | jav_pilot/history/cleanup.py:361-428 | a deletion of any extent keeps the archive exact, display codes included, if and only if at that moment the items it deletes have the codes that are archived |
| HistoryDisplayCodes.ExactIfCodesAgree | jav_pilot/history/cleanup.py:69-132 | in every run, the archive holds each deleted record exactly if and only if every deletion so far found the codes that are archived |
| HistoryDisplayCodes.ExactIfCodesRest | jav_pilot/history/cleanup.py:961-1013 | in every run, the archive holds each deleted record exactly if and only if every deletion so far found the codes from when its operation was collected |
| HistoryDisplayCodes.ExactUnlessWritten | jav_pilot/history/cleanup.py:69-132 | in every run in which no task writer changes a display code, the archive holds each deleted record exactly, whatever fails |
| HistoryDisplayCodes.CodeWrittenInBetween | jav_pilot/history/candidates.py:288-303 | the witness: every run about to delete a batch with an item goes on with a change of the code of that item and the deletion, which nothing stops, and then the archive does not hold the record that was deleted |
| HistoryDisplayCodes.PageIsReachable | jav_pilot/history/cleanup.py:69-98 | every finished batch of one item comes to be about to be deleted in some run from an empty library |
| HistoryDisplayCodes.WrongCodeIsReachable | jav_pilot/history/cleanup.py:961-1013 | so for every such batch and every other code there is a whole run that deletes the item with that code and archives the earlier one |
| HistoryTables.EndedExactly | jav_pilot/history/cleanup.py:430-500 | a task can go exactly if its columns say so: a download is terminal; a metadata job is terminal, of safe provenance and not under review; a chain is complete in page order, all its rows are terminal and no item belongs to an active download |
| HistoryTables.FreshExactly | jav_pilot/history/cleanup.py:430-500 | a candidate is fresh exactly if its task has ended like that and has the rows the candidate was taken from, and missing exactly if there is no row |
| HistoryTables.ClosedExactly | jav_pilot/history/cleanup.py:829-879 | candidates are closed under links exactly if deleting them leaves no batch item and no web metadata job that refers to a deleted download |
| HistoryTables.DeletableExactly | jav_pilot/history/cleanup.py:361-392 | a prepared operation can be applied exactly if every candidate has ended with its rows unchanged, or is gone where that is allowed, and nothing is left that refers to what goes |
| HistoryTables.DeletedHadEnded | jav_pilot/history/cleanup.py:361-428 | in every run, whatever a deleting step takes, of a cleanup or of recovery, whole or torn, had ended at that moment, on the columns of the tables |
| HistoryTables.DeletedRowsAreArchived | jav_pilot/history/cleanup.py:881-1013 | in every run, at any time after a deletion: the archive has, column by column, each download, metadata job, batch and batch item that it took, up to the display code of the item |
| HistoryTables.PreparesExactly | jav_pilot/history/cleanup.py:176-318 | an operation is prepared exactly if it is within the limits, new and the only prepared one, repeats no task and no record, and disagrees with no archived fact |
| HistoryTables.PreparedExactly | jav_pilot/history/cleanup.py:205-294 | and then the library has its facts as they were, one new fact for each record it had none of, and one more operation with these candidates |
| HistoryTables.DigestPinsOperation | jav_pilot/history/cleanup.py:523-647 | two states of an operation that load under one digest have the same candidates and map the same facts at the same places |
| HistoryTables.CompletesExactly | jav_pilot/history/cleanup.py:649-719 | completion is refused exactly for an operation that is missing or has another digest; otherwise no fact changes and no other operation but those that drop out |
| HistoryTables.DropsOnlyExcess | jav_pilot/history/cleanup.py:649-719 | an operation drops out only if 256 completed ones are left |
| HistoryTables.DropsOnlyOldest | jav_pilot/history/cleanup.py:699-712 | and every other completed operation that stays was updated later, or at the same time under a larger id |
| HistoryCleanup.AbortUndoesPrepare | jav_pilot/history/cleanup.py:721-747 | aborting a fresh preparation gives back exactly the library from before it |
| HistoryCleanup.PrepareGrows | jav_pilot/history/cleanup.py:176-318 | preparing adds facts and one operation, changes no fact, and maps every record to its fact |
| HistoryCleanup.RecordsAreStored | jav_pilot/history/cleanup.py:205-236 | after preparing, every record of every item is a fact with the values of the record |
| HistoryCleanup.PrepareKeepsLibraryValid | jav_pilot/history/cleanup.py:176-318 | the library invariant (mapped facts exist, one prepared operation, each operation sound) survives a preparation |
| HistoryCleanup.AbortKeepsLibraryValid | jav_pilot/history/cleanup.py:721-747 | an abort keeps the library invariant; facts that another operation maps are kept |
| HistoryCleanup.CompleteSettles | jav_pilot/history/cleanup.py:649-719 | completion keeps all facts, marks the operation, leaves nothing prepared, and is refused only for a changed digest |
| HistoryCleanup.CompleteBoundsLedger | jav_pilot/history/cleanup.py:649-719 | completion bounds the number of operations kept, and those dropped are older than those kept |
| HistoryCleanup.LinkedIsLargestClosed | jav_pilot/history/cleanup.py:829-879 | the candidates left are the largest subset closed under batch and metadata links |
| HistoryCleanup.ClosedDeleteLeavesNoDanglingReference | jav_pilot/history/cleanup.py:1051-1068 | deleting a closed set leaves no batch item and no web metadata job that refers to a deleted download |
| HistoryCleanup.DeleteRemovesExactly | jav_pilot/history/cleanup.py:1051-1068 | the deletion removes the chosen tasks with all their rows and leaves every other task as it was |
| HistoryCleanup.RestStillDeletable | jav_pilot/history/cleanup.py:361-428 | after any part of a deletion the rest is exactly what recovery will delete |
| HistoryState.RecordsKeepPromise | jav_pilot/history/cleanup.py:881-1013 | the facts made from a candidate promise every field of its records but the display code of items |
| HistoryState.RecordUpToCode | jav_pilot/history/cleanup.py:881-1013 | two records of the same fingerprint differ at most in the display code of an item |
| HistoryLifecycle.RemoveDanglingDependencies | jav_pilot/history/cleanup.py:829-879 | the loop returns the largest closed subset, in order, and terminates |
| HistoryLifecycle.RefreshAll | jav_pilot/history/cleanup.py:371-392 | pending are exactly the candidates that are still terminal and equal to their fingerprint; nothing if one has changed, or is missing when none may be |
| HistoryLifecycle.RefreshCandidate | jav_pilot/history/cleanup.py:430-500 | missing, changed or fresh, as the rows say now; `HistoryTables.FreshExactly` says which on the columns, the review of a metadata job included |
| HistoryLifecycle.FactsForCandidate | jav_pilot/history/cleanup.py:881-1013 | the three branches: one fact for a download or a metadata job, one for each batch and each item of a chain, and they are exactly the records of the candidate; refused if the task has gone |
| HistoryLifecycle.DeleteCandidates | jav_pilot/history/cleanup.py:393-401 | deleting one candidate after the other deletes the set, and each deletion counts as many rows as the fingerprint recorded |
| HistoryLifecycle.StoreFacts | jav_pilot/history/cleanup.py:205-236 | the insertion loop stores each record once and maps it, or stops at a repetition or at a fact that says something else |
| HistoryLifecycle.InsertCandidates | jav_pilot/history/cleanup.py:279-294 | accepted exactly if no candidate occurs twice |
| HistoryLifecycle.LoadPreparedOperation | jav_pilot/history/cleanup.py:523-647 | an operation loads exactly if it is prepared, its mapped facts exist unchanged, and its digest recomputes |
| HistoryLifecycle.LoadBatchChain | jav_pilot/history/candidates.py:347-364 | the rows of a chain, each once |
| HistoryService.Service.ExecuteCleanup | jav_pilot/history/cleanup.py:69-132 | whatever fails, every record gone afterwards is archived, up to the display code of an item, and with it whenever the items of an operation to recover have the codes that are archived; of the tasks that recovery leaves (the tasks as they were, if there is nothing to recover), success deletes a task if and only if it is one of previewed tasks that have all ended, are unchanged, still match and leave nothing behind that refers to them; without a fault it succeeds unless the library refuses the operation; without a live preview nothing is done; it is not recovered exactly if recovery meets a fault; previews are consumed |
| HistoryService.Service.RecoverPreparedOperations | jav_pilot/history/cleanup.py:320-359 | succeeds exactly if it meets no fault on the way it has to go; then the state is the recovery of the prepared operation and nothing is left to recover, and otherwise the library is unchanged; either way nothing is lost up to display codes, nor are those whenever the items to delete have the codes that are archived |
| HistoryService.Service.ApplyPreparedOperation | jav_pilot/history/cleanup.py:361-428 | either nothing is deleted, or all or one file of what was checked, and the outcome says which |
| HistoryService.Service.PrepareOperation | jav_pilot/history/cleanup.py:176-318 | one transaction: the prepared library, or an error and the library unchanged |
| HistoryService.Service.CompletePreparedOperation | jav_pilot/history/cleanup.py:649-719 | one transaction: completed, or refused and unchanged |
| HistoryService.Service.AbortPreparedOperation | jav_pilot/history/cleanup.py:721-747 | removes the operation and exactly the facts it created that no other operation maps |
| HistoryService.Service.CollectPreparedItems | jav_pilot/history/cleanup.py:138-174 | the selected candidates are those unchanged since the preview and still matching, closed under links, with their facts |
| HistoryService.Service.RunOperation | jav_pilot/history/cleanup.py:91-120 | removed as a whole with every record archived exactly; or refused, with nothing done; or not applied, and then the library is as before exactly if the rollback is confirmed and nothing has been deleted, and has the prepared operation otherwise; or applied and left to be completed |
| HistoryService.Service.HandleFailure | jav_pilot/history/cleanup.py:100-109 | after a failed apply the operation is aborted if and only if the rollback is confirmed and nothing has been deleted |
| HistoryService.DeletionLosesNothing | jav_pilot/history/cleanup.py:361-428 | a deletion of any extent loses no record that the library does not hold, up to the display code of an item |
| HistoryService.LostExactlyIfCodesAgree | jav_pilot/history/cleanup.py:361-428 | and it loses none at all, display codes included, if and only if the deleted items have the codes that are archived |
| HistoryService.CleanedExactly | jav_pilot/history/cleanup.py:138-174 | what is deleted for a preview are exactly the tasks that belong to some set of previewed, matching, ended and unchanged tasks that leave nothing dangling together |
| HistoryService.IntactMeansNothingGone | jav_pilot/history/cleanup.py:502-521 | an intact operation has lost no candidate |
| BatchChain.CompleteBatchChain | jav_pilot/history/candidates.py:319-344 | true exactly if following the continuation links from the root visits every row once, in page order 1 to n, and ends |
| BatchChain.WalkIsUnique | jav_pilot/history/candidates.py:319-344 | there is at most one such walk over the same rows, so the answer does not depend on their order |
| BatchChain.LinksAreInverse | jav_pilot/history/candidates.py:319-344 | in a complete chain parent links are the inverse of continuation links |
| CatalogCode.NormalizedIsFixed | jav_pilot/core/catalog_code.py:45-75 | the display form of a normalized code normalizes to the same code and key; `CatalogSpelling.NormalizeExactly` says what they are |
| CatalogCode.NormalizeIsIdempotent | jav_pilot/core/catalog_code.py:45-75 | normalizing the display form of whatever any raw text normalizes to changes nothing |
| CatalogCode.SerialFixed | jav_pilot/core/catalog_code.py:18-42 | the display form of a serial family, spelled its own way, normalizes to itself |
| CatalogSpelling.NormalizeExactly | jav_pilot/core/catalog_code.py:45-75 | for every raw text: once white space is stripped and letters are capitals, exactly the codes in groups that fit within the length have an identity, which is their display form and their key; everything else is refused |
| CatalogSpelling.CanonicalExactly | jav_pilot/core/catalog_code.py:18-42 | a text has a key exactly if it has only allowed characters, a letter and a digit, three of them in all, is more than a picture quality, has a separator or a second letter, and is not too long; the key is its letters and digits, with the full name of the FC2 family |
| CatalogSpelling.SplitExactly | jav_pilot/core/catalog_code.py:62-73 | a word of 2 to 12 letters and a number of 2 to 8 digits, with any separator or none: letters, dash and digits, with letters and digits as key, within the length; refused exactly if too long or nothing but a picture quality; FC with a number that starts with 2 is the exception |
| CatalogSpelling.FamilyExactly | jav_pilot/core/catalog_code.py:32-34 | every spelling of FC2 or FC2PPV and 2 to 9 digits, with separators anywhere, has the display form FC2-PPV- and the digits, and one key |
| CatalogSpelling.KeysAgreeExactly | jav_pilot/core/catalog_code.py:31-34 | two texts share a key exactly if they have the same letters and digits, or are of the FC2 family with the same number |
| CatalogSpelling.WordWithAnotherKey | jav_pilot/core/catalog_code.py:31-34 | the witness: FC and a number that starts with 2 get the display form and the key of another spelling |
| CatalogSpelling.QualityExactly | jav_pilot/core/catalog_code.py:13-15 | a picture quality is a concatenation of one or more of its words |
| CatalogSpelling.CleanedExactly | jav_pilot/core/catalog_code.py:21-21 | cleaning takes the white space off both ends and puts ASCII letters in capitals, and nothing else |
| ReplacementRow.InvariantVerifies | jav_pilot/downloads/replacements.py:1601-1650 | a row that satisfies the invariant passes the checks made on opening the database |
| ReplacementRow.VerificationIsWeaker | jav_pilot/downloads/replacements.py:1601-1650 | the converse fails: a completed row that still holds a lease passes the checks, and no invariant allows it |
| ReplacementRow.SubmittedSucceeds | jav_pilot/downloads/replacements.py:350-448 | granting a submission keeps the row invariant and evolves the row as any call must (fresh lease, key and target only once, expiry not earlier) |
| ReplacementRow.SelectionFinishedSucceeds | jav_pilot/downloads/replacements.py:638-688 | recording the outcome of a selection keeps the row invariant and changes only the selection |
| ReplacementRow.DispositionBegunSucceeds | jav_pilot/downloads/replacements.py:981-1021 | beginning a disposition keeps the row invariant, under a fresh lease, and keeps an earlier choice |
| ReplacementRow.CleanupFinishedSucceeds | jav_pilot/downloads/replacements.py:1144-1197 | finishing a cleanup keeps the row invariant and gives up the lease |
| ReplacementRow.MagnetFinishedSucceeds | jav_pilot/downloads/replacements.py:762-826 | a magnet result keeps the row invariant, gives up the discovery lease and settles the discovery status |
| ReplacementStore.AnswersAreInOrder | jav_pilot/downloads/replacements.py:256-1197 | every answer to every call about a row keeps its invariant and only evolves it |
| ReplacementStore.CallKeepsInv | jav_pilot/downloads/replacements.py:129-1239 | every call keeps the store invariant (rows, one active row per source, archive) and only makes permitted changes |
| ReplacementStore.CreateInOrder | jav_pilot/downloads/replacements.py:129-229 | creating, reusing or superseding a row leaves at most one active row per source |
| ReplacementGrants.CreateExactly | jav_pilot/downloads/replacements.py:129-229 | in every table that keeps the invariant, after expiry: the active row of the source is handed out again for the same revision, and makes way for a new revision exactly if it is open and nothing was ever submitted for it; then, or without an active row, the new row is there with just the columns of a fresh one; everything else is refused and changes nothing |
| ReplacementGrants.SubmissionExactly | jav_pilot/downloads/replacements.py:256-453 | for any table: a submission that names the row, its code and a possible target takes it exactly if it is open with no selection running, is a cleanup exactly for a created replacement whose lease is over, is reported as finished for a completed row, and is refused otherwise; the granted row holds the key, the target and a fresh lease |
| ReplacementGrants.MarkExactly | jav_pilot/downloads/replacements.py:455-484 | the target is marked as created exactly for the holder of the lease of a submission |
| ReplacementGrants.ReleaseExactly | jav_pilot/downloads/replacements.py:486-516 | the submission is given back, key and target with it, exactly for the holder of its lease |
| ReplacementGrants.QueueExactly | jav_pilot/downloads/replacements.py:518-598 | which rows are queued again for a mode, and that exactly the channel of the mode, the selection and the disposition are cleared |
| ReplacementGrants.SelectionExactly | jav_pilot/downloads/replacements.py:600-636 | a selection begins exactly for an open row of this revision in smart-magnet mode with magnets found and no other selection running |
| ReplacementGrants.ClaimExactly | jav_pilot/downloads/replacements.py:720-760 | a discovery is claimed exactly for an open row that is queued, or is searched and whose lease has run out |
| ReplacementGrants.MagnetExactly | jav_pilot/downloads/replacements.py:762-826 | a magnet result is recorded exactly for the holder of the discovery lease of an open row searched for magnets, without count and magnets unless some are available |
| ReplacementGrants.WebExactly | jav_pilot/downloads/replacements.py:828-885 | a web result is recorded exactly for the holder of the discovery lease of an open row searched on the web |
| ReplacementGrants.DispositionExactly | jav_pilot/downloads/replacements.py:89-96 | a disposition is granted exactly for a row that is open after expiry and for which either both channels found nothing, or the smart selection for a web download has found nothing or nothing clear and its cleanup is complete or not required; the row then holds a fresh lease and the first choice |
| ReplacementGrants.DisposedExactly | jav_pilot/downloads/replacements.py:1023-1095 | a disposition ends exactly for the holder of its lease: the row goes, its code into the archive if that was chosen, or it is open again with the error |
| ReplacementGrants.CleanupExactly | jav_pilot/downloads/replacements.py:1144-1197 | a cleanup ends exactly for the holder of the lease of a created replacement: completed if the source is gone, else failed with the error |
| ReplacementGrants.DeleteArchivedExactly | jav_pilot/downloads/replacements.py:1133-1142 | exactly the archived entry of that code goes |
| ReplacementGrants.ExpiresExactly | jav_pilot/downloads/replacements.py:1199-1213 | reading expires exactly the due rows that may expire, and changes nothing else |
| ReplacementGrants.RestartExactly | jav_pilot/downloads/replacements.py:690-701 | a restart queues running discoveries of open rows, ends running selections as failed and opens the rows that were being discarded, and changes no other row |
| ReplacementRuns.RunKeepsInv | jav_pilot/downloads/replacements.py:129-1239 | every state of every run satisfies the invariant of every row and has at most one active row per source |
| ReplacementRuns.StatusMeans | jav_pilot/downloads/replacements.py:129-1239 | in every reachable state open, completed and expired rows hold no lease; submitting and replacement-created rows hold lease, key and target; discarding rows hold lease and disposition |
| ReplacementRuns.SelectingMeans | jav_pilot/downloads/replacements.py:600-636 | a running smart selection implies an open or expired row in smart-magnet mode whose discovery found magnets |
| ReplacementRuns.OneActiveRow | jav_pilot/downloads/replacements.py:146-224 | two active rows of one source are the same row |
| ReplacementRuns.RunVerifies | jav_pilot/downloads/replacements.py:1554-1650 | every state of every run passes `_verify_schema` on reopening, codes and archive included |
| ReplacementRuns.StaleForever | jav_pilot/downloads/replacements.py:256-516 | a token that has lost its lease never gets it back, whatever is called and however often the store restarts |
| ReplacementRuns.StaleTokenChangesNothing | jav_pilot/downloads/replacements.py:455-516 | a call with a token that does not hold the lease changes nothing |
| ReplacementRuns.LeaseIsExclusive | jav_pilot/downloads/replacements.py:720-760 | until a lease runs out, is used by its holder or the store restarts, nobody else is granted it |
| ReplacementRuns.SelectionBlocksTheRest | jav_pilot/downloads/replacements.py:310-317 | while a smart selection runs, no submission, requeue or disposition can start |
| ReplacementRuns.OlderSelectionChangesNothing | jav_pilot/downloads/replacements.py:638-688 | only the newest selection can record an outcome |
| ReplacementRuns.LastOutcomeWins | jav_pilot/downloads/replacements.py:638-688 | over any run: until the row is queued or a selection begins again, the selection begun last can record an outcome whenever the row is open, in place of any outcome it or a restart recorded before |
| ReplacementRuns.RecordsExactly | jav_pilot/downloads/replacements.py:638-688 | in every reachable state a call records its outcome if and only if the row is open, has the revision of the call and the call names the selection begun last, running or not; any other call changes nothing |
| ReplacementRuns.SelectableIsReachable | jav_pilot/downloads/replacements.py:600-636 | every source comes to a row that a selection can begin for, with any magnets found |
| ReplacementRuns.OutcomeIsOverwritten | jav_pilot/downloads/replacements.py:638-688 | from such a row a run records any outcome and then any other in its place |
| ReplacementRuns.RowOnlyAdvances | jav_pilot/downloads/replacements.py:1199-1226 | over any run source, revision and code never change, completed and expired are never left, the expiry time never moves back |
| ReplacementRuns.TargetIsFixed | jav_pilot/downloads/replacements.py:332-350 | from the first submission to a release by its holder the key and the target never change |
| ReplacementRuns.DispositionIsKept | jav_pilot/downloads/replacements.py:981-1095 | the first chosen disposition survives failures and restarts until a new discovery or selection |
| ReplacementRuns.LeavesOnlyByDisposition | jav_pilot/downloads/replacements.py:1023-1095 | a row leaves the table only through its disposition's holder, and its code is archived then if that was chosen |
| ReplacementHistory.NothingComesFromNowhere | jav_pilot/downloads/replacements.py:256-484 | over every run: the target of a row is one a submission of that row asked for, a replacement counts as created only after the lease holder marked it, and a row is completed only after the lease holder reported the old source removed |
| ReplacementHistory.CallProgresses | jav_pilot/downloads/replacements.py:129-1239 | no call sets a target that it does not name, marks a target or completes a row without the token of its lease |
| ReplacementService.DownloadReplacementStore.CreateOrReuse | jav_pilot/downloads/replacements.py:129-229 | the transaction, rolled back on failure, has the effect and the reply of the model: reuse the active row of the source, supersede it for a new revision, or insert a fresh one |
| ReplacementService.DownloadReplacementStore.BeginSubmission | jav_pilot/downloads/replacements.py:256-453 | same effect and reply as the model: a submission grant with key and target set once, a cleanup grant for a created target, finished, or refused with the table as it was |
| ReplacementService.DownloadReplacementStore.MarkTargetCreated | jav_pilot/downloads/replacements.py:455-484 | same effect and reply as the model: only the lease holder marks the target as created |
| ReplacementService.DownloadReplacementStore.ReleaseSubmission | jav_pilot/downloads/replacements.py:486-516 | same effect and reply as the model: only the lease holder gives the submission back, with key and target |
| ReplacementService.DownloadReplacementStore.QueueDiscovery | jav_pilot/downloads/replacements.py:518-598 | same effect and reply as the model: one channel is queued and its earlier result cleared, or nothing changes |
| ReplacementService.DownloadReplacementStore.BeginSelection | jav_pilot/downloads/replacements.py:600-636 | same effect and reply as the model: a selection starts only on an open row with magnets found and the revision at hand |
| ReplacementService.DownloadReplacementStore.FinishSelection | jav_pilot/downloads/replacements.py:638-688 | same effect and reply as the model: the selection begun last, and only that one, records its outcome, in place of any earlier one |
| ReplacementService.DownloadReplacementStore.ClaimDiscovery | jav_pilot/downloads/replacements.py:720-760 | same effect and reply as the model: a queued or lapsed discovery gets a fresh token, a live one does not |
| ReplacementService.DownloadReplacementStore.FinishMagnet | jav_pilot/downloads/replacements.py:762-826 | same effect and reply as the model: the holder's magnet result decides the discovery status |
| ReplacementService.DownloadReplacementStore.FinishWeb | jav_pilot/downloads/replacements.py:828-885 | same effect and reply as the model: the holder's web result decides the discovery status |
| ReplacementService.DownloadReplacementStore.BeginDisposition | jav_pilot/downloads/replacements.py:981-1021 | same effect and reply as the model: a failed row is held for archiving or deletion, the first choice winning; which rows have failed is `ReplacementGrants.DispositionExactly` |
| ReplacementService.DownloadReplacementStore.FinishDisposition | jav_pilot/downloads/replacements.py:1023-1095 | same effect and reply as the model: the holder removes the row, into the archive if chosen, or records the failure |
| ReplacementService.DownloadReplacementStore.FinishCleanup | jav_pilot/downloads/replacements.py:1144-1197 | same effect and reply as the model: completed once the old source is gone, else failed with its error |
| ReplacementService.DownloadReplacementStore.DeleteArchived | jav_pilot/downloads/replacements.py:1133-1142 | same effect and reply as the model: exactly the entry of that code leaves the archive |
| ReplacementService.DownloadReplacementStore.ExpireLocked | jav_pilot/downloads/replacements.py:1199-1213 | every due row expires, no other row changes |
| ReplacementService.DownloadReplacementStore.RecoverDiscoveries | jav_pilot/downloads/replacements.py:690-701 | running discoveries are queued again, no other row changes |
| ReplacementService.DownloadReplacementStore.RecoverDispositions | jav_pilot/downloads/replacements.py:1215-1226 | interrupted dispositions fail without losing what was chosen |
| ReplacementService.DownloadReplacementStore.RecoverSelections | jav_pilot/downloads/replacements.py:1228-1239 | running selections end as failed, with their cleanup unknown |
| ArchiveRekey.ArchiveTable.Migrate | jav_pilot/downloads/replacements.py:1505-1551 | migrates exactly if every code normalizes and no two to one key; then each row is there once, under the key of its code, with the display form and its archival time, for any chain or cycle of keys; else nothing changes |
| ArchiveRekey.ArchiveTable.UpdateKey | jav_pilot/downloads/replacements.py:1539-1551 | one update of a unique key: the row moves, or the key is taken and nothing changes |
| ArchiveRekey.ParkingIsFree | jav_pilot/downloads/replacements.py:1539-1542 | the first pass never meets a taken key |
| ArchiveRekey.LandingIsFree | jav_pilot/downloads/replacements.py:1543-1551 | nor does the second, whatever the order of the renames |
| ArchiveRekey.FreeTemporaryKey | jav_pilot/downloads/replacements.py:1532-1537 | the search for a temporary key ends, with a key nobody uses |
| ArchiveRekey.TemporaryKeysDiffer | jav_pilot/downloads/replacements.py:1532-1537 | different positions give different temporary keys |
| ArchiveRekey.PlanMoves | jav_pilot/downloads/replacements.py:1505-1523 | the plan lists exactly the rows that change, and is refused for a row that does not normalize or two rows for one key |
| ArchiveRekey.RekeyedIsNormal | jav_pilot/downloads/replacements.py:1640-1650 | for any idempotent normalization, a migrated archive is its own normal form |
| ArchiveRekey.MigratedArchiveVerifies | jav_pilot/downloads/replacements.py:1635-1650 | an archive rekeyed with the normalization of the code passes the archive checks made on opening |
| ArchiveRekey.MigrateArchive | jav_pilot/downloads/replacements.py:1505-1551 | the migration with the normalization of the code: refused exactly for a bad or a colliding code, and otherwise the archive passes the checks on opening |
| ContinuationRuns.EveryCallMoves | jav_pilot/api/registries.py:61-319 | all a call can do to the record of any token: leave it, drop it (expired, evicted, cleared, aborted late), introduce, claim, complete, return or renew it |
| ContinuationRuns.RunKeepsInv | jav_pilot/api/registries.py:61-319 | over every run there is one record per token, with exactly the fields of its status and a lease issued before |
| ContinuationRuns.OneClaimAtATime | jav_pilot/api/registries.py:244-291 | from a grant until its holder commits or aborts, it expires, or everything is cleared, whoever asks for the token is told busy or invalid |
| ContinuationRuns.ClaimSurvives | jav_pilot/api/registries.py:106-210 | a live claim survives every other call, and only its own renewal changes its record |
| ContinuationRuns.StaleForever | jav_pilot/api/registries.py:106-210 | a lease that has lost its token never holds it again, and its commit, abort or renewal is refused and changes nothing but an expired record |
| ContinuationRuns.CompletedOnlyReplays | jav_pilot/api/registries.py:266-276 | a completed continuation is never claimed again until the token is introduced anew; it replays the same snapshot or is gone |
| ContinuationRuns.CommitLeavesBoth | jav_pilot/api/registries.py:139-157 | after a commit that succeeds both the completed and the next record are there, whatever was evicted |
| ContinuationRuns.RememberIsExact | jav_pilot/api/registries.py:91-104 | succeeds exactly if the token has no live record, and then the record is there |
| ContinuationGrants.DecisionExactly | jav_pilot/api/registries.py:244-291 | the eight answers told apart by the fields of the record of the token, and what the registry holds after each |
| ContinuationGrants.BeginExactly | jav_pilot/api/registries.py:76-89 | a claim is granted if and only if the token has a ready record that has not expired, for the same binding, and more works are wanted than its limit, or as many after an error and too few works; then the record holds a fresh lease |
| ContinuationGrants.InspectExactly | jav_pilot/api/registries.py:61-74 | a continuation is called available exactly when beginning would claim it, and nothing is granted |
| ContinuationGrants.AbortExactly | jav_pilot/api/registries.py:159-186 | an abort succeeds exactly for the holder of the claim of this continuation before the record expires; later the record goes; otherwise nothing changes |
| ContinuationGrants.RenewExactly | jav_pilot/api/registries.py:194-210 | a renewal succeeds exactly for the holder of the claim, and moves the lease time only |
| ContinuationGrants.RememberExactly | jav_pilot/api/registries.py:91-104 | remembering succeeds exactly for a token without a live record, which then has this one, and evicts only records that are not in flight, oldest first and no more than needed |
| ContinuationGrants.CommitExactly | jav_pilot/api/registries.py:106-157 | a commit succeeds exactly for the holder of the claim, its continuation and its limit, with a next token that is free; then the completed and the next record are what the call says, whatever is evicted |
| ContinuationGrants.ReadExactly | jav_pilot/api/registries.py:188-224 | a token is contained exactly if it has a live record, exported exactly if that is ready, and clearing leaves nothing |
| ContinuationGrants.PurgedExactly | jav_pilot/api/registries.py:293-305 | exactly the records that are no longer live go, and the others keep their order |
| Continuations.EvictionDropsOldest | jav_pilot/api/registries.py:307-319 | the eviction loop equals one pass that drops the oldest evictable records, as many as there are too many |
| Continuations.EvictionIsMinimal | jav_pilot/api/registries.py:307-319 | it never goes below the bound and stops above it only if nothing evictable is left |
| Continuations.NothingEvictable | jav_pilot/api/registries.py:307-319 | nothing evictable is left exactly if every record is in flight or protected |
| Continuations.LookupEvicted | jav_pilot/api/registries.py:307-319 | records in flight and protected records keep their values |
| ContinuationRegistry.SearchContinuationRegistry.Decide | jav_pilot/api/registries.py:244-291 | same effect and decision as the model, for all eight ways a request can be answered, which `ContinuationGrants.DecisionExactly` tells apart |
| ContinuationRegistry.SearchContinuationRegistry.Begin | jav_pilot/api/registries.py:76-89 | same effect and decision as the model, granting a fresh lease exactly as `ContinuationGrants.BeginExactly` says; keeps the invariant |
| ContinuationRegistry.SearchContinuationRegistry.Inspect | jav_pilot/api/registries.py:61-74 | same effect and decision as the model, never granting a lease; keeps the invariant |
| ContinuationRegistry.SearchContinuationRegistry.Remember | jav_pilot/api/registries.py:91-104 | same effect as the model; its last lookup always finds the token |
| ContinuationRegistry.SearchContinuationRegistry.Commit | jav_pilot/api/registries.py:106-157 | same effect as the model; its last lookups always find both tokens |
| ContinuationRegistry.SearchContinuationRegistry.Abort | jav_pilot/api/registries.py:159-186 | same effect as the model: only the holder gives the claim back, and a continuation past its time is dropped instead |
| ContinuationRegistry.SearchContinuationRegistry.Renew | jav_pilot/api/registries.py:194-210 | same effect as the model: only the holder moves the lease time, even a lapsed one that nobody has purged |
| ContinuationRegistry.SearchContinuationRegistry.Contains | jav_pilot/api/registries.py:188-192 | same effect and answer as the model, after dropping what has expired |
| ContinuationRegistry.SearchContinuationRegistry.ExportReady | jav_pilot/api/registries.py:212-220 | same effect and answer as the model: the continuation of a ready record, never of a claimed or completed one |
| ContinuationRegistry.SearchContinuationRegistry.Clear | jav_pilot/api/registries.py:222-224 | leaves no record |
| ContinuationRegistry.SearchContinuationRegistry.PurgeExpired | jav_pilot/api/registries.py:293-305 | exactly the records past their deadline go |
| ContinuationRegistry.SearchContinuationRegistry.Evict | jav_pilot/api/registries.py:307-319 | the loop is the eviction of the model |
| TtlCache.EvictionKeepsNewest | jav_pilot/core/cache.py:61-65 | survivors are the most recently used entries, as many as fit the number and the weight, the new one among them |
| TtlCache.TotalWithout | jav_pilot/core/cache.py:83-86 | removing an entry takes exactly its weight off the sum, so the clamp at zero never acts |
| TtlCache.TtlCache.Get | jav_pilot/core/cache.py:38-48 | a hit if and only if the key has an entry whose time is not over, and then its value, which is the one set last; a hit makes it the most recent, a miss drops only an expired entry |
| TtlCache.TtlCache.Set | jav_pilot/core/cache.py:50-65 | keeps both bounds and the running weight; the key has the value with its time and weight, unless it is too heavy; expired and replaced entries go, then the oldest ones, and what stays is as it was |
| TtlCache.TtlCache.Remove | jav_pilot/core/cache.py:83-86 | exactly that entry goes and the weight stays the sum |
| TtlCache.TtlCache.PurgeExpired | jav_pilot/core/cache.py:88-92 | exactly the entries whose time is over go |
| TtlCache.TtlCache.Evict | jav_pilot/core/cache.py:61-65 | the loop is the eviction described above |
| Migrations.RunHasHistory | jav_pilot/core/migrations.py:83-154 | after any attempts, failing anywhere, from older or newer releases: each ledger is exactly 1 to v, and the schema is each component's first v steps, once and in order |
| Migrations.SchemaIsFirstSteps | jav_pilot/core/migrations.py:83-154 | for one component: the data is the first v steps applied to the start, v being the latest version in the ledger |
| Migrations.Connection.MigrateSqlite | jav_pilot/core/migrations.py:83-154 | from the latest version on, each pending step is applied to what the one before it left, and its check accepts the result; success means all of them, the final check and their rows; failure means that one step raises, is refused by its check, meets a fault or a bad clock, or the final check refuses, and then the database is unchanged; bad components, incomplete lists and newer schemas are refused |
| Migrations.Validate | jav_pilot/core/migrations.py:198-210 | accepts exactly the lists that define every version from 1 to current |
| Migrations.MigrateJson | jav_pilot/core/migrations.py:37-80 | from the version of the payload on, each step gives a candidate, stamped with its version, that its check accepts; success means all of them and the final check; every failure says which step or check it is; bad components, incomplete lists, bad and newer versions are refused |
| Migrations.JsonInTwoSteps | jav_pilot/core/migrations.py:37-80 | migrating to k and then to n gives what migrating to n gives |
| Migrations.JsonStopsEarlier | jav_pilot/core/migrations.py:37-80 | if migrating to n succeeds, migrating to k is possible exactly if the payload is not past k |
| Migrations.JsonSettles | jav_pilot/core/migrations.py:225-242 | the result carries the current version and migrating it again changes nothing |
| ProcessTree.DescendantIds | tools/web_download_fault_matrix.py:1247-1259 | exactly the processes whose parent links reach the root, and it ends on cyclic tables |
| ProcessTree.FallbackTreeIdentities | tools/web_download_fault_matrix.py:2547-2627 | a kill list exactly if the tree is sound on its records (one for each process, the root as it was found, a chain of parents none of them younger from each record to the root, no running worker outside); then each process once and before all its ancestors, all but the root, the root only if a worker names it, each as the last worker that names it says or else as its record says, with 2048 characters of its command |
| ProcessTree.VerifiedExactly | tools/web_download_fault_matrix.py:2547-2603 | the conditions the code checks hold exactly if the tree is sound on its records |
| ProcessTree.Walk | tools/web_download_fault_matrix.py:2584-2603 | the walk up ends; it fails only if a link is bad or the root is out of reach |
| ProcessTree.TwiceIsNever | tools/web_download_fault_matrix.py:2589-2592 | a process met twice on the way up never reaches the root |
| ProcessTree.SortedIsBottomUp | tools/web_download_fault_matrix.py:2621-2627 | sorting by depth puts no process after one of its ancestors |
| RuntimeLock.RoundTrip | tools/verify_python_lock.py:103-151 | a rendered lock parses back to exactly its packages and fingerprint if and only if it has packages, each with a well-formed normalized name and a safe version |
| LockAcceptance.LockIsAccepted | tools/verify_python_lock.py:103-151 | for any wheels the refresh collects, malformed names included: the rendered lock parses if and only if there are entries, each is readable and no two are read as the same package; and then as what the entries are read as |
| LockAcceptance.OrdinaryNames | tools/verify_python_lock.py:103-151 | a name of one line without equality signs is readable exactly if it is well-formed, and then it is read as itself |
| LockAcceptance.NameWithSpaceIsRefused | tools/refresh_python_lock.py:116-128 | the witness: a wheel whose name has a space in it is rendered, and its lock is refused |
| LockAcceptance.NameWithEqualitySignsIsAnotherPackage | tools/refresh_python_lock.py:116-128 | the other witness: a wheel named `foo==1` is rendered, and its lock is accepted as package `foo` |
| LockAcceptance.RenderAndVerify | tools/refresh_python_lock.py:415-425 | for any collected wheels: rendering and verifying succeeds exactly if the pins agree, the lock is acceptable and the direct names are well-formed, and then every direct dependency and every package is counted |
| RuntimeLock.LockedRequirements | tools/verify_python_lock.py:103-151 | the parser loop, with each of its refusals; what it accepts and returns is `LockGrammar.LockIsReadExactly` |
| RuntimeLock.VerifyPythonLock | tools/verify_python_lock.py:154-168 | accepts exactly the locks with every direct dependency at its version and the right fingerprint; on the lines of the text this is `LockGrammar.VerifiesExactly` |
| RuntimeLock.RenderLock | tools/refresh_python_lock.py:144-175 | refuses exactly if a direct dependency is missing or pinned differently; else the lines of the lock |
| RuntimeLock.ParsedIsClean | tools/verify_python_lock.py:13-21 | whatever the text, parsed names are well-formed and normalized and versions are safe |
| LockGrammar.LockIsReadExactly | tools/verify_python_lock.py:103-151 | for every text: accepted if and only if one line is the policy, one is the fingerprint with 64 digits from 0-9a-f, and every other line is blank, a comment, or one of a package line directly followed by a hash line of 64 such digits, with no package twice and at least one; the result is those packages and that fingerprint |
| LockGrammar.VerifiesExactly | tools/verify_python_lock.py:154-168 | for every text: verified if and only if it is such a lock, pins every direct dependency at its version and says the fingerprint |
| LockGrammar.HashExactly | tools/verify_python_lock.py:19-19 | a hash line is the prefix and exactly 64 digits from 0-9a-f |
| LockGrammar.RenderedSays | tools/refresh_python_lock.py:144-175 | line by line, a rendered lock says its fingerprint, the policy, and each package with its version and its own hash below it, in order |
| LockText.LinesExactly | tools/verify_python_lock.py:105-105 | the lines of a text are the pieces between its line breaks |
| LockText.StripExactly | tools/verify_python_lock.py:114-114 | stripping takes the white space off both ends and nothing else |
| LockText.CanonicalExactly | tools/verify_python_lock.py:35-36 | a package name is normalized word by word: lower case, and one dash for each run of separators |
| LockText.SplitJoin | tools/refresh_python_lock.py:175-175 | splitting into lines undoes joining |
| LockText.CanonicalTwice | tools/verify_python_lock.py:35-36 | normalizing a package name (PEP 503) is idempotent |
| RecoveryQueue.RunKeepsInv | jav_pilot/downloads/resource_recovery.py:98-130 | under every interleaving the scheduled set is exactly the queued ids and those being run, each once |
| RecoveryQueue.OneWorkerEach | jav_pilot/downloads/resource_recovery.py:110-130 | no id is run by two workers of one manager at a time |
| RecoveryQueue.ClaimedExactly | jav_pilot/downloads/resource_recovery.py:110-134 | the workers alone claim a row in some continuation if and only if the store has it queued or its lease is over, and its worker has not asked the store yet or it is in the queue where a worker still gets to |
| RecoveryQueue.AskedExactly | jav_pilot/downloads/resource_recovery.py:110-134 | some continuation without a new request, whatever else happens, has a worker ask the store for the row if and only if its worker has not asked yet or it is in the queue where a worker still gets to |
| RecoveryQueue.ClaimedIfWritten | jav_pilot/downloads/resource_recovery.py:110-134 | with writes to the store as well, the row can be claimed without a new request exactly if a worker can still ask for it |
| RecoveryQueue.ChanceIsTaken | jav_pilot/downloads/resource_recovery.py:110-134 | the workers alone get to ask the store for every row that one of them gets to, and they claim it if the store lets it go |
| RecoveryQueue.ChanceIsKept | jav_pilot/downloads/resource_recovery.py:110-134 | only a request for the row gives it a chance to be asked for, and only its worker asking the store or the stop signal takes it |
| RecoveryQueue.ScheduleServes | jav_pilot/downloads/resource_recovery.py:96-101 | after a request is scheduled the workers can claim the row if and only if, before that, the store has it queued or its lease is over, and its worker has not asked the store yet, or nobody runs it and a worker gets to its place in the queue |
| RecoveryQueue.ServedInAnyOrder | jav_pilot/downloads/resource_recovery.py:114-130 | such a row is claimed in every order of the workers: in any run of theirs that is longer than a given bound some worker comes to hold the row, its next step is the claim, and the claim succeeds |
| RecoveryQueue.WorkersGoOn | jav_pilot/downloads/resource_recovery.py:114-130 | and until then some worker always has a next step |
| RecoveryQueue.RequeueCanBeLost | jav_pilot/downloads/resource_recovery.py:127-130 | a run after which the row is queued in the store and no continuation without a new request claims it |
| RecoveryQueue.LiveLeaseIsNotClaimed | jav_pilot/downloads/resource_recovery.py:88-95 | the witness: the result of a claimed row was not recorded, the row is resumed under its live lease, and no run of the workers claims it |
| RecoveryQueue.LiveLeaseIsLost | jav_pilot/downloads/resource_recovery.py:88-95 | and when the lease runs out after a worker has asked, no continuation without a new request claims it |
| RecoveryQueue.LateRequestIsLost | jav_pilot/downloads/resource_recovery.py:77-121 | a request that passes the test of the stop signal before the signal and is scheduled after it, when no worker waits any more: no continuation serves it |
| RecoveryQueue.WorkersReturn | jav_pilot/downloads/resource_recovery.py:103-121 | after the stop signal, whatever else happens and however long the queue is, the workers take at most four steps each, and they have all returned exactly if none of them can go on |
| RecoveryQueue.DownloadResourceRecoveryManager.AdmitRequest | jav_pilot/downloads/resource_recovery.py:77-90 | one step of the model: a request is refused exactly if the stop signal has been given; keeps the invariant |
| RecoveryQueue.DownloadResourceRecoveryManager.ScheduleId | jav_pilot/downloads/resource_recovery.py:96-101 | one step of the model: an id joins the set and the queue together, or is there already; keeps the invariant |
| RecoveryQueue.DownloadResourceRecoveryManager.GetNext | jav_pilot/downloads/resource_recovery.py:112-121 | one step of the model: time-out, wake-up call, after which the worker returns, or the next id, which stays in the set; keeps the invariant |
| RecoveryQueue.DownloadResourceRecoveryManager.ClaimRow | jav_pilot/downloads/resource_recovery.py:132-134 | one step of the model: claimed exactly if the row is queued or its lease is over, and then it runs; keeps the invariant |
| RecoveryQueue.DownloadResourceRecoveryManager.DiscardId | jav_pilot/downloads/resource_recovery.py:127-130 | one step of the model: the id leaves the set when its worker is done; keeps the invariant |
| RecoveryQueue.DownloadResourceRecoveryManager.Shutdown | jav_pilot/downloads/resource_recovery.py:103-116 | stops the workers with one wake-up call each, after whatever is queued |
| RecoveryQueue.DownloadResourceRecoveryManager.AllStopped | jav_pilot/downloads/resource_recovery.py:112-112 | the flag it returns: true exactly if every worker has returned |

## Left out

- SQL text, locking, write-ahead logs and `fsync`: a transaction is one step, and a commit over several files may also reach one of them only.
- The migration of stored codes at `jav_pilot/web_download/batches/schema.py:674-678`: it is one of the task writers.
- Hashing and JSON: digests are injective, so a digest stands for what it covers; the recomputation of legacy digests is not part of this model.
- Unicode normalization (NFKC) in codes and case mapping beyond ASCII letters; text is taken as already validated where a `_validate_*` helper of the store only checks the form of ids, tokens and revisions.
- Clocks, random tokens and operation ids: parameters, and counters that never repeat.
- Criteria of a history preview: which tasks match is a parameter; `parse_criteria`, `sql_filter` and export, vacuum and size limits in bytes are not part of this model.
- `item source_created_at` and other columns that only travel along in a fact: one opaque value per record.
- Read-only queries of the replacement store (`get_for_sources`, `count_no_sources`, the archive pages): only the expiry they trigger.
- HistoryLifecycle.LoadPreparedOperation: the revision column, the byte limit on payloads and the digests of earlier versions are not part of this model.
- HistoryService.Service.PrepareOperation: the byte limit on payloads is not part of this model.
- HistoryRuns.NothingIsLost: the display code of an item is left out of the equality, because a change of it goes unnoticed; `HistoryDisplayCodes.ExactIfCodesRest` says when it holds with it.
- HistoryService.Service.CollectPreparedItems: which tasks match the criteria of the preview is a parameter.
- Migrations v1 to v5 of the replacement store and the part of v6 that rewrites codes of replacement rows: text changes without key conflicts.
- ReplacementService.DownloadReplacementStore.BeginSubmission: codes arrive normalized, because `CatalogSpelling` proves what normalizing does; the spelling of target info hashes is not part of this model.
- ContinuationRegistry.SearchContinuationRegistry.Commit: copying a snapshot is the identity on its value; the event lists inside a snapshot are opaque.
- TtlCache.TtlCache.Set: keys and values are values without identity; locks are not modelled because every method is one critical section.
- Migrations.MigrateJson: that the input is not mutated holds by construction, since payloads are values; stripping of component names is not part of this model.
- ProcessTree.FallbackTreeIdentities: creation times come with the token, as `int` reads them; killing and waiting are not part of this model.
- RuntimeLock.RenderLock: the order of the entries is any listing of the packages, of which the sorted one is a case.
- RuntimeLock.VerifyPythonLock: the direct dependencies and their fingerprint are parameters; reading `pyproject.toml`, `verify_installed_closure` and the vulnerability service are not part of this model.
- RecoveryQueue.DownloadResourceRecoveryManager.Shutdown: the clock of the deadline is not part of this model, so joining is whatever steps the workers take in between; probes are whatever they write to the store.
- The search job registry, the metadata overlay and the disposition snapshots of `jav_pilot/api/registries.py`: the same patterns in small.
- HTTP routes, configuration, models, the user interface and everything else in the fault matrix: plumbing and field validation.

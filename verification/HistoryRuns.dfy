/**
 * Runs of the history cleanup: one process that may crash between any two transactions, commits
 * across files that may fail or reach only one file, recovery at startup and before every cleanup,
 * and task writers in between (jav_pilot/history/cleanup.py, jav_pilot/api/server.py).
 *
 * `removed` and `retired` record history: what cleanup has deleted, and which tasks have ever gone.
 * Task identifiers are never reused.  While a commit is torn no task writer runs: recovery comes
 * before the workers at startup.
 */
module HistoryRuns {
  import opened Collections
  import opened HistoryState
  import opened HistoryCleanup

  /** Where the process is between two transactions. */
  datatype Process =
    | Down
    | Idle
    | Holding(id: OperationId, items: seq<PreparedItem>)
    | Ready(id: OperationId)
    | Failed(id: OperationId, rolledBack: bool, commitAttempted: bool)
    | Harmless(id: OperationId)
    | Deleted(id: OperationId, digest: OperationDigest)
    | Recovering(todo: seq<OperationId>)
    | Conflicted(id: OperationId, todo: seq<OperationId>)
    | Recovered(id: OperationId, digest: OperationDigest, todo: seq<OperationId>)

  datatype World = World(
    tasks: Tasks,
    library: Library,
    process: Process,
    torn: bool,
    removed: iset<(FactKey, Payload)>,
    retired: iset<TaskId>)

  datatype Step =
    | BeginRecovery(todo: seq<OperationId>)
    | RecoveryCommits
    | RecoveryCommitFails(effect: Effect)
    | RecoveryFindsConflict
    | RecoveryBreaks
    | AbortConflicted
    | CompleteRecovered(now: Time)
    | EndRecovery
    | Collect(id: OperationId, items: seq<PreparedItem>)
    | PrepareHeld(now: Time)
    | FaultAfterPrepare
    | ApplyCommits
    | ApplyCommitFails(effect: Effect, rolledBack: bool)
    | ApplyBreaks(rolledBack: bool)
    | CheckFailure
    | AbortHarmless
    | CompleteDeleted(now: Time)
    | LeaveToRecovery
    | Crash
    | Write(tasks: Tasks)

  // ---------------------------------------------------------------- transactions on the world

  predicate IsPrepared(lib: Library, id: OperationId) {
    id in lib.operations && lib.operations[id].status.Prepared?
  }

  ghost predicate CanApply(w: World, id: OperationId, allowMissing: bool) {
    Loads(w.library, id) && Deletable(w.tasks, w.library.operations[id].candidates, allowMissing)
  }

  ghost function Chosen(w: World, id: OperationId): set<TaskId>
    requires id in w.library.operations
  {
    TaskSet(StillThere(w.tasks, w.library.operations[id].candidates))
  }

  /** The rows of the deleted tasks, as facts. */
  ghost predicate Had(tasks: Tasks, t: TaskId, k: FactKey, p: Payload) {
    Present(tasks, t) && RecordAt(t, CandidateOf(tasks, t).fingerprint, tasks.codes, k) == Some(p)
  }

  ghost function Applied(w: World, id: OperationId, e: Effect, process: Process): World
    requires id in w.library.operations
  {
    var gone := Reached(e, Chosen(w, id));
    w.(tasks := Delete(w.tasks, gone),
       process := process,
       torn := if gone == {} then w.torn else gone != Chosen(w, id),
       removed := w.removed + (iset t, k, p | t in gone && Had(w.tasks, t, k, p) :: (k, p)),
       retired := w.retired + (iset t | t in gone))
  }

  function Aborted(w: World, id: OperationId, process: Process): World {
    w.(library := Abort(w.library, id), process := process)
  }

  function Stored(w: World, id: OperationId, prepared: Result<Library, Error>): World {
    match prepared
    case Ok(lib) => w.(library := lib, process := Ready(id))
    case Err(_) => w.(process := Idle)
  }

  ghost function Completed(w: World, id: OperationId, digest: OperationDigest, now: Time,
                           process: Process, otherwise: Process): World {
    match Complete(w.library, id, digest, now)
    case Ok(lib) => w.(library := lib, process := process)
    case Err(_) => w.(process := otherwise)
  }

  /** The test in `execute_cleanup` and `_prepared_operation_is_intact`: after a failed apply the
      operation may be aborted only if no commit was attempted, or every candidate is still there. */
  ghost predicate SafeToAbort(w: World, id: OperationId, rolledBack: bool, commitAttempted: bool) {
    rolledBack && (!commitAttempted || CanApply(w, id, false))
  }

  // ---------------------------------------------------------------- steps

  ghost predicate Enabled(w: World, step: Step) {
    match step
    case BeginRecovery(todo) =>
      && (w.process.Down? || w.process.Idle?)
      && (forall o :: o in todo <==> IsPrepared(w.library, o))
      && (forall i, j | 0 <= i < j < |todo| :: todo[i] != todo[j])
    case RecoveryCommits =>
      w.process.Recovering? && w.process.todo != [] && CanApply(w, w.process.todo[0], true)
    case RecoveryCommitFails(_) =>
      w.process.Recovering? && w.process.todo != [] && CanApply(w, w.process.todo[0], true)
    case RecoveryFindsConflict =>
      w.process.Recovering? && w.process.todo != [] && !CanApply(w, w.process.todo[0], true)
    case RecoveryBreaks => w.process.Recovering? || w.process.Recovered? || w.process.Conflicted?
    case AbortConflicted => w.process.Conflicted?
    case CompleteRecovered(_) => w.process.Recovered?
    case EndRecovery => w.process == Recovering([])
    case Collect(_, items) =>
      && w.process.Idle? && items != []
      && (forall i | 0 <= i < |items| ::
            Refresh(w.tasks, items[i].candidate).Fresh? && MadeFrom(items[i], w.tasks.codes))
      && Closed(w.tasks, TaskSet(CandidatesOf(items)))
    case PrepareHeld(_) => w.process.Holding?
    case FaultAfterPrepare => w.process.Ready?
    case ApplyCommits => w.process.Ready? && CanApply(w, w.process.id, false)
    case ApplyCommitFails(_, _) => w.process.Ready? && CanApply(w, w.process.id, false)
    case ApplyBreaks(_) => w.process.Ready?
    case CheckFailure => w.process.Failed?
    case AbortHarmless => w.process.Harmless?
    case CompleteDeleted(_) => w.process.Deleted?
    case LeaveToRecovery => w.process.Deleted?
    case Crash => true
    case Write(tasks) => !w.torn && forall t | t in w.retired :: !Present(tasks, t)
  }

  ghost function After(w: World, step: Step): World
    requires Enabled(w, step)
  {
    match step
    case BeginRecovery(todo) => w.(process := Recovering(todo))
    case RecoveryCommits =>
      var id := w.process.todo[0];
      Applied(w, id, Everything, Recovered(id, w.library.operations[id].digest, w.process.todo[1..]))
    case RecoveryCommitFails(effect) => Applied(w, w.process.todo[0], effect, Idle)
    case RecoveryFindsConflict => w.(process := Conflicted(w.process.todo[0], w.process.todo[1..]))
    case RecoveryBreaks => w.(process := Idle)
    case AbortConflicted => Aborted(w, w.process.id, Recovering(w.process.todo))
    case CompleteRecovered(now) =>
      Completed(w, w.process.id, w.process.digest, now, Recovering(w.process.todo), Idle)
    case EndRecovery => w.(process := Idle)
    case Collect(id, items) => w.(process := Holding(id, items))
    case PrepareHeld(now) => Stored(w, w.process.id, Prepare(w.library, w.process.id, w.process.items, now))
    case FaultAfterPrepare => Aborted(w, w.process.id, Idle)
    case ApplyCommits =>
      Applied(w, w.process.id, Everything, Deleted(w.process.id, w.library.operations[w.process.id].digest))
    case ApplyCommitFails(effect, rolledBack) =>
      Applied(w, w.process.id, effect, Failed(w.process.id, rolledBack, true))
    case ApplyBreaks(rolledBack) => w.(process := Failed(w.process.id, rolledBack, false))
    case CheckFailure =>
      w.(process := if SafeToAbort(w, w.process.id, w.process.rolledBack, w.process.commitAttempted)
                    then Harmless(w.process.id) else Idle)
    case AbortHarmless => Aborted(w, w.process.id, Idle)
    case CompleteDeleted(now) => Completed(w, w.process.id, w.process.digest, now, Idle, Idle)
    case LeaveToRecovery => w.(process := Idle)
    case Crash => w.(process := Down)
    case Write(tasks) =>
      w.(tasks := tasks, retired := w.retired + (iset t | Present(w.tasks, t) && !Present(tasks, t)))
  }

  /** The steps that delete: commits, whole or in part. */
  predicate IsApply(step: Step) {
    step.RecoveryCommits? || step.RecoveryCommitFails? || step.ApplyCommits? || step.ApplyCommitFails?
  }

  function EffectOfStep(step: Step): Effect
    requires IsApply(step)
  {
    match step
    case RecoveryCommitFails(effect) => effect
    case ApplyCommitFails(effect, _) => effect
    case _ => Everything
  }

  /** The operation whose candidates a step deletes. */
  function AppliedId(w: World, step: Step): OperationId
    requires IsApply(step) && Enabled(w, step)
  {
    if step.RecoveryCommits? || step.RecoveryCommitFails? then w.process.todo[0] else w.process.id
  }

  /** The tasks a step deletes. */
  ghost function GoneIn(w: World, step: Step): set<TaskId>
    requires IsApply(step) && Enabled(w, step)
  {
    Reached(EffectOfStep(step), Chosen(w, AppliedId(w, step)))
  }

  lemma ApplyIsApplied(w: World, step: Step)
    requires IsApply(step) && Enabled(w, step)
    ensures var id := AppliedId(w, step);
            && CanApply(w, id, true)
            && After(w, step) == Applied(w, id, EffectOfStep(step), After(w, step).process)
  {
  }

  // ---------------------------------------------------------------- the invariant

  /** Every record a cleanup has deleted is in the archive, the same up to display codes. */
  ghost predicate Archived(w: World) {
    forall k, p | (k, p) in w.removed ::
      k in w.library.facts && Pinned(w.library.facts[k].payload) == Pinned(p)
  }

  /** Nothing that was deleted depends on a fact the operation created. */
  ghost predicate Untouched(w: World, id: OperationId) {
    forall k, p | (k, p) in w.removed :: k !in CreatedBy(w.library, id)
  }

  ghost predicate Finished(w: World, id: OperationId)
    requires id in w.library.operations
  {
    forall c | c in w.library.operations[id].candidates :: c.task in w.retired
  }

  /** Part of the deletion is on disk, and nothing stands in the way of the rest. */
  ghost predicate HalfDone(w: World, id: OperationId)
    requires id in w.library.operations
  {
    && w.torn
    && Deletable(w.tasks, w.library.operations[id].candidates, true)
    && exists c :: c in w.library.operations[id].candidates && c.task in w.retired
  }

  ghost predicate Known(w: World, c: Candidate) {
    Present(w.tasks, c.task) || c.task in w.retired
  }

  ghost predicate LedgerInv(w: World) {
    forall id | IsPrepared(w.library, id) ::
      && (forall c | c in w.library.operations[id].candidates :: Known(w, c))
      && (Untouched(w, id) || Finished(w, id) || HalfDone(w, id))
  }

  ghost predicate ProcessInv(w: World) {
    match w.process
    case Down => true
    case Idle => true
    case Holding(_, items) =>
      Collected(items) && forall i | 0 <= i < |items| :: Known(w, items[i].candidate)
    case Ready(id) => IsPrepared(w.library, id) && Untouched(w, id)
    case Failed(id, _, commitAttempted) => IsPrepared(w.library, id) && (commitAttempted || Untouched(w, id))
    case Harmless(id) => IsPrepared(w.library, id) && Untouched(w, id)
    case Deleted(id, digest) =>
      IsPrepared(w.library, id) && w.library.operations[id].digest == digest && Finished(w, id)
    case Recovering(todo) => todo == [] || (|todo| == 1 && IsPrepared(w.library, todo[0]))
    case Conflicted(id, todo) => IsPrepared(w.library, id) && Untouched(w, id) && todo == []
    case Recovered(id, digest, todo) =>
      IsPrepared(w.library, id) && w.library.operations[id].digest == digest && Finished(w, id) && todo == []
  }

  ghost predicate Inv(w: World) {
    && LibraryValid(w.library)
    && Archived(w)
    && (forall t | t in w.retired :: !Present(w.tasks, t))
    && LedgerInv(w)
    && ProcessInv(w)
  }

  ghost predicate Initial(w: World) {
    LibraryValid(w.library) && !HasPrepared(w.library) && w.process == Down && !w.torn &&
    w.removed == iset{} && w.retired == iset{}
  }

  // ---------------------------------------------------------------- every step keeps it

  /** Deleting any part of the candidates keeps the archive complete. */
  lemma AppliedKeepsArchived(w: World, id: OperationId, allowMissing: bool, e: Effect, process: Process)
    requires LibraryValid(w.library) && Archived(w) && CanApply(w, id, allowMissing)
    ensures Archived(Applied(w, id, e, process))
  {
    var gone := Reached(e, Chosen(w, id));
    var op := w.library.operations[id];
    forall t, k, p | t in gone && Had(w.tasks, t, k, p)
      ensures k in w.library.facts && Pinned(w.library.facts[k].payload) == Pinned(p)
    {
      ChosenIsArchived(w.library, op, w.tasks, t, k, p);
    }
  }

  lemma ChosenIsArchived(lib: Library, op: Operation, tasks: Tasks, t: TaskId, k: FactKey, p: Payload)
    requires Archives(lib.facts, op) && t in TaskSet(StillThere(tasks, op.candidates)) && Had(tasks, t, k, p)
    ensures k in lib.facts && Pinned(lib.facts[k].payload) == Pinned(p)
  {
    var c :| c in StillThere(tasks, op.candidates) && c.task == t;
    RecordUpToCode(t, c.fingerprint, tasks.codes, k);
    assert IsArchived(lib.facts, op, k, Promise(c, k).value);
  }

  lemma AppliedKeepsRetired(w: World, id: OperationId, e: Effect, process: Process)
    requires id in w.library.operations
    requires forall t | t in w.retired :: !Present(w.tasks, t)
    ensures var after := Applied(w, id, e, process);
            && (forall t | t in after.retired :: !Present(after.tasks, t))
            && (forall c :: Known(w, c) ==> Known(after, c))
  {
    DeleteRemovesExactly(w.tasks, Reached(e, Chosen(w, id)));
  }

  lemma AllGoneMeansFinished(w: World, id: OperationId, e: Effect, process: Process)
    requires id in w.library.operations && Reached(e, Chosen(w, id)) == Chosen(w, id)
    requires forall c | c in w.library.operations[id].candidates :: Known(w, c) && !Refresh(w.tasks, c).Changed?
    ensures Finished(Applied(w, id, e, process), id)
  {
    var candidates := w.library.operations[id].candidates;
    forall c | c in candidates ensures c.task in Applied(w, id, e, process).retired {
      if Present(w.tasks, c.task) {
        assert Refresh(w.tasks, c).Fresh?;
        assert c in StillThere(w.tasks, candidates);
      }
    }
  }

  lemma SomeGoneMeansHalfDone(w: World, id: OperationId, allowMissing: bool, e: Effect, process: Process)
    requires CanApply(w, id, allowMissing)
    requires Reached(e, Chosen(w, id)) != {} && Reached(e, Chosen(w, id)) != Chosen(w, id)
    ensures HalfDone(Applied(w, id, e, process), id)
  {
    var candidates := w.library.operations[id].candidates;
    RestStillDeletable(w.tasks, candidates, allowMissing, e);
    var t :| t in Reached(e, Chosen(w, id));
    var c :| c in StillThere(w.tasks, candidates) && c.task == t;
    assert c in candidates && c.task in Applied(w, id, e, process).retired;
  }

  lemma NothingGoneChangesNothing(w: World, id: OperationId, e: Effect, process: Process)
    requires id in w.library.operations && Reached(e, Chosen(w, id)) == {}
    ensures Applied(w, id, e, process) == w.(process := process)
  {
    DeletingNothing(w.tasks);
    var after := Applied(w, id, e, process);
    assert after.removed == w.removed;
    assert after.retired == w.retired;
  }

  lemma NothingGoneKeepsLedger(w: World, id: OperationId, e: Effect, process: Process)
    requires Inv(w) && IsPrepared(w.library, id) && Reached(e, Chosen(w, id)) == {}
    ensures LedgerInv(Applied(w, id, e, process))
  {
    NothingGoneChangesNothing(w, id, e, process);
    assert LedgerInv(w.(process := process)) by {
      assert forall o :: Untouched(w, o) ==> Untouched(w.(process := process), o);
    }
  }

  /** The ledger is in order again once its only prepared operation is. */
  lemma OneOperationInOrder(w: World, id: OperationId, e: Effect, process: Process)
    requires Inv(w) && IsPrepared(w.library, id)
    requires var after := Applied(w, id, e, process); Untouched(after, id) || Finished(after, id) || HalfDone(after, id)
    ensures LedgerInv(Applied(w, id, e, process))
  {
    AppliedKeepsRetired(w, id, e, process);
    var after := Applied(w, id, e, process);
    forall o | IsPrepared(after.library, o)
      ensures forall c | c in after.library.operations[o].candidates :: Known(after, c)
      ensures Untouched(after, o) || Finished(after, o) || HalfDone(after, o)
    {
      assert IsPrepared(w.library, o) && o == id;
      assert forall c | c in w.library.operations[o].candidates :: Known(w, c);
    }
  }

  lemma AllGoneKeepsLedger(w: World, id: OperationId, allowMissing: bool, e: Effect, process: Process)
    requires Inv(w) && IsPrepared(w.library, id) && CanApply(w, id, allowMissing)
    requires Reached(e, Chosen(w, id)) == Chosen(w, id)
    ensures LedgerInv(Applied(w, id, e, process)) && Finished(Applied(w, id, e, process), id)
  {
    AllGoneMeansFinished(w, id, e, process);
    OneOperationInOrder(w, id, e, process);
  }

  lemma SomeGoneKeepsLedger(w: World, id: OperationId, allowMissing: bool, e: Effect, process: Process)
    requires Inv(w) && IsPrepared(w.library, id) && CanApply(w, id, allowMissing)
    requires Reached(e, Chosen(w, id)) != {} && Reached(e, Chosen(w, id)) != Chosen(w, id)
    ensures LedgerInv(Applied(w, id, e, process))
  {
    SomeGoneMeansHalfDone(w, id, allowMissing, e, process);
    OneOperationInOrder(w, id, e, process);
  }

  /** After a commit that reached all, none, or one of the files, the operation is finished,
      untouched, or half done. */
  lemma AppliedKeepsLedger(w: World, id: OperationId, allowMissing: bool, e: Effect, process: Process)
    requires Inv(w) && IsPrepared(w.library, id) && CanApply(w, id, allowMissing)
    ensures LedgerInv(Applied(w, id, e, process))
  {
    var gone, chosen := Reached(e, Chosen(w, id)), Chosen(w, id);
    if gone == chosen {
      AllGoneKeepsLedger(w, id, allowMissing, e, process);
    } else if gone == {} {
      NothingGoneKeepsLedger(w, id, e, process);
    } else {
      SomeGoneKeepsLedger(w, id, allowMissing, e, process);
    }
  }

  lemma EverythingFinishes(w: World, id: OperationId, allowMissing: bool, e: Effect, process: Process)
    requires Inv(w) && IsPrepared(w.library, id) && CanApply(w, id, allowMissing)
    ensures e.Everything? ==> Finished(Applied(w, id, e, process), id)
  {
    if e.Everything? {
      AllGoneMeansFinished(w, id, e, process);
    }
  }

  lemma DeletingNothing(tasks: Tasks)
    ensures Delete(tasks, {}) == tasks
  {
    var after := Delete(tasks, {});
    assert after.web == tasks.web && after.batches == tasks.batches && after.meta == tasks.meta;
  }

  lemma AppliedKeepsInv(w: World, id: OperationId, allowMissing: bool, e: Effect, process: Process)
    requires Inv(w) && IsPrepared(w.library, id) && CanApply(w, id, allowMissing)
    requires match process
             case Idle => true
             case Failed(i, _, attempted) => i == id && attempted
             case Deleted(i, digest) => i == id && digest == w.library.operations[id].digest && e.Everything?
             case Recovered(i, digest, todo) =>
               i == id && digest == w.library.operations[id].digest && e.Everything? && todo == []
             case _ => false
    ensures Inv(Applied(w, id, e, process))
  {
    AppliedKeepsArchived(w, id, allowMissing, e, process);
    AppliedKeepsRetired(w, id, e, process);
    AppliedKeepsLedger(w, id, allowMissing, e, process);
    EverythingFinishes(w, id, allowMissing, e, process);
  }

  /** Aborting an operation nothing deleted depends on. */
  lemma AbortedKeepsInv(w: World, id: OperationId, process: Process)
    requires Inv(w) && IsPrepared(w.library, id) && Untouched(w, id)
    requires process == Idle || process == Recovering([])
    ensures Inv(Aborted(w, id, process))
  {
    AbortKeepsLibraryValid(w.library, id);
    var after := Aborted(w, id, process);
    forall o ensures !IsPrepared(after.library, o) {
      assert !HasPrepared(after.library);
    }
  }

  lemma CompletedKeepsInv(w: World, id: OperationId, digest: OperationDigest, now: Time, process: Process)
    requires Inv(w) && IsPrepared(w.library, id)
    requires process == Idle || process == Recovering([])
    ensures Inv(Completed(w, id, digest, now, process, Idle))
  {
    if Complete(w.library, id, digest, now).Ok? {
      CompleteSettles(w.library, id, digest, now);
      var after := Completed(w, id, digest, now, process, Idle);
      forall o ensures !IsPrepared(after.library, o) {
        assert !HasPrepared(after.library);
      }
    }
  }

  lemma {:induction false} StoredKeepsInv(w: World, id: OperationId, items: seq<PreparedItem>, lib: Library)
    requires Inv(w) && w.process == Holding(id, items)
    requires Grown(w.library, id, items, lib)
    ensures Inv(Stored(w, id, Ok(lib)))
  {
    var after := Stored(w, id, Ok(lib));
    forall c | c in lib.operations[id].candidates ensures Known(after, c) {
      var i :| 0 <= i < |items| && items[i].candidate == c;
      assert Known(w, items[i].candidate);
    }
    forall o | IsPrepared(lib, o) ensures o == id {
      assert OnePrepared(lib.operations);
    }
    assert Untouched(after, id);
  }

  lemma {:induction false} CollectKeepsInv(w: World, id: OperationId, items: seq<PreparedItem>)
    requires Inv(w) && Enabled(w, Collect(id, items))
    ensures Inv(After(w, Collect(id, items)))
  {
    CollectedItemsAreCollected(w, id, items);
    OnlyProcessMoves(w, Holding(id, items));
  }

  lemma {:induction false} CollectedItemsAreCollected(w: World, id: OperationId, items: seq<PreparedItem>)
    requires Enabled(w, Collect(id, items))
    ensures Collected(items)
    ensures forall i | 0 <= i < |items| :: Known(w, items[i].candidate)
  {
    forall i | 0 <= i < |items| ensures FromItsRows(items[i]) {
      assert MadeFrom(items[i], w.tasks.codes);
    }
  }

  lemma OnlyProcessMoves(w: World, process: Process)
    requires Inv(w) && ProcessInv(w.(process := process))
    ensures Inv(w.(process := process))
  {
    var after := w.(process := process);
    assert forall o :: Untouched(w, o) ==> Untouched(after, o);
    forall id | IsPrepared(after.library, id)
      ensures forall c | c in after.library.operations[id].candidates :: Known(after, c)
      ensures Untouched(after, id) || Finished(after, id) || HalfDone(after, id)
    {
      assert IsPrepared(w.library, id);
      assert forall c | c in w.library.operations[id].candidates :: Known(w, c);
    }
  }

  lemma WriteKeepsInv(w: World, tasks: Tasks)
    requires Inv(w) && Enabled(w, Write(tasks))
    ensures Inv(After(w, Write(tasks)))
  {
    var after := After(w, Write(tasks));
    assert forall c :: Known(w, c) ==> Known(after, c);
    forall id | IsPrepared(w.library, id)
      ensures Untouched(after, id) || Finished(after, id)
    {
      assert !HalfDone(w, id);
      assert Finished(w, id) ==> Finished(after, id);
      assert Untouched(w, id) ==> Untouched(after, id);
    }
  }

  /** A conflict during recovery only ever comes up when nothing was deleted yet. */
  lemma ConflictMeansUntouched(w: World, id: OperationId)
    requires Inv(w) && IsPrepared(w.library, id) && !CanApply(w, id, true)
    ensures Untouched(w, id)
  {
    if Finished(w, id) {
      FinishedCanApply(w, id);
    }
  }

  lemma FinishedCanApply(w: World, id: OperationId)
    requires Inv(w) && IsPrepared(w.library, id) && Finished(w, id)
    ensures CanApply(w, id, true)
  {
    var op := w.library.operations[id];
    assert Sound(w.library.facts, op);
    forall c | c in op.candidates ensures Refresh(w.tasks, c).Missing? {
      assert c.task in w.retired;
    }
    assert TaskSet(StillThere(w.tasks, op.candidates)) == {};
  }

  /** If every candidate is still there, nothing was deleted, whatever the failed commit reported. */
  lemma IntactMeansUntouched(w: World, id: OperationId)
    requires Inv(w) && IsPrepared(w.library, id) && CanApply(w, id, false)
    ensures Untouched(w, id)
  {
    var op := w.library.operations[id];
    if op.candidates != [] {
      assert op.candidates[0] in op.candidates;
      assert !Finished(w, id);
      assert !HalfDone(w, id);
    }
  }

  // ---------------------------------------------------------------- the theorem

  lemma {:induction false} AtMostOneToRecover(w: World, todo: seq<OperationId>)
    requires OnePrepared(w.library.operations)
    requires forall i | 0 <= i < |todo| :: IsPrepared(w.library, todo[i])
    requires forall i, j | 0 <= i < j < |todo| :: todo[i] != todo[j]
    ensures |todo| <= 1
  {
    if |todo| > 0 {
      assert todo[0] == todo[|todo| - 1];
    }
  }

  lemma RecoveryStepKeepsInv(w: World, step: Step)
    requires Inv(w) && Enabled(w, step)
    requires step.BeginRecovery? || step.RecoveryCommits? || step.RecoveryCommitFails? || step.RecoveryFindsConflict?
             || step.AbortConflicted? || step.CompleteRecovered?
    ensures Inv(After(w, step))
  {
    match step
    case BeginRecovery(todo) =>
      AtMostOneToRecover(w, todo);
      OnlyProcessMoves(w, Recovering(todo));
    case RecoveryCommits =>
      var id := w.process.todo[0];
      AppliedKeepsInv(w, id, true, Everything, Recovered(id, w.library.operations[id].digest, w.process.todo[1..]));
    case RecoveryCommitFails(effect) =>
      AppliedKeepsInv(w, w.process.todo[0], true, effect, Idle);
    case RecoveryFindsConflict =>
      ConflictMeansUntouched(w, w.process.todo[0]);
      OnlyProcessMoves(w, Conflicted(w.process.todo[0], w.process.todo[1..]));
    case AbortConflicted =>
      AbortedKeepsInv(w, w.process.id, Recovering(w.process.todo));
    case CompleteRecovered(now) =>
      CompletedKeepsInv(w, w.process.id, w.process.digest, now, Recovering(w.process.todo));
    case _ =>
  }

  lemma CleanupStepKeepsInv(w: World, step: Step)
    requires Inv(w) && Enabled(w, step)
    requires step.Collect? || step.PrepareHeld? || step.FaultAfterPrepare? || step.ApplyCommits?
             || step.ApplyCommitFails? || step.ApplyBreaks? || step.CheckFailure? || step.AbortHarmless? || step.CompleteDeleted?
    ensures Inv(After(w, step))
  {
    match step
    case Collect(id, items) => CollectKeepsInv(w, id, items);
    case PrepareHeld(now) =>
      var prepared := Prepare(w.library, w.process.id, w.process.items, now);
      if prepared.Ok? {
        PrepareGrows(w.library, w.process.id, w.process.items, now);
        StoredKeepsInv(w, w.process.id, w.process.items, prepared.value);
      } else {
        OnlyProcessMoves(w, Idle);
      }
    case FaultAfterPrepare => AbortedKeepsInv(w, w.process.id, Idle);
    case ApplyCommits =>
      AppliedKeepsInv(w, w.process.id, false, Everything,
                      Deleted(w.process.id, w.library.operations[w.process.id].digest));
    case ApplyCommitFails(effect, rolledBack) =>
      AppliedKeepsInv(w, w.process.id, false, effect, Failed(w.process.id, rolledBack, true));
    case ApplyBreaks(rolledBack) => OnlyProcessMoves(w, Failed(w.process.id, rolledBack, false));
    case CheckFailure =>
      if SafeToAbort(w, w.process.id, w.process.rolledBack, w.process.commitAttempted) {
        if w.process.commitAttempted {
          IntactMeansUntouched(w, w.process.id);
        }
        OnlyProcessMoves(w, Harmless(w.process.id));
      } else {
        OnlyProcessMoves(w, Idle);
      }
    case AbortHarmless => AbortedKeepsInv(w, w.process.id, Idle);
    case CompleteDeleted(now) => CompletedKeepsInv(w, w.process.id, w.process.digest, now, Idle);
    case _ =>
  }

  lemma StepKeepsInv(w: World, step: Step)
    requires Inv(w) && Enabled(w, step)
    ensures Inv(After(w, step))
  {
    match step
    case RecoveryBreaks => OnlyProcessMoves(w, Idle);
    case EndRecovery => OnlyProcessMoves(w, Idle);
    case LeaveToRecovery => OnlyProcessMoves(w, Idle);
    case Crash => OnlyProcessMoves(w, Down);
    case Write(tasks) => WriteKeepsInv(w, tasks);
    case BeginRecovery(_) => RecoveryStepKeepsInv(w, step);
    case RecoveryCommits => RecoveryStepKeepsInv(w, step);
    case RecoveryCommitFails(_) => RecoveryStepKeepsInv(w, step);
    case RecoveryFindsConflict => RecoveryStepKeepsInv(w, step);
    case AbortConflicted => RecoveryStepKeepsInv(w, step);
    case CompleteRecovered(_) => RecoveryStepKeepsInv(w, step);
    case _ => CleanupStepKeepsInv(w, step);
  }

  ghost predicate IsStep(worlds: seq<World>, steps: seq<Step>, i: nat)
    requires i < |steps| < |worlds|
  {
    Enabled(worlds[i], steps[i]) && worlds[i + 1] == After(worlds[i], steps[i])
  }

  ghost predicate IsRun(worlds: seq<World>, steps: seq<Step>) {
    && |worlds| == |steps| + 1
    && Initial(worlds[0])
    && forall i | 0 <= i < |steps| :: IsStep(worlds, steps, i)
  }

  /** In every state of every run, whatever a cleanup has deleted is archived. */
  lemma {:induction false} NothingIsLost(worlds: seq<World>, steps: seq<Step>, i: nat)
    requires IsRun(worlds, steps) && i < |worlds|
    ensures Inv(worlds[i])
    ensures Archived(worlds[i])
  {
    if i > 0 {
      NothingIsLost(worlds, steps, i - 1);
      assert IsStep(worlds, steps, i - 1);
      StepKeepsInv(worlds[i - 1], steps[i - 1]);
    } else {
      forall o ensures !IsPrepared(worlds[0].library, o) {
        assert !HasPrepared(worlds[0].library);
      }
    }
  }

  lemma RunStep(worlds: seq<World>, steps: seq<Step>, i: nat)
    requires IsRun(worlds, steps) && i < |steps|
    ensures Inv(worlds[i]) && IsStep(worlds, steps, i)
  {
    NothingIsLost(worlds, steps, i);
  }

  /** The tasks that step `j` of a run deletes. */
  ghost function GoneAt(worlds: seq<World>, steps: seq<Step>, j: nat): set<TaskId>
    requires IsRun(worlds, steps) && j < |steps| && IsApply(steps[j])
  {
    assert IsStep(worlds, steps, j);
    GoneIn(worlds[j], steps[j])
  }

  lemma SameStep(worlds: seq<World>, steps: seq<Step>, longer: seq<World>, more: seq<Step>, i: nat)
    requires i < |steps| < |worlds| && i < |more| < |longer| && IsStep(worlds, steps, i)
    requires longer[i] == worlds[i] && longer[i + 1] == worlds[i + 1] && more[i] == steps[i]
    ensures IsStep(longer, more, i)
  {
  }

  lemma RunGoesOn(worlds: seq<World>, steps: seq<Step>, step: Step) returns (longer: seq<World>, more: seq<Step>)
    requires IsRun(worlds, steps) && Enabled(worlds[|steps|], step)
    ensures IsRun(longer, more) && more == steps + [step] && longer[|more|] == After(worlds[|steps|], step)
  {
    longer, more := worlds + [After(worlds[|steps|], step)], steps + [step];
    forall i | 0 <= i < |more| ensures IsStep(longer, more, i) {
      if i < |steps| {
        SameStep(worlds, steps, longer, more, i);
      }
    }
  }

  /** Recovery at startup, with nothing to recover. */
  lemma StartupIsRun(start: World) returns (worlds: seq<World>, steps: seq<Step>)
    requires Initial(start)
    ensures IsRun(worlds, steps) && worlds[|steps|] == start.(process := Idle)
  {
    assert forall o :: !IsPrepared(start.library, o);
    worlds, steps := RunGoesOn([start], [], BeginRecovery([]));
    worlds, steps := RunGoesOn(worlds, steps, EndRecovery);
  }
}

/**
 * A cleanup whose commit stopped between the database files, and a task writer that runs before
 * recovery: exactly when recovery then loses a record, for any writer and read off the tables, and a run
 * that gets there
 * (jav_pilot/history/cleanup.py:320-428, 721-747).
 */
module HistoryTornCommits {
  import opened Collections
  import opened HistoryState
  import opened HistoryCleanup
  import opened HistoryRuns
  import opened HistorySettlement
  import opened HistoryOutcomes

  // ---------------------------------------------------------------- what the cleanups of a run have deleted

  type Gone = iset<TaskId>

  /** The tasks that the cleanups have deleted in the first `i` steps; task writers may have deleted more. */
  ghost function DeletedBy(worlds: seq<World>, steps: seq<Step>, i: nat): Gone
    requires IsRun(worlds, steps) && i <= |steps|
  {
    if i == 0 then iset{}
    else
      assert IsStep(worlds, steps, i - 1);
      DeletedBy(worlds, steps, i - 1) + DeletedIn(worlds[i - 1], steps[i - 1])
  }

  /** The tasks a step deletes. */
  ghost function DeletedIn(w: World, step: Step): Gone
    requires Enabled(w, step)
  {
    if IsApply(step) then (iset t | t in GoneIn(w, step)) else iset{}
  }

  lemma DeletedOneMore(worlds: seq<World>, steps: seq<Step>, i: nat)
    requires IsRun(worlds, steps) && i < |steps|
    ensures Inv(worlds[i]) && IsStep(worlds, steps, i)
    ensures DeletedBy(worlds, steps, i + 1) == DeletedBy(worlds, steps, i) + DeletedIn(worlds[i], steps[i])
  {
    RunStep(worlds, steps, i);
  }

  ghost predicate WasRemoved(w: World, k: FactKey) {
    exists p :: (k, p) in w.removed
  }

  /** If a cleanup has deleted the candidate, it has deleted each of its records. */
  ghost predicate IsAccountedFor(w: World, gone: Gone, c: Candidate) {
    c.task in gone ==> forall k | Promise(c, k).Some? :: WasRemoved(w, k)
  }

  ghost predicate AreAccountedFor(w: World, gone: Gone, candidates: seq<Candidate>) {
    forall c | c in candidates :: IsAccountedFor(w, gone, c)
  }

  /** Some candidate of the operation that a cleanup has deleted had a record under `k`. */
  ghost predicate HasGone(w: World, gone: Gone, id: OperationId, k: FactKey)
    requires id in w.library.operations
  {
    exists c :: c in w.library.operations[id].candidates && c.task in gone && Promise(c, k).Some?
  }

  /** The facts an operation created stand for records of its own candidates only. */
  ghost predicate OwnsWhatItCreated(w: World, gone: Gone, id: OperationId)
    requires id in w.library.operations
  {
    forall k, p | (k, p) in w.removed && k in CreatedBy(w.library, id) :: HasGone(w, gone, id, k)
  }

  ghost predicate AreUntouched(gone: Gone, items: seq<PreparedItem>) {
    forall i | 0 <= i < |items| :: items[i].candidate.task !in gone
  }

  /** The deleted records and the deleted candidates of a prepared operation correspond. */
  ghost predicate Corresponds(w: World, gone: Gone, id: OperationId)
    requires id in w.library.operations
  {
    OwnsWhatItCreated(w, gone, id) && AreAccountedFor(w, gone, w.library.operations[id].candidates)
  }

  ghost predicate TracksDeletions(w: World, gone: Gone) {
    && (forall t | t in gone :: t in w.retired)
    && (forall id | IsPrepared(w.library, id) :: Corresponds(w, gone, id))
    && (w.process.Holding? ==> AreUntouched(gone, w.process.items))
  }

  // ---------------------------------------------------------------- deleting

  lemma CandidateWithRecord(tasks: Tasks, candidates: seq<Candidate>, t: TaskId, k: FactKey, p: Payload)
    returns (c: Candidate)
    requires t in TaskSet(StillThere(tasks, candidates)) && Had(tasks, t, k, p)
    ensures c in candidates && c.task == t && Promise(c, k).Some?
  {
    c :| c in StillThere(tasks, candidates) && c.task == t;
    RecordUpToCode(t, c.fingerprint, tasks.codes, k);
  }

  lemma GoneHadIt(w: World, id: OperationId, e: Effect, process: Process, more: Gone, k: FactKey, p: Payload)
    requires id in w.library.operations && forall t | t in Reached(e, Chosen(w, id)) :: t in more
    requires (k, p) in Applied(w, id, e, process).removed && (k, p) !in w.removed
    ensures HasGone(Applied(w, id, e, process), more, id, k)
  {
    var gone := Reached(e, Chosen(w, id));
    var t :| t in gone && Had(w.tasks, t, k, p);
    var c := CandidateWithRecord(w.tasks, w.library.operations[id].candidates, t, k, p);
  }

  lemma AppliedOwns(w: World, id: OperationId, e: Effect, process: Process, gone: Gone, more: Gone)
    requires id in w.library.operations && OwnsWhatItCreated(w, gone, id)
    requires more == gone + (iset t | t in Reached(e, Chosen(w, id)))
    ensures OwnsWhatItCreated(Applied(w, id, e, process), more, id)
  {
    var after := Applied(w, id, e, process);
    forall k, p | (k, p) in after.removed && k in CreatedBy(w.library, id) ensures HasGone(after, more, id, k) {
      if (k, p) in w.removed {
        assert HasGone(w, gone, id, k);
      } else {
        GoneHadIt(w, id, e, process, more, k, p);
      }
    }
  }

  lemma CandidateAccounts(w: World, id: OperationId, e: Effect, process: Process, gone: Gone, more: Gone, c: Candidate)
    requires id in w.library.operations && c in w.library.operations[id].candidates
    requires more == gone + (iset t | t in Reached(e, Chosen(w, id)))
    requires !Refresh(w.tasks, c).Changed? && IsAccountedFor(w, gone, c)
    ensures IsAccountedFor(Applied(w, id, e, process), more, c)
  {
    var after := Applied(w, id, e, process);
    forall k | c.task in more && Promise(c, k).Some? ensures WasRemoved(after, k) {
      if c.task in gone {
        assert WasRemoved(w, k);
        var p :| (k, p) in w.removed;
        assert (k, p) in after.removed;
      } else {
        DeletedCandidateHad(w.tasks, w.library.operations[id].candidates, c, k);
        var p := RecordAt(c.task, c.fingerprint, w.tasks.codes, k).value;
        assert (k, p) in after.removed;
      }
    }
  }

  lemma DeletedCandidateHad(tasks: Tasks, candidates: seq<Candidate>, c: Candidate, k: FactKey)
    requires c in candidates && !Refresh(tasks, c).Changed? && Promise(c, k).Some?
    requires c.task in TaskSet(StillThere(tasks, candidates))
    ensures RecordAt(c.task, c.fingerprint, tasks.codes, k).Some?
    ensures Had(tasks, c.task, k, RecordAt(c.task, c.fingerprint, tasks.codes, k).value)
  {
    var d :| d in StillThere(tasks, candidates) && d.task == c.task;
    assert Refresh(tasks, d).Fresh? && Refresh(tasks, c).Fresh?;
    RecordUpToCode(c.task, c.fingerprint, tasks.codes, k);
  }

  lemma AppliedTracks(w: World, id: OperationId, e: Effect, process: Process, gone: Gone, more: Gone)
    requires Inv(w) && IsPrepared(w.library, id) && CanApply(w, id, true) && !process.Holding?
    requires TracksDeletions(w, gone) && more == gone + (iset t | t in Reached(e, Chosen(w, id)))
    ensures TracksDeletions(Applied(w, id, e, process), more)
  {
    var after := Applied(w, id, e, process);
    AppliedOwns(w, id, e, process, gone, more);
    forall c | c in w.library.operations[id].candidates ensures IsAccountedFor(after, more, c) {
      CandidateAccounts(w, id, e, process, gone, more, c);
    }
    assert Corresponds(after, more, id);
    forall o | IsPrepared(after.library, o) ensures o == id {
      SameOperation(w.library, o, id);
    }
  }

  lemma ApplyStepTracks(w: World, step: Step, gone: Gone)
    requires Inv(w) && Enabled(w, step) && IsApply(step) && TracksDeletions(w, gone)
    ensures TracksDeletions(After(w, step), gone + DeletedIn(w, step))
  {
    ApplyIsApplied(w, step);
    AppliedToPrepared(w, step);
    NotHoldingAfterApply(w, step);
    AppliedTracks(w, AppliedId(w, step), EffectOfStep(step), After(w, step).process, gone, gone + DeletedIn(w, step));
  }

  lemma NotHoldingAfterApply(w: World, step: Step)
    requires Enabled(w, step) && IsApply(step)
    ensures !After(w, step).process.Holding?
  {
  }

  // ---------------------------------------------------------------- every other step

  lemma KeptLibraryTracks(w: World, after: World, gone: Gone)
    requires TracksDeletions(w, gone) && after.library == w.library && after.removed == w.removed && w.retired <= after.retired
    requires after.process.Holding? ==> AreUntouched(gone, after.process.items)
    ensures TracksDeletions(after, gone)
  {
    forall id | IsPrepared(after.library, id) ensures Corresponds(after, gone, id) {
      KeptCorresponds(w, after, gone, id);
    }
  }

  lemma KeptCorresponds(w: World, after: World, gone: Gone, id: OperationId)
    requires id in w.library.operations && Corresponds(w, gone, id)
    requires after.library == w.library && after.removed == w.removed
    ensures Corresponds(after, gone, id)
  {
    forall k, p | (k, p) in after.removed && k in CreatedBy(after.library, id) ensures HasGone(after, gone, id, k) {
      assert HasGone(w, gone, id, k);
    }
    forall c | c in after.library.operations[id].candidates ensures IsAccountedFor(after, gone, c) {
      assert IsAccountedFor(w, gone, c);
      assert forall k :: WasRemoved(w, k) ==> WasRemoved(after, k);
    }
  }

  lemma SettledTracks(after: World, gone: Gone)
    requires !HasPrepared(after.library) && !after.process.Holding? && forall t | t in gone :: t in after.retired
    ensures TracksDeletions(after, gone)
  {
    assert forall o :: !IsPrepared(after.library, o);
  }

  lemma AbortedTracks(w: World, id: OperationId, process: Process, gone: Gone)
    requires Inv(w) && IsPrepared(w.library, id) && !process.Holding? && TracksDeletions(w, gone)
    ensures TracksDeletions(Aborted(w, id, process), gone)
  {
    AbortKeepsLibraryValid(w.library, id);
    SettledTracks(Aborted(w, id, process), gone);
  }

  lemma CompletedTracks(w: World, id: OperationId, digest: OperationDigest, now: Time, process: Process, gone: Gone)
    requires Inv(w) && IsPrepared(w.library, id) && TracksDeletions(w, gone) && !process.Holding?
    ensures TracksDeletions(HistoryRuns.Completed(w, id, digest, now, process, Idle), gone)
  {
    var after := HistoryRuns.Completed(w, id, digest, now, process, Idle);
    if Complete(w.library, id, digest, now).Ok? {
      CompleteSettles(w.library, id, digest, now);
      SettledTracks(after, gone);
    } else {
      KeptLibraryTracks(w, after, gone);
    }
  }

  /** A fresh operation has created no fact that a deleted record depends on, and none of its candidates has
      been deleted. */
  lemma FreshCorresponds(after: World, gone: Gone, id: OperationId, items: seq<PreparedItem>)
    requires IsPrepared(after.library, id) && Untouched(after, id) && AreUntouched(gone, items)
    requires after.library.operations[id].candidates == CandidatesOf(items)
    ensures Corresponds(after, gone, id)
  {
    forall c | c in CandidatesOf(items) ensures c.task !in gone {
      var i :| 0 <= i < |items| && CandidatesOf(items)[i] == c;
    }
  }

  lemma StoredTracks(w: World, now: Time, gone: Gone)
    requires Inv(w) && w.process.Holding? && TracksDeletions(w, gone)
    ensures TracksDeletions(After(w, PrepareHeld(now)), gone)
  {
    var id, items := w.process.id, w.process.items;
    var after := After(w, PrepareHeld(now));
    StepKeepsInv(w, PrepareHeld(now));
    if Prepare(w.library, id, items, now).Ok? {
      FreshCorresponds(after, gone, id, items);
      forall o | IsPrepared(after.library, o) ensures o == id {
        SameOperation(after.library, o, id);
      }
    } else {
      KeptLibraryTracks(w, after, gone);
    }
  }

  lemma TouchingTracks(w: World, step: Step, gone: Gone)
    requires Inv(w) && Enabled(w, step) && TracksDeletions(w, gone) && TouchesLibrary(step)
    ensures TracksDeletions(After(w, step), gone)
  {
    match step
    case PrepareHeld(now) => StoredTracks(w, now, gone);
    case FaultAfterPrepare => AbortedTracks(w, w.process.id, Idle, gone);
    case AbortHarmless => AbortedTracks(w, w.process.id, Idle, gone);
    case AbortConflicted => AbortedTracks(w, w.process.id, Recovering(w.process.todo), gone);
    case CompleteRecovered(now) =>
      CompletedTracks(w, w.process.id, w.process.digest, now, Recovering(w.process.todo), gone);
    case CompleteDeleted(now) => CompletedTracks(w, w.process.id, w.process.digest, now, Idle, gone);
  }

  lemma HeldAreUntouched(w: World, step: Step, gone: Gone)
    requires Inv(w) && Enabled(w, step) && TracksDeletions(w, gone) && !IsApply(step) && !TouchesLibrary(step)
    ensures After(w, step).process.Holding? ==> AreUntouched(gone, After(w, step).process.items)
  {
    if step.Collect? {
      CollectedAreUntouched(w, step, gone);
    }
  }

  lemma {:induction false} CollectedAreUntouched(w: World, step: Step, gone: Gone)
    requires Inv(w) && Enabled(w, step) && step.Collect? && forall t | t in gone :: t in w.retired
    ensures AreUntouched(gone, step.items)
  {
    forall i | 0 <= i < |step.items| ensures step.items[i].candidate.task !in gone {
      assert Refresh(w.tasks, step.items[i].candidate).Fresh?;
    }
  }

  lemma OtherStepKeeps(w: World, step: Step)
    requires Enabled(w, step) && !IsApply(step) && !TouchesLibrary(step)
    ensures After(w, step).library == w.library && After(w, step).removed == w.removed && w.retired <= After(w, step).retired
  {
  }

  lemma OtherStepTracks(w: World, step: Step, gone: Gone)
    requires Inv(w) && Enabled(w, step) && TracksDeletions(w, gone) && !IsApply(step) && !TouchesLibrary(step)
    ensures TracksDeletions(After(w, step), gone)
  {
    OtherStepKeeps(w, step);
    HeldAreUntouched(w, step, gone);
    KeptLibraryTracks(w, After(w, step), gone);
  }

  lemma StepTracks(w: World, step: Step, gone: Gone)
    requires Inv(w) && Enabled(w, step) && TracksDeletions(w, gone)
    ensures TracksDeletions(After(w, step), gone + DeletedIn(w, step))
  {
    if IsApply(step) {
      ApplyStepTracks(w, step, gone);
    } else {
      assert gone + DeletedIn(w, step) == gone;
      if TouchesLibrary(step) {
        TouchingTracks(w, step, gone);
      } else {
        OtherStepTracks(w, step, gone);
      }
    }
  }

  lemma FirstTracks(worlds: seq<World>, steps: seq<Step>)
    requires IsRun(worlds, steps)
    ensures TracksDeletions(worlds[0], DeletedBy(worlds, steps, 0))
  {
    SettledTracks(worlds[0], iset{});
  }

  lemma NextTracks(worlds: seq<World>, steps: seq<Step>, i: nat)
    requires IsRun(worlds, steps) && i < |steps| && TracksDeletions(worlds[i], DeletedBy(worlds, steps, i))
    ensures TracksDeletions(worlds[i + 1], DeletedBy(worlds, steps, i + 1))
  {
    DeletedOneMore(worlds, steps, i);
    StepTracks(worlds[i], steps[i], DeletedBy(worlds, steps, i));
  }

  /** In every run: a record that an operation was the first to archive is one of its own deleted candidates',
      and all records of its deleted candidates have been deleted. */
  lemma {:induction false} RunTracks(worlds: seq<World>, steps: seq<Step>, i: nat)
    requires IsRun(worlds, steps) && i < |worlds|
    ensures TracksDeletions(worlds[i], DeletedBy(worlds, steps, i))
  {
    if i > 0 {
      RunTracks(worlds, steps, i - 1);
      NextTracks(worlds, steps, i - 1);
    } else {
      FirstTracks(worlds, steps);
    }
  }

  // ---------------------------------------------------------------- the loss

  /** A cleanup has deleted a candidate, and for one of its records the operation wrote the only archived
      fact that anything maps. */
  ghost predicate DependsOnIt(gone: Gone, lib: Library, id: OperationId, c: Candidate, k: FactKey)
    requires id in lib.operations
  {
    && c in lib.operations[id].candidates && c.task in gone && Promise(c, k).Some?
    && k in CreatedBy(lib, id) && !IsMapped(Abort(lib, id).operations, k)
  }

  lemma LossIsDependence(w: World, gone: Gone, id: OperationId)
    requires IsPrepared(w.library, id) && Corresponds(w, gone, id)
    ensures (exists k, p :: (k, p) in w.removed && k in CreatedBy(w.library, id) && !IsMapped(Abort(w.library, id).operations, k))
            <==> (exists c, k :: DependsOnIt(gone, w.library, id, c, k))
  {
    if k, p :| (k, p) in w.removed && k in CreatedBy(w.library, id) && !IsMapped(Abort(w.library, id).operations, k) {
      assert HasGone(w, gone, id, k);
      var c :| c in w.library.operations[id].candidates && c.task in gone && Promise(c, k).Some?;
      assert DependsOnIt(gone, w.library, id, c, k);
    }
    if c, k :| DependsOnIt(gone, w.library, id, c, k) {
      assert IsAccountedFor(w, gone, c);
      var p :| (k, p) in w.removed;
    }
  }

  lemma WriterLosesExactly(before: World, gone: Gone, id: OperationId, tasks: Tasks)
    requires Inv(before) && TracksDeletions(before, gone) && IsPrepared(before.library, id)
    ensures var w := before.(tasks := tasks);
            Archived(Settled(w, id)) <==>
              CanApply(w, id, true) || forall c, k :: !DependsOnIt(gone, w.library, id, c, k)
  {
    var w := before.(tasks := tasks);
    KeptCorresponds(before, w, gone, id);
    assert Archived(w);
    LossIsDependence(w, gone, id);
    RecoveryKeepsArchiveExactly(w, id);
  }

  lemma StateAndDeleted(worlds: seq<World>, steps: seq<Step>, i: nat) returns (w: World, gone: Gone)
    requires IsRun(worlds, steps) && i < |worlds|
    ensures w == worlds[i] && gone == DeletedBy(worlds, steps, i) && Inv(w) && TracksDeletions(w, gone)
  {
    w, gone := worlds[i], DeletedBy(worlds, steps, i);
    NothingIsLost(worlds, steps, i);
    RunTracks(worlds, steps, i);
  }

  /** Any task writer runs in any state of a run, torn commit or not, with no recovery before it.  The recovery
      after it then loses a record exactly if the remaining candidates can no longer be deleted and some
      candidate that a cleanup has deleted depends on this operation's facts alone. */
  lemma LosesExactly(worlds: seq<World>, steps: seq<Step>, i: nat, id: OperationId, tasks: Tasks)
    requires IsRun(worlds, steps) && i < |worlds| && IsPrepared(worlds[i].library, id)
    ensures var w := worlds[i].(tasks := tasks);
            Archived(Settled(w, id)) <==>
              CanApply(w, id, true) || forall c, k :: !DependsOnIt(DeletedBy(worlds, steps, i), w.library, id, c, k)
  {
    var w, gone := StateAndDeleted(worlds, steps, i);
    WriterLosesExactly(w, gone, id, tasks);
  }

  // ---------------------------------------------------------------- the loss, read off the tables

  ghost predicate KeepsTasks(before: Tasks, after: Tasks) {
    forall t | Present(before, t) :: Present(after, t)
  }

  /** No task writer has deleted a task in the first `i` steps. */
  ghost predicate WritersKeepTasks(worlds: seq<World>, steps: seq<Step>, i: nat)
    requires i <= |steps| < |worlds|
  {
    forall j | 0 <= j < i && steps[j].Write? :: KeepsTasks(worlds[j].tasks, steps[j].tasks)
  }

  ghost predicate AreThere(tasks: Tasks, gone: Gone, candidates: seq<Candidate>) {
    forall c | c in candidates :: Present(tasks, c.task) || c.task in gone
  }

  /** Whatever is missing of the operations in progress, a cleanup has deleted it. */
  ghost predicate OnlyCleanupsDelete(w: World, gone: Gone) {
    && (forall id | IsPrepared(w.library, id) :: AreThere(w.tasks, gone, w.library.operations[id].candidates))
    && (w.process.Holding? ==> AreThere(w.tasks, gone, CandidatesOf(w.process.items)))
  }

  lemma AppliedRemovesOnly(w: World, id: OperationId, e: Effect, process: Process, gone: Gone, more: Gone)
    requires id in w.library.operations && AreThere(w.tasks, gone, w.library.operations[id].candidates)
    requires more == gone + (iset t | t in Reached(e, Chosen(w, id)))
    ensures AreThere(Applied(w, id, e, process).tasks, more, w.library.operations[id].candidates)
  {
    DeleteRemovesExactly(w.tasks, Reached(e, Chosen(w, id)));
  }

  lemma ApplyStepRemovesOnly(w: World, step: Step, gone: Gone)
    requires Inv(w) && Enabled(w, step) && IsApply(step) && OnlyCleanupsDelete(w, gone)
    ensures OnlyCleanupsDelete(After(w, step), gone + DeletedIn(w, step))
  {
    ApplyIsApplied(w, step);
    AppliedToPrepared(w, step);
    NotHoldingAfterApply(w, step);
    var id, after, more := AppliedId(w, step), After(w, step), gone + DeletedIn(w, step);
    AppliedRemovesOnly(w, id, EffectOfStep(step), after.process, gone, more);
    forall o | IsPrepared(after.library, o) ensures o == id {
      SameOperation(w.library, o, id);
    }
  }

  lemma KeptTasksAreThere(w: World, after: World, gone: Gone)
    requires OnlyCleanupsDelete(w, gone) && after.library == w.library && KeepsTasks(w.tasks, after.tasks)
    requires after.process.Holding? ==> AreThere(after.tasks, gone, CandidatesOf(after.process.items))
    ensures OnlyCleanupsDelete(after, gone)
  {
    forall id | IsPrepared(after.library, id) ensures AreThere(after.tasks, gone, after.library.operations[id].candidates) {
      assert AreThere(w.tasks, gone, w.library.operations[id].candidates);
    }
  }

  lemma StoredAreThere(w: World, now: Time, gone: Gone)
    requires Inv(w) && w.process.Holding? && OnlyCleanupsDelete(w, gone)
    ensures OnlyCleanupsDelete(After(w, PrepareHeld(now)), gone)
  {
    var id, items := w.process.id, w.process.items;
    var after := After(w, PrepareHeld(now));
    StepKeepsInv(w, PrepareHeld(now));
    if Prepare(w.library, id, items, now).Ok? {
      forall o | IsPrepared(after.library, o) ensures o == id {
        SameOperation(after.library, o, id);
      }
    } else {
      KeptTasksAreThere(w, after, gone);
    }
  }

  /** An abort leaves nothing prepared, and so does a completion that is not refused. */
  lemma AbortedAreThere(w: World, id: OperationId, process: Process, gone: Gone)
    requires LibraryValid(w.library) && IsPrepared(w.library, id) && !process.Holding?
    ensures OnlyCleanupsDelete(Aborted(w, id, process), gone)
  {
    AbortKeepsLibraryValid(w.library, id);
    assert forall o :: !IsPrepared(Abort(w.library, id), o);
  }

  lemma CompletedAreThere(w: World, id: OperationId, digest: OperationDigest, now: Time, process: Process, gone: Gone)
    requires LibraryValid(w.library) && IsPrepared(w.library, id) && !process.Holding? && OnlyCleanupsDelete(w, gone)
    ensures OnlyCleanupsDelete(HistoryRuns.Completed(w, id, digest, now, process, Idle), gone)
  {
    if Complete(w.library, id, digest, now).Ok? {
      CompleteSettles(w.library, id, digest, now);
      assert forall o :: !IsPrepared(Complete(w.library, id, digest, now).value, o);
    } else {
      KeptTasksAreThere(w, w.(process := Idle), gone);
    }
  }

  lemma SettlingStepAreThere(w: World, step: Step, gone: Gone)
    requires Inv(w) && Enabled(w, step) && TouchesLibrary(step) && !step.PrepareHeld? && OnlyCleanupsDelete(w, gone)
    ensures OnlyCleanupsDelete(After(w, step), gone)
  {
    match step
    case FaultAfterPrepare => AbortedAreThere(w, w.process.id, Idle, gone);
    case AbortHarmless => AbortedAreThere(w, w.process.id, Idle, gone);
    case AbortConflicted => AbortedAreThere(w, w.process.id, Recovering(w.process.todo), gone);
    case CompleteRecovered(now) =>
      CompletedAreThere(w, w.process.id, w.process.digest, now, Recovering(w.process.todo), gone);
    case CompleteDeleted(now) => CompletedAreThere(w, w.process.id, w.process.digest, now, Idle, gone);
  }

  lemma {:induction false} CollectedAreThere(w: World, step: Step, gone: Gone)
    requires Enabled(w, step) && step.Collect?
    ensures AreThere(w.tasks, gone, CandidatesOf(step.items))
  {
    forall c | c in CandidatesOf(step.items) ensures Present(w.tasks, c.task) {
      var i :| 0 <= i < |step.items| && CandidatesOf(step.items)[i] == c;
      assert Refresh(w.tasks, step.items[i].candidate).Fresh?;
    }
  }

  lemma OtherStepKeepsTasks(w: World, step: Step)
    requires Enabled(w, step) && !IsApply(step) && !TouchesLibrary(step) && !step.Collect?
    requires step.Write? ==> KeepsTasks(w.tasks, step.tasks)
    ensures KeepsTasks(w.tasks, After(w, step).tasks)
    ensures After(w, step).process.Holding? ==> After(w, step).process == w.process
  {
  }

  lemma OtherStepAreThere(w: World, step: Step, gone: Gone)
    requires Inv(w) && Enabled(w, step) && !IsApply(step) && !TouchesLibrary(step) && OnlyCleanupsDelete(w, gone)
    requires step.Write? ==> KeepsTasks(w.tasks, step.tasks)
    ensures OnlyCleanupsDelete(After(w, step), gone)
  {
    LibraryStays(w, step);
    if step.Collect? {
      CollectedAreThere(w, step, gone);
    } else {
      OtherStepKeepsTasks(w, step);
    }
    KeptTasksAreThere(w, After(w, step), gone);
  }

  lemma StepDeletesOnly(w: World, step: Step, gone: Gone)
    requires Inv(w) && Enabled(w, step) && OnlyCleanupsDelete(w, gone)
    requires step.Write? ==> KeepsTasks(w.tasks, step.tasks)
    ensures OnlyCleanupsDelete(After(w, step), gone + DeletedIn(w, step))
  {
    if IsApply(step) {
      ApplyStepRemovesOnly(w, step, gone);
    } else {
      assert gone + DeletedIn(w, step) == gone;
      if step.PrepareHeld? {
        StoredAreThere(w, step.now, gone);
      } else if TouchesLibrary(step) {
        SettlingStepAreThere(w, step, gone);
      } else {
        OtherStepAreThere(w, step, gone);
      }
    }
  }

  lemma FirstDeletesOnly(worlds: seq<World>, steps: seq<Step>)
    requires IsRun(worlds, steps)
    ensures OnlyCleanupsDelete(worlds[0], DeletedBy(worlds, steps, 0))
  {
    assert forall o :: !IsPrepared(worlds[0].library, o);
  }

  lemma NextDeletesOnly(worlds: seq<World>, steps: seq<Step>, i: nat)
    requires IsRun(worlds, steps) && i < |steps| && OnlyCleanupsDelete(worlds[i], DeletedBy(worlds, steps, i))
    requires steps[i].Write? ==> KeepsTasks(worlds[i].tasks, steps[i].tasks)
    ensures OnlyCleanupsDelete(worlds[i + 1], DeletedBy(worlds, steps, i + 1))
  {
    DeletedOneMore(worlds, steps, i);
    StepDeletesOnly(worlds[i], steps[i], DeletedBy(worlds, steps, i));
  }

  ghost function DeletedOnly(worlds: seq<World>, steps: seq<Step>): (r: seq<bool>)
    requires IsRun(worlds, steps)
    ensures |r| == |worlds|
    ensures forall k {:trigger r[k]} | 0 <= k < |r| :: r[k] == OnlyCleanupsDelete(worlds[k], DeletedBy(worlds, steps, k))
  {
    seq(|worlds|, k requires 0 <= k < |worlds| => OnlyCleanupsDelete(worlds[k], DeletedBy(worlds, steps, k)))
  }

  ghost function Kept(worlds: seq<World>, steps: seq<Step>): (r: seq<bool>)
    requires |steps| < |worlds|
    ensures |r| == |worlds|
    ensures forall k {:trigger r[k]} | 0 <= k < |steps| :: r[k] == (steps[k].Write? ==> KeepsTasks(worlds[k].tasks, steps[k].tasks))
  {
    seq(|worlds|, k requires 0 <= k < |worlds| => k < |steps| && steps[k].Write? ==> KeepsTasks(worlds[k].tasks, steps[k].tasks))
  }

  lemma DeletedOnlyGoesOn(worlds: seq<World>, steps: seq<Step>) returns (holds: seq<bool>, kept: seq<bool>)
    requires IsRun(worlds, steps)
    ensures holds == DeletedOnly(worlds, steps) && kept == Kept(worlds, steps) && holds[0]
    ensures forall k | 0 <= k < |holds| - 1 :: GoesOnAt(holds, kept, k)
  {
    holds, kept := DeletedOnly(worlds, steps), Kept(worlds, steps);
    FirstDeletesOnly(worlds, steps);
    forall k | 0 <= k < |holds| - 1 ensures GoesOnAt(holds, kept, k) {
      if holds[k] && kept[k] {
        NextDeletesOnly(worlds, steps, k);
      }
    }
  }

  lemma {:induction false} RunDeletesOnly(worlds: seq<World>, steps: seq<Step>, i: nat)
    requires IsRun(worlds, steps) && i < |worlds| && WritersKeepTasks(worlds, steps, i)
    ensures OnlyCleanupsDelete(worlds[i], DeletedBy(worlds, steps, i))
  {
    var holds, kept := DeletedOnlyGoesOn(worlds, steps);
    HoldsOn(holds, kept, 0, i);
  }

  ghost function MissingFrom(tasks: Tasks): Gone {
    iset t | !Present(tasks, t)
  }

  lemma MissingAreDeleted(w: World, gone: Gone, id: OperationId, tasks: Tasks)
    requires TracksDeletions(w, gone) && OnlyCleanupsDelete(w, gone) && IsPrepared(w.library, id)
    requires KeepsTasks(w.tasks, tasks) && forall t | t in w.retired :: !Present(tasks, t)
    ensures forall c, k :: DependsOnIt(gone, w.library, id, c, k) <==> DependsOnIt(MissingFrom(tasks), w.library, id, c, k)
  {
    forall c | c in w.library.operations[id].candidates ensures c.task in gone <==> !Present(tasks, c.task) {
      assert AreThere(w.tasks, gone, w.library.operations[id].candidates);
    }
  }

  /** If no task writer deletes a task, the same is read off the tables alone: a candidate that is not there
      has been deleted by a cleanup. */
  lemma LosesExactlyInTables(worlds: seq<World>, steps: seq<Step>, i: nat, id: OperationId, tasks: Tasks)
    requires IsRun(worlds, steps) && i < |worlds| && WritersKeepTasks(worlds, steps, i)
    requires IsPrepared(worlds[i].library, id)
    requires KeepsTasks(worlds[i].tasks, tasks) && forall t | t in worlds[i].retired :: !Present(tasks, t)
    ensures var w := worlds[i].(tasks := tasks);
            Archived(Settled(w, id)) <==>
              CanApply(w, id, true) || forall c, k :: !DependsOnIt(MissingFrom(tasks), w.library, id, c, k)
  {
    LosesExactly(worlds, steps, i, id, tasks);
    RunTracks(worlds, steps, i);
    RunDeletesOnly(worlds, steps, i);
    MissingAreDeleted(worlds[i], DeletedBy(worlds, steps, i), id, tasks);
  }

  // ---------------------------------------------------------------- a run that gets there

  /** What is collected for a pair. */
  function ItemsOf(p: Pair): (items: seq<PreparedItem>)
    ensures |items| == 2
  {
    [PreparedItem(p.Candidates()[0], map[WebKey(p.a) := p.WebRecord()]),
     PreparedItem(p.Candidates()[1], map[MetaKey(p.m) := p.MetaRecord()])]
  }

  lemma TwoItems(items: seq<PreparedItem>, first: PreparedItem, second: PreparedItem)
    requires items == [first, second]
    ensures Keys(items) == first.records.Keys + second.records.Keys
    ensures FactCount(items) == |first.records| + |second.records|
    ensures CandidatesOf(items) == [first.candidate, second.candidate]
  {
    assert items[..1] == [first] && [first][..0] == [];
    assert Keys([first]) == Keys([]) + first.records.Keys;
    assert FactCount([first]) == FactCount([]) + |first.records|;
    assert CandidatesOf([first]) == CandidatesOf([]) + [first.candidate];
  }

  lemma PairIsPlaced(p: Pair, items: seq<PreparedItem>)
    requires items == ItemsOf(p)
    ensures Placements(items) == map[WebKey(p.a) := Placed(0, p.WebRecord()), MetaKey(p.m) := Placed(1, p.MetaRecord())]
    ensures FactCount(items) == 2 && Unambiguous(items) && CandidatesOf(items) == p.Candidates()
  {
    TwoItems(items, items[0], items[1]);
    assert Unambiguous(items);
    PlacedByItsItem(items, 0, WebKey(p.a));
    PlacedByItsItem(items, 1, MetaKey(p.m));
  }

  lemma PairIsNew(p: Pair, placements: map<FactKey, Placed>, nothing: map<FactKey, Fact>)
    requires placements == map[WebKey(p.a) := Placed(0, p.WebRecord()), MetaKey(p.m) := Placed(1, p.MetaRecord())]
    requires nothing == map[]
    ensures WithFacts(nothing, placements, 0.0) == p.Facts()
    ensures NewMappings(nothing, placements) == p.Mappings()
    ensures FactsAgree(nothing, placements)
  {
  }

  lemma PairIsPrepared(p: Pair, items: seq<PreparedItem>, nothing: Library)
    requires items == ItemsOf(p) && nothing == Library(map[], map[])
    ensures Prepare(nothing, 0, items, 0.0) == Ok(p.World().library)
  {
    PairIsPlaced(p, items);
    PairIsNew(p, Placements(items), nothing.facts);
    assert !HasPrepared(nothing);
    assert NewOperation(nothing.facts, items, 0.0) == p.Operation();
  }

  lemma PairIsCollected(p: Pair, idle: World, items: seq<PreparedItem>)
    requires p.Valid() && items == ItemsOf(p)
    requires idle.tasks == p.Tasks() && idle.process.Idle?
    ensures Enabled(idle, Collect(0, items))
  {
    PairCanBeDeleted(p);
    TwoItems(items, items[0], items[1]);
    forall i | 0 <= i < 2 ensures Refresh(idle.tasks, items[i].candidate).Fresh? && MadeFrom(items[i], idle.tasks.codes) {
      assert p.Candidates()[i] in p.Candidates();
    }
    assert TaskSet(CandidatesOf(items)) == {WebTask(p.a), MetaTask(p.m)} by {
      assert CandidatesOf(items)[0].task == WebTask(p.a) && CandidatesOf(items)[1].task == MetaTask(p.m);
    }
    PairIsClosed(p);
  }

  lemma PairIsPreparedNext(p: Pair, items: seq<PreparedItem>, held: World)
    requires items == ItemsOf(p)
    requires held == HistoryRuns.World(p.Tasks(), Library(map[], map[]), Holding(0, items), false, iset{}, iset{})
    ensures Enabled(held, PrepareHeld(0.0)) && After(held, PrepareHeld(0.0)) == p.World()
  {
    PairIsPrepared(p, items, held.library);
  }

  lemma PairIsHeld(p: Pair, items: seq<PreparedItem>, start: World) returns (worlds: seq<World>, steps: seq<Step>)
    requires p.Valid() && items == ItemsOf(p)
    requires start == HistoryRuns.World(p.Tasks(), Library(map[], map[]), Down, false, iset{}, iset{})
    ensures IsRun(worlds, steps) && worlds[|steps|] == start.(process := Holding(0, items))
  {
    worlds, steps := StartupIsRun(start);
    PairIsCollected(p, start.(process := Idle), items);
    worlds, steps := RunGoesOn(worlds, steps, Collect(0, items));
  }

  /** Every pair of a finished download and its finished metadata job comes to be prepared in some run. */
  lemma PairIsReachable(p: Pair) returns (worlds: seq<World>, steps: seq<Step>)
    requires p.Valid()
    ensures IsRun(worlds, steps) && worlds[|steps|] == p.World()
  {
    var start := HistoryRuns.World(p.Tasks(), Library(map[], map[]), Down, false, iset{}, iset{});
    worlds, steps := PairIsHeld(p, ItemsOf(p), start);
    PairIsPreparedNext(p, ItemsOf(p), start.(process := Holding(0, ItemsOf(p))));
    worlds, steps := RunGoesOn(worlds, steps, PrepareHeld(0.0));
  }

  /** And the torn commit is one step further. */
  lemma TornIsReachable(p: Pair, torn: World) returns (worlds: seq<World>, steps: seq<Step>)
    requires p.Valid() && TornFrom(p, torn)
    ensures IsRun(worlds, steps) && worlds[|steps|] == torn && torn.torn
  {
    var before, done := PairIsReachable(p);
    TornIsAStep(p, torn);
    TearingThePair(p, torn);
    worlds, steps := RunGoesOn(before, done, ApplyCommitFails(WebFileOnly, true));
  }
}

/**
 * What whole runs of the history cleanup come to: an aborted operation leaves the library as it was
 * before it, a committed deletion leaves nothing that refers to what it deleted, and a completed one stays done
 * (jav_pilot/history/cleanup.py:176-318, 361-428, 721-747, 829-879).
 */
module HistoryOutcomes {
  import opened Collections
  import opened HistoryState
  import opened HistoryCleanup
  import opened HistoryRuns
  import opened HistorySettlement

  // ---------------------------------------------------------------- an aborted operation

  /** What a step does to the library while an operation is prepared: nothing, or settling it. */
  ghost predicate SettlesOrLeaves(before: Library, after: Library, id: OperationId) {
    || after == before
    || after == Abort(before, id)
    || (id in after.operations && after.operations[id].status.Completed?)
  }

  lemma CompletionSettles(w: World, id: OperationId, digest: OperationDigest, now: Time)
    requires LibraryValid(w.library) && IsPrepared(w.library, id)
    ensures match Complete(w.library, id, digest, now)
            case Ok(after) => SettlesOrLeaves(w.library, after, id)
            case Err(_) => true
  {
    if Complete(w.library, id, digest, now).Ok? {
      CompleteSettles(w.library, id, digest, now);
    }
  }

  lemma StepSettlesOrLeaves(w: World, step: Step, id: OperationId)
    requires Inv(w) && Enabled(w, step) && IsPrepared(w.library, id)
    ensures SettlesOrLeaves(w.library, After(w, step).library, id)
  {
    match step
    case PrepareHeld(now) => PreparingIsRefused(w.library, id, w.process.id, w.process.items, now);
    case FaultAfterPrepare => SameOperation(w.library, id, w.process.id);
    case AbortHarmless => SameOperation(w.library, id, w.process.id);
    case AbortConflicted => SameOperation(w.library, id, w.process.id);
    case CompleteRecovered(now) =>
      SameOperation(w.library, id, w.process.id);
      CompletionSettles(w, id, w.process.digest, now);
    case CompleteDeleted(now) =>
      SameOperation(w.library, id, w.process.id);
      CompletionSettles(w, id, w.process.digest, now);
    case _ =>
  }

  /** The operation `id` is prepared in the step `i` of the run. */
  ghost predicate IsPreparedBy(worlds: seq<World>, steps: seq<Step>, i: nat, id: OperationId)
    requires i < |steps| && |worlds| == |steps| + 1
  {
    && steps[i].PrepareHeld? && worlds[i].process.Holding? && worlds[i].process.id == id
    && Prepare(worlds[i].library, id, worlds[i].process.items, steps[i].now) == Ok(worlds[i + 1].library)
  }

  lemma RunSettlesOrLeaves(worlds: seq<World>, steps: seq<Step>, i: nat, id: OperationId)
    requires IsRun(worlds, steps) && i < |steps| && IsPrepared(worlds[i].library, id)
    ensures LibraryValid(worlds[i].library) && SettlesOrLeaves(worlds[i].library, worlds[i + 1].library, id)
  {
    RunStep(worlds, steps, i);
    StepSettlesOrLeaves(worlds[i], steps[i], id);
  }

  lemma StillPreparedMeansLeft(before: Library, after: Library, id: OperationId)
    requires SettlesOrLeaves(before, after, id) && IsPrepared(before, id) && IsPrepared(after, id)
    ensures after == before
  {
    assert id !in Abort(before, id).operations;
  }

  ghost predicate SettlesAt(libraries: seq<Library>, k: nat, id: OperationId)
    requires k + 1 < |libraries|
  {
    SettlesOrLeaves(libraries[k], libraries[k + 1], id)
  }

  lemma {:induction false} LibraryRests(libraries: seq<Library>, i: nat, j: nat, id: OperationId)
    requires i <= j < |libraries| && forall k | i <= k <= j :: IsPrepared(libraries[k], id)
    requires forall k | i <= k < j :: SettlesAt(libraries, k, id)
    ensures libraries[j] == libraries[i]
  {
    if i < j {
      LibraryRests(libraries, i, j - 1, id);
      assert SettlesAt(libraries, j - 1, id);
      StillPreparedMeansLeft(libraries[j - 1], libraries[j], id);
    }
  }

  function LibrariesOf(worlds: seq<World>): (r: seq<Library>)
    ensures |r| == |worlds| && forall i {:trigger r[i]} | 0 <= i < |r| :: r[i] == worlds[i].library
  {
    seq(|worlds|, i requires 0 <= i < |worlds| => worlds[i].library)
  }

  lemma RestsWhilePrepared(worlds: seq<World>, steps: seq<Step>, a: nat, j: nat, id: OperationId)
    requires IsRun(worlds, steps) && a <= j < |worlds| && forall k | a <= k <= j :: IsPrepared(worlds[k].library, id)
    ensures worlds[j].library == worlds[a].library
  {
    var libraries := LibrariesOf(worlds);
    forall k | a <= k < j ensures SettlesAt(libraries, k, id) {
      RunSettlesOrLeaves(worlds, steps, k, id);
    }
    forall k | a <= k <= j ensures IsPrepared(libraries[k], id) {
      assert IsPrepared(worlds[k].library, id);
    }
    LibraryRests(libraries, a, j, id);
  }

  lemma GoneMeansAborted(worlds: seq<World>, steps: seq<Step>, j: nat, id: OperationId)
    requires IsRun(worlds, steps) && j < |steps| && IsPrepared(worlds[j].library, id)
    requires id !in worlds[j + 1].library.operations
    ensures worlds[j + 1].library == Abort(worlds[j].library, id)
  {
    RunSettlesOrLeaves(worlds, steps, j, id);
  }

  lemma AbortedAfterRest(worlds: seq<World>, steps: seq<Step>, i: nat, j: nat, id: OperationId)
    requires IsRun(worlds, steps) && i < j < |steps|
    requires forall k | i < k <= j :: IsPrepared(worlds[k].library, id)
    requires id !in worlds[j + 1].library.operations
    ensures worlds[j + 1].library == Abort(worlds[i + 1].library, id)
  {
    RestsWhilePrepared(worlds, steps, i + 1, j, id);
    GoneMeansAborted(worlds, steps, j, id);
  }

  lemma AbortUndoesStep(worlds: seq<World>, steps: seq<Step>, i: nat, id: OperationId)
    requires IsRun(worlds, steps) && i < |steps| && IsPreparedBy(worlds, steps, i, id)
    ensures Abort(worlds[i + 1].library, id) == worlds[i].library
  {
    RunStep(worlds, steps, i);
    AbortUndoesPrepare(worlds[i].library, id, worlds[i].process.items, steps[i].now);
  }

  /** All or nothing over every run: when a prepared operation is gone from the library, whatever step
      took it away, crash and recovery in between or not, the library is exactly the one from before
      the operation was prepared. */
  lemma AbortedLeavesNoTrace(worlds: seq<World>, steps: seq<Step>, i: nat, j: nat, id: OperationId)
    requires IsRun(worlds, steps) && i < j < |steps| && IsPreparedBy(worlds, steps, i, id)
    requires forall k | i < k <= j :: IsPrepared(worlds[k].library, id)
    requires id !in worlds[j + 1].library.operations
    ensures worlds[j + 1].library == worlds[i].library
  {
    AbortedAfterRest(worlds, steps, i, j, id);
    AbortUndoesStep(worlds, steps, i, id);
  }

  // ---------------------------------------------------------------- a committed deletion

  /** Nothing that is left refers to one of the downloads in `gone`. */
  ghost predicate NothingRefersTo(tasks: Tasks, gone: set<TaskId>) {
    && (forall b, p | b in tasks.batches && p in tasks.batches[b].items ::
          tasks.batches[b].items[p].job.Some? ==> WebTask(tasks.batches[b].items[p].job.value) !in gone)
    && (forall m | m in tasks.meta :: tasks.meta[m].download.Some? ==> WebTask(tasks.meta[m].download.value) !in gone)
  }

  predicate IsCommit(step: Step) {
    step.ApplyCommits? || step.RecoveryCommits?
  }

  /** The candidates of the operation have gone, and nothing that is left refers to what was chosen. */
  ghost predicate IsWhole(w: World, id: OperationId, after: Tasks)
    requires id in w.library.operations
  {
    && NothingRefersTo(after, Chosen(w, id))
    && forall c | c in w.library.operations[id].candidates :: !Present(after, c.task)
  }

  lemma WholeDeletion(w: World, id: OperationId)
    requires CanApply(w, id, true)
    ensures IsWhole(w, id, Delete(w.tasks, Chosen(w, id)))
  {
    ClosedDeleteLeavesNoDanglingReference(w.tasks, Chosen(w, id));
    ForwardRemovesAll(w.tasks, w.library.operations[id].candidates);
  }

  lemma EverythingDeletesChosen(w: World, id: OperationId, process: Process)
    requires id in w.library.operations
    ensures Applied(w, id, Everything, process).tasks == Delete(w.tasks, Chosen(w, id))
  {
  }

  lemma CommitDeletesChosen(w: World, step: Step)
    requires Enabled(w, step) && IsCommit(step)
    ensures var id := AppliedId(w, step); CanApply(w, id, true) && After(w, step).tasks == Delete(w.tasks, Chosen(w, id))
  {
    ApplyIsApplied(w, step);
    EverythingDeletesChosen(w, AppliedId(w, step), After(w, step).process);
  }

  /** In every run: when a deletion has committed, in a cleanup or in recovery, each candidate is gone and
      no batch item and no web metadata job that is left refers to a download deleted with it. */
  lemma CommitLeavesNothingDangling(worlds: seq<World>, steps: seq<Step>, i: nat)
    requires IsRun(worlds, steps) && i < |steps| && IsCommit(steps[i])
    ensures IsStep(worlds, steps, i)
    ensures var id := AppliedId(worlds[i], steps[i]);
            id in worlds[i].library.operations && IsWhole(worlds[i], id, worlds[i + 1].tasks)
  {
    assert IsStep(worlds, steps, i);
    CommitDeletesChosen(worlds[i], steps[i]);
    WholeDeletion(worlds[i], AppliedId(worlds[i], steps[i]));
  }

  // ---------------------------------------------------------------- a deletion in several commits

  /** Only tasks in `chosen` still refer to the downloads that have gone since `start`. */
  ghost predicate LinksLeft(start: Tasks, tasks: Tasks, chosen: set<TaskId>) {
    forall x | Present(start, WebTask(x)) && !Present(tasks, WebTask(x)) :: LinksWithin(tasks, chosen, x)
  }

  lemma LinksRest(tasks: Tasks, chosen: set<TaskId>, gone: set<TaskId>, x: Id)
    requires LinksWithin(tasks, chosen, x)
    ensures LinksWithin(Delete(tasks, gone), chosen - gone, x)
  {
  }

  lemma DeletingLeavesLinks(start: Tasks, tasks: Tasks, chosen: set<TaskId>, gone: set<TaskId>)
    requires LinksLeft(start, tasks, chosen) && Closed(tasks, chosen) && gone <= chosen
    ensures LinksLeft(start, Delete(tasks, gone), chosen - gone)
  {
    DeleteRemovesExactly(tasks, gone);
    forall x | Present(start, WebTask(x)) && !Present(Delete(tasks, gone), WebTask(x))
      ensures LinksWithin(Delete(tasks, gone), chosen - gone, x)
    {
      assert WebTask(x) in gone ==> LinksWithin(tasks, chosen, x);
      LinksRest(tasks, chosen, gone, x);
    }
  }

  predicate IsAway(p: Process, id: OperationId) {
    || p.Down? || p.Idle? || p.Holding? || p == Recovering([]) || p == Recovering([id])
    || (p.Failed? && p.id == id && p.commitAttempted)
  }

  ghost predicate SomeAreGone(tasks: Tasks, candidates: seq<Candidate>) {
    exists c :: c in candidates && !Present(tasks, c.task)
  }

  /** Part of the candidates have gone since `start`, the rest can go, and the process is not about to do
      anything but recover. */
  ghost predicate IsHalfGone(w: World, id: OperationId, start: Tasks) {
    && w.torn && IsPrepared(w.library, id) && CanApply(w, id, true) && IsAway(w.process, id)
    && SomeAreGone(w.tasks, w.library.operations[id].candidates)
    && Chosen(w, id) != {} && LinksLeft(start, w.tasks, Chosen(w, id))
  }

  lemma ReachedAreChosen(e: Effect, chosen: set<TaskId>)
    ensures Reached(e, chosen) <= chosen
  {
  }

  lemma {:induction false} AppliedLeavesLinks(w: World, id: OperationId, e: Effect, process: Process, start: Tasks)
    requires CanApply(w, id, true) && LinksLeft(start, w.tasks, Chosen(w, id))
    ensures var after := Applied(w, id, e, process);
            && LinksLeft(start, after.tasks, Chosen(after, id))
            && CanApply(after, id, true) && Chosen(after, id) == Chosen(w, id) - Reached(e, Chosen(w, id))
  {
    ReachedAreChosen(e, Chosen(w, id));
    RestStillDeletable(w.tasks, w.library.operations[id].candidates, true, e);
    DeletingLeavesLinks(start, w.tasks, Chosen(w, id), Reached(e, Chosen(w, id)));
  }

  lemma {:induction false} GoneAreMissed(w: World, id: OperationId, e: Effect, process: Process)
    requires id in w.library.operations && Reached(e, Chosen(w, id)) != {}
    ensures SomeAreGone(Applied(w, id, e, process).tasks, w.library.operations[id].candidates)
  {
    var gone := Reached(e, Chosen(w, id));
    ReachedAreChosen(e, Chosen(w, id));
    DeleteRemovesExactly(w.tasks, gone);
    var t :| t in gone;
    var c :| c in StillThere(w.tasks, w.library.operations[id].candidates) && c.task == t;
    assert !Present(Applied(w, id, e, process).tasks, c.task);
  }

  lemma CommitCompletes(w: World, id: OperationId, e: Effect, process: Process, start: Tasks)
    requires CanApply(w, id, true) && LinksLeft(start, w.tasks, Chosen(w, id))
    requires Reached(e, Chosen(w, id)) == Chosen(w, id) != {}
    ensures var after := Applied(w, id, e, process); !after.torn && LinksLeft(start, after.tasks, {})
  {
    AppliedLeavesLinks(w, id, e, process, start);
    assert Chosen(w, id) - Reached(e, Chosen(w, id)) == {};
  }

  lemma SomethingIsLeft(gone: set<TaskId>, chosen: set<TaskId>)
    requires gone <= chosen && gone != chosen
    ensures chosen - gone != {}
  {
    var t :| t in chosen && t !in gone;
    assert t in chosen - gone;
  }

  lemma PartIsTorn(w: World, id: OperationId, e: Effect, process: Process)
    requires id in w.library.operations && Reached(e, Chosen(w, id)) != {} && Reached(e, Chosen(w, id)) != Chosen(w, id)
    ensures var after := Applied(w, id, e, process); after.torn && after.library == w.library && after.process == process
  {
  }

  lemma CommitLeavesHalf(w: World, id: OperationId, e: Effect, process: Process, start: Tasks)
    requires IsPrepared(w.library, id) && CanApply(w, id, true) && LinksLeft(start, w.tasks, Chosen(w, id))
    requires Reached(e, Chosen(w, id)) != {} && Reached(e, Chosen(w, id)) != Chosen(w, id) && IsAway(process, id)
    ensures IsHalfGone(Applied(w, id, e, process), id, start)
  {
    AppliedLeavesLinks(w, id, e, process, start);
    PartIsTorn(w, id, e, process);
    GoneAreMissed(w, id, e, process);
    ReachedAreChosen(e, Chosen(w, id));
    SomethingIsLeft(Reached(e, Chosen(w, id)), Chosen(w, id));
  }

  /** A commit that deletes something, the first one of a deletion or a later one, completes it or leaves it
      half done. */
  lemma CommitGoesOn(w: World, id: OperationId, e: Effect, process: Process, start: Tasks)
    requires IsPrepared(w.library, id) && CanApply(w, id, true) && LinksLeft(start, w.tasks, Chosen(w, id))
    requires Reached(e, Chosen(w, id)) != {} && (e.Everything? || IsAway(process, id))
    ensures var after := Applied(w, id, e, process);
            if after.torn then IsHalfGone(after, id, start) else LinksLeft(start, after.tasks, {})
  {
    var gone, chosen := Reached(e, Chosen(w, id)), Chosen(w, id);
    if gone == chosen {
      CommitCompletes(w, id, e, process, start);
    } else {
      CommitLeavesHalf(w, id, e, process, start);
    }
  }

  lemma AwayUnlessWhole(w: World, step: Step)
    requires Enabled(w, step) && IsApply(step)
    ensures EffectOfStep(step).Everything? || IsAway(After(w, step).process, AppliedId(w, step))
  {
  }

  lemma AppliedToPrepared(w: World, step: Step)
    requires Inv(w) && Enabled(w, step) && IsApply(step)
    ensures IsPrepared(w.library, AppliedId(w, step))
  {
  }

  lemma FirstCommit(w: World, step: Step, id: OperationId)
    requires Inv(w) && Enabled(w, step) && IsApply(step) && !w.torn && id == AppliedId(w, step)
    ensures var after := After(w, step);
            if after.torn then IsHalfGone(after, id, w.tasks) else LinksLeft(w.tasks, after.tasks, {})
  {
    ApplyIsApplied(w, step);
    AppliedToPrepared(w, step);
    AwayUnlessWhole(w, step);
    FirstApply(w, id, EffectOfStep(step), After(w, step).process);
  }

  lemma FirstApply(w: World, id: OperationId, e: Effect, process: Process)
    requires IsPrepared(w.library, id) && CanApply(w, id, true) && !w.torn && (e.Everything? || IsAway(process, id))
    ensures var after := Applied(w, id, e, process);
            if after.torn then IsHalfGone(after, id, w.tasks) else LinksLeft(w.tasks, after.tasks, {})
  {
    var gone := Reached(e, Chosen(w, id));
    if gone == {} {
      NothingGoneChangesNothing(w, id, e, process);
    } else {
      CommitGoesOn(w, id, e, process, w.tasks);
    }
  }

  lemma LaterCommit(w: World, step: Step, id: OperationId, start: Tasks)
    requires Inv(w) && Enabled(w, step) && IsApply(step) && IsHalfGone(w, id, start)
    ensures var after := After(w, step);
            if after.torn then IsHalfGone(after, id, start) else LinksLeft(start, after.tasks, {})
  {
    ApplyIsApplied(w, step);
    AwayUnlessWhole(w, step);
    assert AppliedId(w, step) == id;
    LaterApply(w, id, EffectOfStep(step), After(w, step).process, start);
  }

  lemma LaterApply(w: World, id: OperationId, e: Effect, process: Process, start: Tasks)
    requires IsHalfGone(w, id, start) && (e.Everything? || IsAway(process, id))
    ensures var after := Applied(w, id, e, process);
            if after.torn then IsHalfGone(after, id, start) else LinksLeft(start, after.tasks, {})
  {
    var gone, chosen := Reached(e, Chosen(w, id)), Chosen(w, id);
    if gone == {} {
      assert !e.Everything?;
      NothingGoneChangesNothing(w, id, e, process);
      SameTasksStayHalfGone(w, w.(process := process), id, start);
    } else {
      CommitGoesOn(w, id, e, process, start);
    }
  }

  /** Every other step waits for recovery. */
  lemma HalfGoneWaits(w: World, step: Step, id: OperationId, start: Tasks)
    requires Inv(w) && Enabled(w, step) && !IsApply(step) && IsHalfGone(w, id, start)
    ensures var after := After(w, step);
            after.tasks == w.tasks && after.library == w.library && after.torn && IsAway(after.process, id)
  {
    SomeGoneIsNotIntact(w, id);
    if step.PrepareHeld? {
      PreparingIsRefused(w.library, id, w.process.id, w.process.items, step.now);
    } else if step.BeginRecovery? {
      RecoversOnlyThis(w, step.todo, id);
    } else {
      AwayStaysAway(w, step, id);
    }
  }

  lemma AwayStaysAway(w: World, step: Step, id: OperationId)
    requires Enabled(w, step) && !IsApply(step) && !step.PrepareHeld? && !step.BeginRecovery?
    requires w.torn && IsAway(w.process, id) && CanApply(w, id, true) && !CanApply(w, id, false)
    ensures var after := After(w, step);
            after.tasks == w.tasks && after.library == w.library && after.torn && IsAway(after.process, id)
  {
  }

  lemma RecoversOnlyThis(w: World, todo: seq<OperationId>, id: OperationId)
    requires Inv(w) && Enabled(w, BeginRecovery(todo)) && IsPrepared(w.library, id)
    ensures todo == [id]
  {
    AtMostOneToRecover(w, todo);
    assert id in todo;
  }

  lemma SomeGoneIsNotIntact(w: World, id: OperationId)
    requires id in w.library.operations && SomeAreGone(w.tasks, w.library.operations[id].candidates)
    ensures !CanApply(w, id, false)
  {
    var c :| c in w.library.operations[id].candidates && !Present(w.tasks, c.task);
    assert Refresh(w.tasks, c).Missing?;
  }

  lemma SameTasksStayHalfGone(w: World, after: World, id: OperationId, start: Tasks)
    requires IsHalfGone(w, id, start)
    requires after.tasks == w.tasks && after.library == w.library && after.torn && IsAway(after.process, id)
    ensures IsHalfGone(after, id, start)
  {
    assert CanApply(after, id, true);
    assert Chosen(after, id) == Chosen(w, id);
  }

  lemma HalfGoneStep(w: World, step: Step, id: OperationId, start: Tasks)
    requires Inv(w) && Enabled(w, step) && IsHalfGone(w, id, start)
    ensures var after := After(w, step);
            if after.torn then IsHalfGone(after, id, start) else LinksLeft(start, after.tasks, {})
  {
    if IsApply(step) {
      LaterCommit(w, step, id, start);
    } else {
      HalfGoneWaits(w, step, id, start);
      SameTasksStayHalfGone(w, After(w, step), id, start);
    }
  }

  /** Half of the deletion that began from `start` is done, or all of it. */
  ghost predicate IsOnItsWay(w: World, id: OperationId, start: Tasks) {
    if w.torn then IsHalfGone(w, id, start) else LinksLeft(start, w.tasks, {})
  }

  lemma BeginsOnItsWay(worlds: seq<World>, steps: seq<Step>, a: nat) returns (id: OperationId)
    requires IsRun(worlds, steps) && a < |steps| && IsApply(steps[a]) && !worlds[a].torn
    ensures IsOnItsWay(worlds[a + 1], id, worlds[a].tasks)
  {
    RunStep(worlds, steps, a);
    id := AppliedId(worlds[a], steps[a]);
    FirstCommit(worlds[a], steps[a], id);
  }

  lemma GoesOnItsWay(worlds: seq<World>, steps: seq<Step>, k: nat, id: OperationId, start: Tasks)
    requires IsRun(worlds, steps) && k < |steps| && worlds[k].torn && IsOnItsWay(worlds[k], id, start)
    ensures IsOnItsWay(worlds[k + 1], id, start)
  {
    RunStep(worlds, steps, k);
    HalfGoneStep(worlds[k], steps[k], id, start);
  }

  predicate GoesOnAt(holds: seq<bool>, goesOn: seq<bool>, k: nat)
    requires k + 1 < |holds| == |goesOn|
  {
    holds[k] && goesOn[k] ==> holds[k + 1]
  }

  lemma {:induction false} HoldsOn(holds: seq<bool>, goesOn: seq<bool>, a: nat, j: nat)
    requires a <= j < |holds| == |goesOn| && holds[a] && forall k | a <= k < j :: goesOn[k]
    requires forall k | 0 <= k < |holds| - 1 :: GoesOnAt(holds, goesOn, k)
    ensures holds[j]
  {
    if a < j {
      HoldsOn(holds, goesOn, a, j - 1);
      assert GoesOnAt(holds, goesOn, j - 1);
    }
  }

  ghost function OnTheirWay(worlds: seq<World>, id: OperationId, start: Tasks): (r: seq<bool>)
    ensures |r| == |worlds| && forall k {:trigger r[k]} | 0 <= k < |r| :: r[k] == IsOnItsWay(worlds[k], id, start)
  {
    seq(|worlds|, k requires 0 <= k < |worlds| => IsOnItsWay(worlds[k], id, start))
  }

  function TornStates(worlds: seq<World>): (r: seq<bool>)
    ensures |r| == |worlds| && forall k {:trigger r[k]} | 0 <= k < |r| :: r[k] == worlds[k].torn
  {
    seq(|worlds|, k requires 0 <= k < |worlds| => worlds[k].torn)
  }

  lemma TornStatesGoOn(worlds: seq<World>, steps: seq<Step>, id: OperationId, start: Tasks, holds: seq<bool>, torn: seq<bool>)
    requires IsRun(worlds, steps) && holds == OnTheirWay(worlds, id, start) && torn == TornStates(worlds)
    ensures forall k | 0 <= k < |holds| - 1 :: GoesOnAt(holds, torn, k)
  {
    forall k | 0 <= k < |holds| - 1 ensures GoesOnAt(holds, torn, k) {
      if holds[k] && torn[k] {
        GoesOnItsWay(worlds, steps, k, id, start);
      }
    }
  }

  lemma BeginsToHold(worlds: seq<World>, steps: seq<Step>, a: nat) returns (id: OperationId, holds: seq<bool>)
    requires IsRun(worlds, steps) && a < |steps| && IsApply(steps[a]) && !worlds[a].torn
    ensures holds == OnTheirWay(worlds, id, worlds[a].tasks) && holds[a + 1]
  {
    id := BeginsOnItsWay(worlds, steps, a);
    holds := OnTheirWay(worlds, id, worlds[a].tasks);
  }

  /** Where no commit is torn, nothing is left that refers to what has gone. */
  ghost predicate WholeWhereUntorn(worlds: seq<World>, start: Tasks, holds: seq<bool>) {
    |holds| == |worlds| && forall k | 0 <= k < |holds| && holds[k] && !worlds[k].torn :: LinksLeft(start, worlds[k].tasks, {})
  }

  lemma OnTheirWayMeansWhole(worlds: seq<World>, id: OperationId, start: Tasks, holds: seq<bool>)
    requires holds == OnTheirWay(worlds, id, start)
    ensures WholeWhereUntorn(worlds, start, holds)
  {
    forall k | 0 <= k < |holds| && holds[k] && !worlds[k].torn ensures LinksLeft(start, worlds[k].tasks, {}) {
      assert IsOnItsWay(worlds[k], id, start);
    }
  }

  lemma WayOfDeletion(worlds: seq<World>, steps: seq<Step>, a: nat, torn: seq<bool>) returns (holds: seq<bool>)
    requires IsRun(worlds, steps) && a < |steps| && IsApply(steps[a]) && !worlds[a].torn && torn == TornStates(worlds)
    ensures WholeWhereUntorn(worlds, worlds[a].tasks, holds) && holds[a + 1]
    ensures forall k | 0 <= k < |holds| - 1 :: GoesOnAt(holds, torn, k)
  {
    var id;
    id, holds := BeginsToHold(worlds, steps, a);
    TornStatesGoOn(worlds, steps, id, worlds[a].tasks, holds, torn);
    OnTheirWayMeansWhole(worlds, id, worlds[a].tasks, holds);
  }

  /** In every run: a deletion begins with a commit in step `a`, stays torn for as long as it takes, and is
      complete after step `j`.  Then nothing that is left refers to a download that has gone since. */
  lemma DeletionLeavesNothingDangling(worlds: seq<World>, steps: seq<Step>, a: nat, j: nat)
    requires IsRun(worlds, steps) && a <= j < |steps| && IsApply(steps[a]) && !worlds[a].torn
    requires (forall k | a < k <= j :: worlds[k].torn) && !worlds[j + 1].torn
    ensures forall x | Present(worlds[a].tasks, WebTask(x)) && !Present(worlds[j + 1].tasks, WebTask(x)) ::
              NothingRefersTo(worlds[j + 1].tasks, {WebTask(x)})
  {
    var start, torn := worlds[a].tasks, TornStates(worlds);
    var holds := WayOfDeletion(worlds, steps, a, torn);
    HoldsOn(holds, torn, a + 1, j + 1);
    assert LinksLeft(start, worlds[j + 1].tasks, {});
    forall x | Present(start, WebTask(x)) && !Present(worlds[j + 1].tasks, WebTask(x))
      ensures NothingRefersTo(worlds[j + 1].tasks, {WebTask(x)})
    {
      NoLinksLeft(worlds[j + 1].tasks, x);
    }
  }

  lemma NoLinksLeft(tasks: Tasks, x: Id)
    requires LinksWithin(tasks, {}, x)
    ensures NothingRefersTo(tasks, {WebTask(x)})
  {
  }

  // ---------------------------------------------------------------- a completed operation

  ghost predicate IsUnderWay(w: World, id: OperationId, candidates: seq<Candidate>) {
    IsPrepared(w.library, id) && w.library.operations[id].candidates == candidates
  }

  ghost predicate IsDone(w: World, id: OperationId, candidates: seq<Candidate>) {
    && IsCompletedIn(w.library, id) && w.library.operations[id].candidates == candidates
    && forall c | c in candidates :: c.task in w.retired
  }

  /** An operation that stays in the ledger is under way, or done. */
  ghost predicate UnderWayOrDone(w: World, id: OperationId, candidates: seq<Candidate>) {
    IsUnderWay(w, id, candidates) || IsDone(w, id, candidates)
  }

  lemma CompletionIsDone(w: World, id: OperationId, digest: OperationDigest, now: Time, process: Process)
    requires Inv(w) && IsPrepared(w.library, id) && Finished(w, id)
    ensures UnderWayOrDone(HistoryRuns.Completed(w, id, digest, now, process, Idle), id, w.library.operations[id].candidates)
  {
    if Complete(w.library, id, digest, now).Ok? {
      CompleteSettles(w.library, id, digest, now);
    }
  }

  /** Completing another operation may drop this one from the ledger, but does not change it. */
  lemma OthersStay(lib: Library, other: OperationId, digest: OperationDigest, now: Time, id: OperationId)
    requires IsPrepared(lib, other) && id != other && id in lib.operations
    ensures match Complete(lib, other, digest, now)
            case Ok(after) => id in after.operations ==> after.operations[id] == lib.operations[id]
            case Err(_) => true
  {
  }

  lemma RetiredStays(w: World, step: Step)
    requires Enabled(w, step)
    ensures w.retired <= After(w, step).retired
  {
  }

  predicate TouchesLibrary(step: Step) {
    step.PrepareHeld? || step.FaultAfterPrepare? || step.AbortHarmless? || step.AbortConflicted?
    || step.CompleteRecovered? || step.CompleteDeleted?
  }

  lemma LibraryStays(w: World, step: Step)
    requires Enabled(w, step) && !TouchesLibrary(step)
    ensures After(w, step).library == w.library
  {
  }

  lemma AbortKeepsOthers(lib: Library, other: OperationId, id: OperationId)
    requires IsPrepared(lib, other) && IsCompletedIn(lib, id)
    ensures id in Abort(lib, other).operations && Abort(lib, other).operations[id] == lib.operations[id]
  {
  }

  lemma PrepareKeepsOthers(lib: Library, other: OperationId, items: seq<PreparedItem>, now: Time, id: OperationId)
    requires id in lib.operations
    ensures match Prepare(lib, other, items, now)
            case Ok(after) => id in after.operations && after.operations[id] == lib.operations[id]
            case Err(_) => true
  {
  }

  /** No step changes a completed operation; completing another one may drop it from the ledger. */
  lemma LedgerStays(w: World, step: Step, id: OperationId)
    requires Inv(w) && Enabled(w, step) && IsCompletedIn(w.library, id)
    requires id in After(w, step).library.operations
    ensures After(w, step).library.operations[id] == w.library.operations[id]
  {
    if TouchesLibrary(step) {
      TouchedLedgerStays(w, step, id);
    } else {
      LibraryStays(w, step);
    }
  }

  lemma TouchedLedgerStays(w: World, step: Step, id: OperationId)
    requires Inv(w) && Enabled(w, step) && IsCompletedIn(w.library, id) && TouchesLibrary(step)
    requires id in After(w, step).library.operations
    ensures After(w, step).library.operations[id] == w.library.operations[id]
  {
    match step
    case PrepareHeld(now) => PrepareKeepsOthers(w.library, w.process.id, w.process.items, now, id);
    case FaultAfterPrepare => AbortKeepsOthers(w.library, w.process.id, id);
    case AbortHarmless => AbortKeepsOthers(w.library, w.process.id, id);
    case AbortConflicted => AbortKeepsOthers(w.library, w.process.id, id);
    case CompleteRecovered(now) => OthersStay(w.library, w.process.id, w.process.digest, now, id);
    case CompleteDeleted(now) => OthersStay(w.library, w.process.id, w.process.digest, now, id);
  }

  lemma DoneStep(w: World, step: Step, id: OperationId, candidates: seq<Candidate>)
    requires Inv(w) && Enabled(w, step) && IsDone(w, id, candidates)
    requires id in After(w, step).library.operations
    ensures IsDone(After(w, step), id, candidates)
  {
    RetiredStays(w, step);
    LedgerStays(w, step, id);
  }

  lemma AbortDrops(lib: Library, other: OperationId, id: OperationId)
    requires LibraryValid(lib) && IsPrepared(lib, other) && IsPrepared(lib, id)
    ensures id !in Abort(lib, other).operations
  {
    SameOperation(lib, id, other);
  }

  lemma UnderWayStep(w: World, step: Step, id: OperationId, candidates: seq<Candidate>)
    requires Inv(w) && Enabled(w, step) && IsUnderWay(w, id, candidates)
    requires id in After(w, step).library.operations
    ensures UnderWayOrDone(After(w, step), id, candidates)
  {
    if TouchesLibrary(step) {
      TouchedUnderWay(w, step, id, candidates);
    } else {
      LibraryStays(w, step);
    }
  }

  lemma TouchedUnderWay(w: World, step: Step, id: OperationId, candidates: seq<Candidate>)
    requires Inv(w) && Enabled(w, step) && IsUnderWay(w, id, candidates) && TouchesLibrary(step)
    requires id in After(w, step).library.operations
    ensures UnderWayOrDone(After(w, step), id, candidates)
  {
    match step
    case PrepareHeld(now) => PreparingIsRefused(w.library, id, w.process.id, w.process.items, now);
    case FaultAfterPrepare => AbortDrops(w.library, w.process.id, id);
    case AbortHarmless => AbortDrops(w.library, w.process.id, id);
    case AbortConflicted => AbortDrops(w.library, w.process.id, id);
    case CompleteRecovered(now) =>
      SameOperation(w.library, id, w.process.id);
      CompletionIsDone(w, id, w.process.digest, now, Recovering(w.process.todo));
    case CompleteDeleted(now) =>
      SameOperation(w.library, id, w.process.id);
      CompletionIsDone(w, id, w.process.digest, now, Idle);
  }

  lemma StepTowardsDone(w: World, step: Step, id: OperationId, candidates: seq<Candidate>)
    requires Inv(w) && Enabled(w, step) && UnderWayOrDone(w, id, candidates)
    requires id in After(w, step).library.operations
    ensures UnderWayOrDone(After(w, step), id, candidates)
  {
    if IsDone(w, id, candidates) {
      DoneStep(w, step, id, candidates);
    } else {
      UnderWayStep(w, step, id, candidates);
    }
  }

  lemma RunStepTowardsDone(worlds: seq<World>, steps: seq<Step>, i: nat, id: OperationId, candidates: seq<Candidate>)
    requires IsRun(worlds, steps) && i < |steps| && UnderWayOrDone(worlds[i], id, candidates)
    requires id in worlds[i + 1].library.operations
    ensures UnderWayOrDone(worlds[i + 1], id, candidates)
  {
    RunStep(worlds, steps, i);
    StepTowardsDone(worlds[i], steps[i], id, candidates);
  }

  lemma {:induction false} RunTowardsDone(worlds: seq<World>, steps: seq<Step>, i: nat, j: nat, id: OperationId,
                                          candidates: seq<Candidate>)
    requires IsRun(worlds, steps) && i <= j < |worlds| && IsUnderWay(worlds[i], id, candidates)
    requires forall k | i <= k <= j :: id in worlds[k].library.operations
    ensures UnderWayOrDone(worlds[j], id, candidates)
  {
    if i < j {
      RunTowardsDone(worlds, steps, i, j - 1, id, candidates);
      RunStepTowardsDone(worlds, steps, j - 1, id, candidates);
    }
  }

  /** In every run: once an operation is completed, and for as long as the ledger lists it, none of the
      candidates it was prepared for is there, and each fact it maps is. */
  lemma CompletedStaysDone(worlds: seq<World>, steps: seq<Step>, i: nat, j: nat, id: OperationId)
    requires IsRun(worlds, steps) && i <= j < |worlds| && IsPrepared(worlds[i].library, id)
    requires forall k | i <= k <= j :: id in worlds[k].library.operations
    requires worlds[j].library.operations[id].status.Completed?
    ensures forall c | c in worlds[i].library.operations[id].candidates :: !Present(worlds[j].tasks, c.task)
    ensures forall k | k in worlds[j].library.operations[id].mappings :: k in worlds[j].library.facts
  {
    RunTowardsDone(worlds, steps, i, j, id, worlds[i].library.operations[id].candidates);
    NothingIsLost(worlds, steps, j);
  }
}

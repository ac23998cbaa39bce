/**
 * The cleanup service (jav_pilot/history/cleanup.py): an object over the three databases and the
 * previews in memory.  Its methods compute the functions the steps of HistoryRuns are made of, and no
 * call loses a record, whatever faults it meets.
 *
 * Faults are parameters: whether a transaction breaks before its commit, what a failing commit
 * leaves on disk, and whether a rollback is confirmed.  The identifier of an operation is the digest
 * of its preview token; here the token itself.
 */
module HistoryService {
  import opened Collections
  import opened HistoryState
  import opened HistoryCleanup
  import opened HistoryRuns
  import opened HistoryLifecycle
  import opened HistorySettlement
  import opened HistoryDisplayCodes
  import opened HistoryOutcomes
  import opened HistoryTables

  /** `matching` are the tasks whose rows still meet the criteria of the preview. */
  datatype Preview = Preview(candidates: seq<Candidate>, matching: set<TaskId>, expiresAt: Time)

  datatype Fault = NoFault | BeforeCommit | AtCommit(effect: Effect)

  /** `hook` is what the fault hooks around the transactions do. */
  datatype Faults = Faults(apply: Fault, rollback: bool, afterPrepare: bool, afterDelete: bool)

  predicate HasNoFault(faults: Faults) {
    faults.apply.NoFault? && !faults.afterPrepare && !faults.afterDelete
  }

  datatype Outcome =
    | Done(digest: OperationDigest)
    | Refused(conflict: bool, rolledBack: bool, commitAttempted: bool)

  datatype Failure = NotRecovered | NoPreview | PreviewExpired | NotPrepared(error: Error) | NotApplied | NotCompleted

  /** The candidate table has one row for a task of an operation. */
  ghost predicate DistinctLedger(lib: Library) {
    forall o | o in lib.operations :: DistinctTasks(lib.operations[o].candidates)
  }

  /** What has gone from `before` to `after` is archived. */
  ghost predicate NothingLost(before: Tasks, after: Tasks, facts: map<FactKey, Fact>) {
    forall t, k, p | Had(before, t, k, p) && !Present(after, t) ::
      k in facts && Pinned(facts[k].payload) == Pinned(p)
  }

  /** What has gone is archived as it was, display codes included. */
  ghost predicate NothingLostExactly(before: Tasks, after: Tasks, facts: map<FactKey, Fact>) {
    forall t, k, p | Had(before, t, k, p) && !Present(after, t) :: k in facts && facts[k].payload == p
  }

  /** The candidates of an operation have the display codes that are archived. */
  ghost predicate CodesAreCurrent(tasks: Tasks, lib: Library, id: OperationId) {
    id in lib.operations ==> CodesAgree(tasks, lib.facts, TaskSet(lib.operations[id].candidates))
  }

  ghost predicate AllCodesAreCurrent(tasks: Tasks, lib: Library) {
    forall id | IsPrepared(lib, id) :: CodesAreCurrent(tasks, lib, id)
  }

  /** A deletion is exact if and only if the codes agree. */
  lemma LostExactlyIfCodesAgree(before: Tasks, gone: set<TaskId>, facts: map<FactKey, Fact>)
    requires NothingLost(before, Delete(before, gone), facts)
    ensures NothingLostExactly(before, Delete(before, gone), facts) <==> CodesAgree(before, facts, gone)
  {
    DeleteRemovesExactly(before, gone);
    RecordsAreExact(before, facts, gone);
  }

  lemma FewerCodesAgree(tasks: Tasks, facts: map<FactKey, Fact>, gone: set<TaskId>, all: set<TaskId>)
    requires CodesAgree(tasks, facts, all) && gone <= all
    ensures CodesAgree(tasks, facts, gone)
  {
  }

  lemma DeletionLosesNothing(w: World, id: OperationId, allowMissing: bool, e: Effect)
    requires LibraryValid(w.library) && CanApply(w, id, allowMissing)
    ensures NothingLost(w.tasks, Delete(w.tasks, Reached(e, Chosen(w, id))), w.library.facts)
  {
    var fresh' := w.(removed := iset{});
    AppliedKeepsArchived(fresh', id, allowMissing, e, Idle);
    var gone := Reached(e, Chosen(w, id));
    DeleteRemovesExactly(w.tasks, gone);
    forall t, k, p | Had(w.tasks, t, k, p) && t in gone
      ensures (k, p) in Applied(fresh', id, e, Idle).removed
    {
    }
  }

  /** Applying the operation `id` in `w` ends like this. */
  ghost predicate AppliedAs(w: World, id: OperationId, allowMissing: bool, fault: Fault, rollback: bool,
                            after: Tasks, outcome: Outcome) {
    if !CanApply(w, id, allowMissing) then outcome == Refused(true, rollback, false) && after == w.tasks
    else
      && after == Delete(w.tasks, Reached(EffectOf(fault), Chosen(w, id)))
      && outcome == if fault.NoFault? then Done(w.library.operations[id].digest)
                    else Refused(false, rollback, fault.AtCommit?)
  }

  function EffectOf(fault: Fault): Effect {
    match fault
    case NoFault => Everything
    case BeforeCommit => Nothing
    case AtCommit(effect) => effect
  }

  /** However applying ends, it deletes some of the candidates and loses no record of them. */
  lemma AppliedLosesNothing(w: World, id: OperationId, allowMissing: bool, fault: Fault, rollback: bool,
                            after: Tasks, outcome: Outcome) returns (gone: set<TaskId>)
    requires LibraryValid(w.library) && AppliedAs(w, id, allowMissing, fault, rollback, after, outcome)
    ensures after == Delete(w.tasks, gone)
    ensures id in w.library.operations ==> gone <= TaskSet(w.library.operations[id].candidates)
    ensures outcome.Refused? && !outcome.commitAttempted ==> gone == {}
    ensures outcome.Refused? && outcome.commitAttempted ==> CanApply(w, id, allowMissing)
    ensures NothingLost(w.tasks, after, w.library.facts)
    ensures CodesAreCurrent(w.tasks, w.library, id) ==> NothingLostExactly(w.tasks, after, w.library.facts)
  {
    if CanApply(w, id, allowMissing) {
      gone := Reached(EffectOf(fault), Chosen(w, id));
      ChosenAreCandidates(w, id, EffectOf(fault));
      DeletionLosesNothing(w, id, allowMissing, EffectOf(fault));
      if CodesAreCurrent(w.tasks, w.library, id) {
        FewerCodesAgree(w.tasks, w.library.facts, gone, TaskSet(w.library.operations[id].candidates));
        LostExactlyIfCodesAgree(w.tasks, gone, w.library.facts);
      }
    } else {
      gone := {};
      DeletingNothing(w.tasks);
      NothingLostInPlace(w.tasks, w.library.facts);
    }
  }

  lemma DoneDeletesAll(w: World, id: OperationId, fault: Fault, rollback: bool, after: Tasks, outcome: Outcome)
    requires AppliedAs(w, id, false, fault, rollback, after, outcome) && outcome.Done?
    ensures after == Delete(w.tasks, Chosen(w, id)) && outcome.digest == w.library.operations[id].digest
  {
    assert Reached(EffectOf(fault), Chosen(w, id)) == Chosen(w, id);
  }

  /** An apply of recovery that succeeds, and then the completion, are the recovery. */
  lemma ForwardIsRecover(w: World, id: OperationId, fault: Fault, rollback: bool, after: Tasks, outcome: Outcome, now: Time)
    requires LibraryValid(w.library) && IsPrepared(w.library, id)
    requires AppliedAs(w, id, true, fault, rollback, after, outcome) && outcome.Done?
    ensures var completed := Complete(w.library, id, outcome.digest, now);
            && completed.Ok? && (after, completed.value) == Recover(w.tasks, w.library, id, now)
            && LibraryValid(completed.value) && !HasPrepared(completed.value) && completed.value.facts == w.library.facts
  {
    assert Reached(EffectOf(fault), Chosen(w, id)) == Chosen(w, id);
    CompleteSettles(w.library, id, w.library.operations[id].digest, now);
  }

  /** One that finds a conflict, and then the abort, are the recovery, too. */
  lemma BackIsRecover(w: World, id: OperationId, fault: Fault, rollback: bool, after: Tasks, outcome: Outcome, now: Time)
    requires LibraryValid(w.library) && IsPrepared(w.library, id)
    requires AppliedAs(w, id, true, fault, rollback, after, outcome) && outcome.Refused? && outcome.conflict
    ensures var aborted := Abort(w.library, id);
            && (after, aborted) == Recover(w.tasks, w.library, id, now) && after == w.tasks
            && LibraryValid(aborted) && !HasPrepared(aborted)
  {
    RecoveryLeavesNothingToRecover(w.tasks, w.library, id, now);
    AbortKeepsLibraryValid(w.library, id);
  }

  /** Recovery meets no fault on the way it goes: forward if what is left can be deleted, back if not. */
  ghost predicate CanRecover(tasks: Tasks, lib: Library, id: OperationId, fault: Fault, rollback: bool)
    requires id in lib.operations
  {
    if Deletable(tasks, lib.operations[id].candidates, true) then fault.NoFault? else rollback
  }

  lemma ChosenAreCandidates(w: World, id: OperationId, e: Effect)
    requires id in w.library.operations
    ensures Reached(e, Chosen(w, id)) <= TaskSet(w.library.operations[id].candidates)
  {
  }

  lemma NothingLostInPlace(tasks: Tasks, facts: map<FactKey, Fact>)
    ensures NothingLost(tasks, tasks, facts) && NothingLostExactly(tasks, tasks, facts)
  {
  }

  /** Nothing is lost over two deletions if the second forgets no fact of the first. */
  lemma NothingLostTwice(before: Tasks, gone: set<TaskId>, after: Tasks,
                         facts: map<FactKey, Fact>, more: map<FactKey, Fact>)
    requires NothingLost(before, Delete(before, gone), facts)
    requires NothingLost(Delete(before, gone), after, more) && NothingLostExactly(Delete(before, gone), after, more)
    requires KeepsFacts(facts, more)
    ensures NothingLost(before, after, more)
    ensures NothingLostExactly(before, Delete(before, gone), facts) ==> NothingLostExactly(before, after, more)
  {
    if NothingLostExactly(before, Delete(before, gone), facts) {
      NothingLostExactlyTwice(before, gone, after, facts, more);
    }
    DeleteRemovesExactly(before, gone);
    forall t, k, p | Had(before, t, k, p) && !Present(after, t)
      ensures k in more && Pinned(more[k].payload) == Pinned(p)
    {
      if t !in gone {
        assert Had(Delete(before, gone), t, k, p);
      }
    }
  }

  lemma NothingLostExactlyTwice(before: Tasks, gone: set<TaskId>, after: Tasks,
                                facts: map<FactKey, Fact>, more: map<FactKey, Fact>)
    requires NothingLostExactly(before, Delete(before, gone), facts)
    requires NothingLostExactly(Delete(before, gone), after, more)
    requires KeepsFacts(facts, more)
    ensures NothingLostExactly(before, after, more)
  {
    DeleteRemovesExactly(before, gone);
    forall t, k, p | Had(before, t, k, p) && !Present(after, t) ensures k in more && more[k].payload == p {
      if t !in gone {
        assert Had(Delete(before, gone), t, k, p);
      }
    }
  }

  /** What has just been collected and prepared has the codes that are archived. */
  lemma {:induction false} CollectedCodesAreCurrent(tasks: Tasks, items: seq<PreparedItem>, lib: Library, id: OperationId)
    requires Collectable(tasks, items) && IsPrepared(lib, id)
    requires lib.operations[id].candidates == CandidatesOf(items) && RecordsArchived(items, lib.facts)
    ensures CodesAreCurrent(tasks, lib, id)
  {
    forall t, b, q | t in TaskSet(CandidatesOf(items)) && HasItem(tasks, t, b, q)
      ensures SaysCode(lib.facts, b, q, CodeAt(tasks.codes, b, q))
    {
      var c :| c in CandidatesOf(items) && c.task == t;
      assert Refresh(tasks, c).Fresh?;
      ArchivedAsCollected(items, tasks.codes, lib.facts, c, b, q);
    }
  }

  /** Exactly what the preview selects of the tasks at the start is deleted. */
  ghost predicate IsCleanedFrom(start: Tasks, preview: Preview, removed: seq<Candidate>, after: Tasks) {
    removed == Selection(start, preview) && after == Delete(start, TaskSet(removed))
  }

  /** The preview has the task, which still meets its criteria, has ended, and has the rows it had then. */
  ghost predicate IsEligible(start: Tasks, preview: Preview, t: TaskId) {
    && t in preview.matching && HasEnded(start, t)
    && exists c :: c in preview.candidates && c.task == t && SaysRows(start, c)
  }

  /** These tasks are eligible, and nothing would be left that refers to a download among them. */
  ghost predicate CanAllGo(start: Tasks, preview: Preview, chosen: set<TaskId>) {
    && NothingRefersTo(Delete(start, chosen), chosen)
    && forall t | t in chosen :: IsEligible(start, preview, t)
  }

  /** A task is there in `start` and gone in `after` exactly if it is one of tasks that can all go. */
  ghost predicate GoneExactly(start: Tasks, preview: Preview, after: Tasks) {
    forall t :: Present(start, t) && !Present(after, t) <==> exists chosen :: CanAllGo(start, preview, chosen) && t in chosen
  }

  lemma EligibleExactly(start: Tasks, preview: Preview, t: TaskId)
    ensures IsEligible(start, preview, t) <==> t in TaskSet(Filter(preview.candidates, WantedIn(start, preview)))
  {
    forall c | c in preview.candidates && c.task == t
      ensures StillWanted(start, preview, c) <==> t in preview.matching && HasEnded(start, t) && SaysRows(start, c)
    {
      FreshExactly(start, c);
    }
  }

  lemma EligibleAreWanted(start: Tasks, preview: Preview, chosen: set<TaskId>)
    ensures CanAllGo(start, preview, chosen) <==>
            Closed(start, chosen) && chosen <= TaskSet(Filter(preview.candidates, WantedIn(start, preview)))
  {
    ClosedExactly(start, chosen);
    forall t | t in chosen {
      EligibleExactly(start, preview, t);
    }
  }

  lemma SelectedExactly(start: Tasks, preview: Preview, t: TaskId)
    ensures t in TaskSet(Selection(start, preview)) <==> exists chosen :: CanAllGo(start, preview, chosen) && t in chosen
  {
    var wanted := Filter(preview.candidates, WantedIn(start, preview));
    LinkedIsLargestClosed(start, wanted);
    var selected := TaskSet(Selection(start, preview));
    EligibleAreWanted(start, preview, selected);
    if chosen :| CanAllGo(start, preview, chosen) && t in chosen {
      EligibleAreWanted(start, preview, chosen);
    }
  }

  /** A cleanup that succeeds removes a task if and only if the task is one of previewed tasks that have all
      ended, are unchanged, still match, and leave nothing dangling together. */
  lemma CleanedExactly(start: Tasks, preview: Preview, removed: seq<Candidate>, after: Tasks)
    requires IsCleanedFrom(start, preview, removed, after)
    ensures GoneExactly(start, preview, after)
    ensures forall t :: t in TaskSet(removed) <==> Present(start, t) && !Present(after, t)
  {
    DeleteRemovesExactly(start, TaskSet(removed));
    forall t
      ensures t in TaskSet(removed) ==> Present(start, t)
      ensures t in TaskSet(removed) <==> exists chosen :: CanAllGo(start, preview, chosen) && t in chosen
    {
      SelectedExactly(start, preview, t);
      SelectedIsThere(start, preview, t);
    }
  }

  /** The library refuses the operation that would remove what the preview selects. */
  ghost predicate IsRefused(start: Tasks, lib: Library, preview: Preview, token: OperationId, now: Time, error: Error) {
    exists items :: Collectable(start, items) && CandidatesOf(items) == Selection(start, preview)
                    && Prepare(lib, token, items, now) == Err(error)
  }

  ghost predicate IsDoneUnlessRefused(start: Tasks, lib: Library, preview: Preview, token: OperationId, now: Time,
                                      result: Result<seq<Candidate>, Failure>) {
    match result
    case Ok(removed) => removed == Selection(start, preview)
    case Err(failure) => failure.NotPrepared? && IsRefused(start, lib, preview, token, now, failure.error)
  }

  /** What becomes of a cleanup of these tasks: a live preview is cleaned exactly, unless the library refuses or there is
      a fault; and without a live one nothing is done. */
  ghost predicate IsOutcome(start: Tasks, lib: Library, previews: map<OperationId, Preview>, token: OperationId, now: Time,
                            faults: Faults, result: Result<seq<Candidate>, Failure>, after: Tasks)
  {
    if token !in previews then result == Err(NoPreview) && after == start
    else if now >= previews[token].expiresAt then result == Err(PreviewExpired) && after == start
    else
      && result != Err(NoPreview) && result != Err(PreviewExpired)
      && (result.Ok? ==> && IsCleanedFrom(start, previews[token], result.value, after)
                         && GoneExactly(start, previews[token], after))
      && (HasNoFault(faults) ==> IsDoneUnlessRefused(start, lib, previews[token], token, now, result))
  }

  lemma SelectedIsThere(start: Tasks, preview: Preview, t: TaskId)
    ensures t in TaskSet(Selection(start, preview)) ==> Present(start, t)
  {
    if c :| c in Selection(start, preview) && c.task == t {
      assert Refresh(start, c).Fresh?;
    }
  }

  /** After a failure the operation can still be applied exactly if nothing has been deleted. */
  lemma IntactExactly(w: World, after: World, id: OperationId, gone: set<TaskId>)
    requires id in w.library.operations && gone <= TaskSet(w.library.operations[id].candidates)
    requires CanApply(w, id, false) && after == w.(tasks := Delete(w.tasks, gone))
    ensures CanApply(after, id, false) <==> after.tasks == w.tasks
  {
    if CanApply(after, id, false) {
      IntactMeansNothingGone(w, after, id, gone);
    }
  }

  class Service {
    var tasks: Tasks
    var library: Library
    var previews: map<OperationId, Preview>

    ghost predicate Valid()
      reads this
    {
      LibraryValid(library) && DistinctLedger(library)
    }

    /** The state as the protocol sees it between two calls, without history. */
    ghost function View(): World
      reads this
    {
      World(tasks, library, Idle, false, iset{}, iset{})
    }

    constructor (tasks: Tasks, library: Library)
      requires LibraryValid(library) && DistinctLedger(library)
      ensures Valid() && this.tasks == tasks && this.library == library && previews == map[]
    {
      this.tasks := tasks;
      this.library := library;
      previews := map[];
    }

    // -------------------------------------------------------------- prepare, abort, complete

    /** `_prepare_operation`. */
    method PrepareOperation(id: OperationId, items: seq<PreparedItem>, now: Time) returns (error: Option<Error>)
      requires DistinctLedger(library)
      modifies this`library
      ensures DistinctLedger(library)
      ensures match Prepare(old(library), id, items, now)
              case Ok(lib) => error == None && library == lib
              case Err(e) => error == Some(e) && library == old(library)
    {
      if |items| > MAX_CLEANUP_RECORDS || FactCount(items) > MAX_RECOVERY_FACTS {
        return Some(Invalid);
      }
      UnambiguousIsBoth(items);
      var facts, mappings, agreed := StoreFacts(library.facts, items, now);
      if !agreed {
        return Some(Conflict);
      }
      if id in library.operations || HasPrepared(library) {
        return Some(Conflict);
      }
      var distinct := InsertCandidates(items);
      if !distinct {
        return Some(Conflict);
      }
      var summaries := Summarize(facts, mappings);
      var candidates := CandidatesOf(items);
      var op := Operation(Prepared, candidates, mappings, OperationDigest(candidates, summaries), now, now);
      library := Library(facts, library.operations[id := op]);
      error := None;
    }

    /** `_abort_prepared_operation`: the facts are deleted one by one. */
    method AbortPreparedOperation(id: OperationId)
      requires DistinctLedger(library)
      modifies this`library
      ensures library == Abort(old(library), id) && DistinctLedger(library)
    {
      var todo := CreatedBy(library, id);
      var operations := library.operations;
      if id in operations && operations[id].status.Prepared? {
        operations := operations - {id};
      }
      ghost var unmapped := set k | k in todo && !IsMapped(operations, k);
      ghost var created := todo;
      var facts := library.facts;
      while todo != {}
        invariant todo <= created
        invariant facts == library.facts - (unmapped - todo)
      {
        var k :| k in todo;
        if !IsMapped(operations, k) {
          facts := facts - {k};
        }
        assert unmapped - (todo - {k}) == if IsMapped(operations, k) then unmapped - todo else unmapped - todo + {k};
        todo := todo - {k};
      }
      assert unmapped - todo == unmapped;
      library := Library(facts, operations);
    }

    /** `_complete_prepared_operation`. */
    method CompletePreparedOperation(id: OperationId, expected: OperationDigest, now: Time) returns (ok: bool)
      requires DistinctLedger(library)
      modifies this`library
      ensures DistinctLedger(library)
      ensures match Complete(old(library), id, expected, now)
              case Ok(lib) => ok && library == lib
              case Err(_) => !ok && library == old(library)
    {
      if id !in library.operations || library.operations[id].digest != expected {
        return false;
      }
      if library.operations[id].status.Completed? {
        return true;
      }
      var loaded := LoadPreparedOperation(library, id);
      if !loaded {
        return false;
      }
      var marked := library.operations[id := library.operations[id].(status := Completed, updatedAt := now)];
      library := library.(operations := marked - StaleOperations(marked, id));
      return true;
    }

    // -------------------------------------------------------------- apply

    /** What `_apply_prepared_operation` and `_prepared_operation_is_intact` check before anything is
        deleted: the candidates that are left to delete, unless something has changed. */
    method CheckPrepared(id: OperationId, allowMissing: bool) returns (pending: Option<seq<Candidate>>)
      requires DistinctLedger(library)
      ensures pending.Some? <==> CanApply(View(), id, allowMissing)
      ensures pending.Some? ==>
                && pending.value == StillThere(tasks, library.operations[id].candidates)
                && DistinctTasks(pending.value)
    {
      var loaded := LoadPreparedOperation(library, id);
      if !loaded {
        return None;
      }
      var candidates := library.operations[id].candidates;
      var current, kept := RefreshAll(tasks, candidates, allowMissing);
      if !kept {
        return None;
      }
      var safe := RemoveDanglingDependencies(tasks, current);
      NothingRejected(tasks, current);
      StillThereKeepsDistinct(tasks, candidates);
      return if |safe| == |current| then Some(safe) else None;
    }

    /** `_apply_prepared_operation`. */
    method ApplyPreparedOperation(id: OperationId, allowMissing: bool, fault: Fault, rollback: bool)
      returns (outcome: Outcome)
      requires Valid()
      modifies this`tasks
      ensures AppliedAs(old(View()), id, allowMissing, fault, rollback, tasks, outcome)
    {
      var pending := CheckPrepared(id, allowMissing);
      if pending.None? {
        return Refused(true, rollback, false);
      }
      var agreed := CommitDeletion(pending.value, fault);
      if !agreed {
        return Refused(true, rollback, false);
      }
      outcome := if fault.NoFault? then Done(library.operations[id].digest)
                 else Refused(false, rollback, fault.AtCommit?);
    }

    /** The deletions and the commit of the transaction across the task databases. */
    method CommitDeletion(pending: seq<Candidate>, fault: Fault) returns (agreed: bool)
      requires DistinctTasks(pending) && forall c | c in pending :: Refresh(tasks, c).Fresh?
      modifies this`tasks
      ensures agreed && tasks == Delete(old(tasks), Reached(EffectOf(fault), TaskSet(pending)))
    {
      var left;
      left, agreed := DeleteCandidates(tasks, pending);
      if agreed {
        match fault {
          case NoFault =>
            tasks := left;
          case BeforeCommit =>
            DeletingNothing(tasks);
          case AtCommit(effect) =>
            tasks := Delete(tasks, Reached(effect, TaskSet(pending)));
        }
      }
    }

    // -------------------------------------------------------------- recovery

    /** The identifiers of the prepared operations. */
    method PreparedOperations() returns (todo: seq<OperationId>)
      ensures forall o :: o in todo <==> IsPrepared(library, o)
      ensures forall i, j | 0 <= i < j < |todo| :: todo[i] != todo[j]
      ensures todo == [] <==> !HasPrepared(library)
    {
      todo := [];
      var left := set o | o in library.operations && library.operations[o].status.Prepared?;
      while left != {}
        invariant left <= library.operations.Keys
        invariant forall o :: IsPrepared(library, o) <==> o in todo || o in left
        invariant forall o | o in left :: o !in todo
        invariant forall i, j | 0 <= i < j < |todo| :: todo[i] != todo[j]
      {
        var o :| o in left;
        todo := todo + [o];
        left := left - {o};
      }
      forall o | o in library.operations && library.operations[o].status.Prepared? ensures o in todo {
        assert IsPrepared(library, o);
      }
      if todo != [] {
        assert IsPrepared(library, todo[0]);
      }
    }

    /** One round of the loop of `_recover_prepared_operations_locked`. */
    method RecoverOne(id: OperationId, fault: Fault, rollback: bool, now: Time) returns (ok: bool, ghost gone: set<TaskId>)
      requires Valid() && IsPrepared(library, id)
      modifies this`tasks, this`library
      ensures Valid()
      ensures ok ==> (tasks, library) == Recover(old(tasks), old(library), id, now) && !HasPrepared(library)
      ensures ok <==> CanRecover(old(tasks), old(library), id, fault, rollback)
      ensures !ok ==> library == old(library)
      ensures tasks == Delete(old(tasks), gone) && NothingLost(old(tasks), tasks, library.facts)
      ensures CodesAreCurrent(old(tasks), old(library), id) ==> NothingLostExactly(old(tasks), tasks, library.facts)
    {
      ghost var w := View();
      var outcome := ApplyPreparedOperation(id, true, fault, rollback);
      gone := AppliedLosesNothing(w, id, true, fault, rollback, tasks, outcome);
      match outcome {
        case Done(digest) =>
          ForwardIsRecover(w, id, fault, rollback, tasks, outcome, now);
          ok := CompletePreparedOperation(id, digest, now);
        case Refused(conflict, rolledBack, commitAttempted) =>
          ok := conflict && rolledBack && !commitAttempted;
          if ok {
            BackIsRecover(w, id, fault, rollback, tasks, outcome, now);
            NothingLostInPlace(tasks, Abort(library, id).facts);
            AbortPreparedOperation(id);
          }
      }
    }

    /** `recover_prepared_operations`, at startup and before every cleanup. */
    method RecoverPreparedOperations(fault: Fault, rollback: bool, now: Time) returns (ok: bool, ghost gone: set<TaskId>)
      requires Valid()
      modifies this`tasks, this`library
      ensures Valid()
      ensures ok ==> !HasPrepared(library)
      ensures ok ==> forall id | IsPrepared(old(library), id) ::
                (tasks, library) == Recover(old(tasks), old(library), id, now)
      ensures !HasPrepared(old(library)) ==> ok && tasks == old(tasks) && library == old(library)
      ensures forall id | IsPrepared(old(library), id) :: ok <==> CanRecover(old(tasks), old(library), id, fault, rollback)
      ensures !ok ==> library == old(library)
      ensures fault.NoFault? && rollback ==> ok
      ensures tasks == Delete(old(tasks), gone) && NothingLost(old(tasks), tasks, library.facts)
      ensures AllCodesAreCurrent(old(tasks), old(library)) ==> NothingLostExactly(old(tasks), tasks, library.facts)
    {
      gone := {};
      DeletingNothing(tasks);
      NothingLostInPlace(tasks, library.facts);
      var todo := PreparedOperations();
      AtMostOneToRecover(View(), todo);
      var next := 0;
      while next < |todo|
        invariant next <= |todo| && Valid()
        invariant next == 0 ==> tasks == old(tasks) && library == old(library)
        invariant next == 1 ==> (tasks, library) == Recover(old(tasks), old(library), todo[0], now)
        invariant next == 1 ==> !HasPrepared(library)
        invariant next == 1 ==> CanRecover(old(tasks), old(library), todo[0], fault, rollback)
        invariant tasks == Delete(old(tasks), gone) && NothingLost(old(tasks), tasks, library.facts)
        invariant AllCodesAreCurrent(old(tasks), old(library)) ==> NothingLostExactly(old(tasks), tasks, library.facts)
      {
        ok, gone := RecoverOne(todo[next], fault, rollback, now);
        if !ok {
          return;
        }
        next := next + 1;
      }
      ok := true;
    }

    // -------------------------------------------------------------- a whole cleanup

    /** `execute_cleanup`.  A preview is used up by its first use, and expired ones go with it. */
    method ExecuteCleanup(token: OperationId, now: Time, later: Time, recovery: Faults, faults: Faults)
      returns (result: Result<seq<Candidate>, Failure>)
      requires Valid()
      modifies this
      ensures Valid()
      ensures NothingLost(old(tasks), tasks, library.facts)
      ensures AllCodesAreCurrent(old(tasks), old(library)) ==> NothingLostExactly(old(tasks), tasks, library.facts)
      ensures previews == if result == Err(NotRecovered) then old(previews) else Unexpired(old(previews) - {token}, now)
      ensures !HasPrepared(old(library)) ==>
                && result != Err(NotRecovered)
                && IsOutcome(old(tasks), old(library), old(previews), token, now, faults, result, tasks)
      ensures forall id | IsPrepared(old(library), id) ::
                && (result != Err(NotRecovered) <==>
                      CanRecover(old(tasks), old(library), id, recovery.apply, recovery.rollback))
                && (result != Err(NotRecovered) ==>
                      var (recovered, lib) := Recover(old(tasks), old(library), id, now);
                      IsOutcome(recovered, lib, old(previews), token, now, faults, result, tasks))
    {
      var ok, gone := RecoverPreparedOperations(recovery.apply, recovery.rollback, now);
      if !ok {
        return Err(NotRecovered);
      }
      ghost var facts := library.facts;
      result := UsePreview(token, now, later, faults);
      NothingLostTwice(old(tasks), gone, tasks, facts, library.facts);
    }

    /** The part of `execute_cleanup` that follows recovery. */
    method UsePreview(token: OperationId, now: Time, later: Time, faults: Faults)
      returns (result: Result<seq<Candidate>, Failure>)
      requires Valid()
      modifies this
      ensures Valid() && result != Err(NotRecovered)
      ensures NothingLost(old(tasks), tasks, library.facts) && NothingLostExactly(old(tasks), tasks, library.facts)
      ensures KeepsFacts(old(library).facts, library.facts)
      ensures previews == Unexpired(old(previews) - {token}, now)
      ensures IsOutcome(old(tasks), old(library), old(previews), token, now, faults, result, tasks)
    {
      var preview := TakePreview(token, now);
      if preview.Err? {
        NothingLostInPlace(tasks, library.facts);
        return Err(preview.error);
      }
      result := RemoveSelection(preview.value, token, now, later, faults);
    }

    /** Using up a preview: the expired ones go with it. */
    method TakePreview(token: OperationId, now: Time) returns (r: Result<Preview, Failure>)
      modifies this`previews
      ensures previews == Unexpired(old(previews) - {token}, now)
      ensures if token in old(previews) && now < old(previews)[token].expiresAt then r == Ok(old(previews)[token])
              else r == Err(if token in old(previews) then PreviewExpired else NoPreview)
    {
      var preview := if token in previews then Some(previews[token]) else None;
      previews := Unexpired(previews - {token}, now);
      if preview.None? {
        return Err(NoPreview);
      }
      if now >= preview.value.expiresAt {
        return Err(PreviewExpired);
      }
      r := Ok(preview.value);
    }

    /** The part of `execute_cleanup` that follows recovery and takes a live preview. */
    method RemoveSelection(preview: Preview, token: OperationId, now: Time, later: Time, faults: Faults)
      returns (result: Result<seq<Candidate>, Failure>)
      requires Valid()
      modifies this`tasks, this`library
      ensures Valid()
      ensures NothingLost(old(tasks), tasks, library.facts) && NothingLostExactly(old(tasks), tasks, library.facts)
      ensures KeepsFacts(old(library).facts, library.facts)
      ensures result.Ok? ==> IsCleanedFrom(old(tasks), preview, result.value, tasks) && GoneExactly(old(tasks), preview, tasks)
      ensures result.Err? ==> !result.error.NotRecovered? && !result.error.NoPreview? && !result.error.PreviewExpired?
      ensures HasNoFault(faults) ==> IsDoneUnlessRefused(old(tasks), old(library), preview, token, now, result)
    {
      var items := CollectPreparedItems(preview);
      var removed := CandidatesOf(items);
      if items == [] {
        DeletingNothing(tasks);
        NothingLostInPlace(tasks, library.facts);
        CleanedExactly(tasks, preview, removed, tasks);
        return Ok(removed);
      }
      var failure := RunOperation(token, items, now, later, faults);
      if failure.Some? {
        return Err(failure.value);
      }
      CleanedExactly(old(tasks), preview, removed, tasks);
      result := Ok(removed);
    }

    /** `_collect_prepared_items`: the candidates of the preview that can still go, with their facts. */
    method CollectPreparedItems(preview: Preview) returns (items: seq<PreparedItem>)
      ensures CandidatesOf(items) == Selection(tasks, preview)
      ensures Collectable(tasks, items)
    {
      var current: seq<Candidate> := [];
      ghost var rows := tasks;
      ghost var keep := WantedIn(rows, preview);
      for i := 0 to |preview.candidates|
        invariant current == Filter(preview.candidates[..i], keep)
      {
        FilterNext(preview.candidates, keep, i);
        var r := RefreshCandidate(tasks, preview.candidates[i]);
        if r.Fresh? && preview.candidates[i].task in preview.matching {
          current := current + [preview.candidates[i]];
        }
      }
      assert preview.candidates[..|preview.candidates|] == preview.candidates;
      var linked := RemoveDanglingDependencies(tasks, current);
      items := AttachFacts(linked);
      SelectionIsCollectable(tasks, preview, items);
    }

    method AttachFacts(candidates: seq<Candidate>) returns (items: seq<PreparedItem>)
      requires forall c | c in candidates :: Refresh(tasks, c).Fresh?
      ensures CandidatesOf(items) == candidates
      ensures forall i | 0 <= i < |items| :: MadeFrom(items[i], tasks.codes)
    {
      items := [];
      for i := 0 to |candidates|
        invariant |items| == i
        invariant forall j | 0 <= j < i :: items[j].candidate == candidates[j] && MadeFrom(items[j], tasks.codes)
      {
        assert Refresh(tasks, candidates[i]).Fresh?;
        var records := FactsForCandidate(tasks, candidates[i].task);
        items := items + [PreparedItem(candidates[i], records.value)];
      }
    }

    /** Prepares, applies and completes one operation, or ends it the way `execute_cleanup` handles the
        fault it meets. */
    method RunOperation(id: OperationId, items: seq<PreparedItem>, now: Time, later: Time, faults: Faults)
      returns (failure: Option<Failure>)
      requires Valid() && Collectable(tasks, items)
      modifies this`tasks, this`library
      ensures Valid()
      ensures NothingLost(old(tasks), tasks, library.facts) && NothingLostExactly(old(tasks), tasks, library.facts)
      ensures KeepsFacts(old(library).facts, library.facts)
      ensures failure.None? ==> Removed(old(tasks), CandidatesOf(items), id, tasks, library)
      ensures failure.Some? ==> failure.value.NotPrepared? || failure.value.NotApplied? || failure.value.NotCompleted?
      ensures failure.Some? && failure.value.NotPrepared? ==> tasks == old(tasks) && library == old(library)
      ensures failure.Some? && !failure.value.NotPrepared? ==> Prepare(old(library), id, items, now).Ok?
      ensures failure == Some(NotApplied) ==>
                if faults.afterPrepare then tasks == old(tasks) && library == old(library)
                else library == if faults.rollback && tasks == old(tasks) then old(library)
                                else Prepare(old(library), id, items, now).value
      ensures failure == Some(NotCompleted) ==>
                && library == Prepare(old(library), id, items, now).value
                && tasks == Delete(old(tasks), TaskSet(CandidatesOf(items)))
      ensures HasNoFault(faults) ==>
                match Prepare(old(library), id, items, now)
                case Ok(_) => failure == None
                case Err(e) => failure == Some(NotPrepared(e))
    {
      NothingLostInPlace(tasks, library.facts);
      var error := PrepareOperation(id, items, now);
      if error.Some? {
        return Some(NotPrepared(error.value));
      }
      PrepareGrows(old(library), id, items, now);
      AbortUndoesPrepare(old(library), id, items, now);
      PreparedRecords(old(library), id, items, now, library);
      CollectedCodesAreCurrent(tasks, items, library, id);
      if faults.afterPrepare {
        AbortPreparedOperation(id);
        return Some(NotApplied);
      }
      failure := ApplyAndComplete(id, old(library), later, faults);
    }

    /** The part of `execute_cleanup` that follows a successful prepare.  `before` is the library
        without the operation. */
    method ApplyAndComplete(id: OperationId, ghost before: Library, later: Time, faults: Faults)
      returns (failure: Option<Failure>)
      requires Valid() && Abort(library, id) == before && Loads(library, id)
      requires CanGo(tasks, library.operations[id].candidates)
      modifies this`tasks, this`library
      ensures library == before || (Valid() && library.facts == old(library).facts)
      ensures NothingLost(old(tasks), tasks, library.facts)
      ensures CodesAreCurrent(old(tasks), old(library), id) ==> NothingLostExactly(old(tasks), tasks, library.facts)
      ensures EndsAs(old(tasks), before, old(library), id, faults.rollback, failure, tasks, library)
      ensures faults.apply.NoFault? && !faults.afterDelete ==> failure.None?
    {
      FreshIsChosen(View(), id);
      var digest := ApplyOrAbort(id, before, faults.apply, faults.rollback);
      if digest.None? {
        return Some(NotApplied);
      }
      if faults.afterDelete {
        return Some(NotCompleted);
      }
      CompletionSucceeds(library, id, digest.value, later);
      var ok := CompletePreparedOperation(id, digest.value, later);
      failure := if ok then None else Some(NotCompleted);
    }

    /** Applies a prepared operation; after a failure it is aborted if that is safe, and left to
        recovery if not. */
    method ApplyOrAbort(id: OperationId, ghost before: Library, fault: Fault, rollback: bool)
      returns (digest: Option<OperationDigest>)
      requires Valid() && Abort(library, id) == before && IsPrepared(library, id)
      modifies this`tasks, this`library
      ensures library == old(library) || library == before
      ensures NothingLost(old(tasks), tasks, library.facts)
      ensures CodesAreCurrent(old(tasks), old(library), id) ==> NothingLostExactly(old(tasks), tasks, library.facts)
      ensures digest.Some? ==>
                && library == old(library) && digest.value == library.operations[id].digest
                && tasks == Delete(old(tasks), Chosen(old(View()), id))
      ensures fault.NoFault? && CanApply(old(View()), id, false) ==> digest.Some?
      ensures digest.None? ==> library == if rollback && tasks == old(tasks) then before else old(library)
    {
      ghost var w := View();
      var outcome := ApplyPreparedOperation(id, false, fault, rollback);
      ghost var gone := AppliedLosesNothing(w, id, false, fault, rollback, tasks, outcome);
      if outcome.Done? {
        DoneDeletesAll(w, id, fault, rollback, tasks, outcome);
        return Some(outcome.digest);
      }
      var aborted := HandleFailure(id, outcome.rolledBack, outcome.commitAttempted, w.tasks, gone);
      if aborted {
        NothingLostInPlace(tasks, library.facts);
      }
      digest := None;
    }

    /** The test whether a failed operation can be aborted, and the abort: it is aborted exactly if the rollback is
        confirmed and nothing has been deleted. */
    method HandleFailure(id: OperationId, rolledBack: bool, commitAttempted: bool, ghost was: Tasks, ghost gone: set<TaskId>)
      returns (safeToAbort: bool)
      requires DistinctLedger(library) && IsPrepared(library, id)
      requires tasks == Delete(was, gone) && gone <= TaskSet(library.operations[id].candidates)
      requires !commitAttempted ==> gone == {}
      requires commitAttempted ==> CanApply(View().(tasks := was), id, false)
      modifies this`library
      ensures safeToAbort == SafeToAbort(old(View()), id, rolledBack, commitAttempted)
      ensures library == if safeToAbort then Abort(old(library), id) else old(library)
      ensures safeToAbort <==> rolledBack && tasks == was
    {
      DeletingNothing(was);
      safeToAbort := rolledBack;
      if rolledBack && commitAttempted {
        var intact := CheckPrepared(id, false);
        safeToAbort := intact.Some?;
        IntactExactly(View().(tasks := was), View(), id, gone);
      }
      if safeToAbort {
        AbortPreparedOperation(id);
      }
    }
  }

  /** `_expire_previews`. */
  function Unexpired(previews: map<OperationId, Preview>, now: Time): (r: map<OperationId, Preview>)
    ensures forall token :: token in r <==> token in previews && now < previews[token].expiresAt
    ensures forall token | token in r :: r[token] == previews[token]
  {
    previews - (set token | token in previews && now >= previews[token].expiresAt)
  }

  ghost predicate StillWanted(tasks: Tasks, preview: Preview, c: Candidate) {
    Refresh(tasks, c).Fresh? && c.task in preview.matching
  }

  /** What a cleanup of this preview removes. */
  ghost function WantedIn(tasks: Tasks, preview: Preview): Candidate -> bool {
    (c: Candidate) => StillWanted(tasks, preview, c)
  }

  ghost function Selection(tasks: Tasks, preview: Preview): seq<Candidate> {
    Linked(tasks, Filter(preview.candidates, WantedIn(tasks, preview)))
  }

  /** The items were just read from these tasks and can go without leaving a dangling reference. */
  ghost predicate Collectable(tasks: Tasks, items: seq<PreparedItem>) {
    && (forall i | 0 <= i < |items| :: MadeFrom(items[i], tasks.codes))
    && CanGo(tasks, CandidatesOf(items))
  }

  ghost predicate CanGo(tasks: Tasks, candidates: seq<Candidate>) {
    (forall c | c in candidates :: Refresh(tasks, c).Fresh?) && Closed(tasks, TaskSet(candidates))
  }

  lemma {:induction false} SelectionIsCollectable(tasks: Tasks, preview: Preview, items: seq<PreparedItem>)
    requires CandidatesOf(items) == Selection(tasks, preview)
    requires forall i | 0 <= i < |items| :: MadeFrom(items[i], tasks.codes)
    ensures Collectable(tasks, items)
  {
    LinkedIsLargestClosed(tasks, Filter(preview.candidates, WantedIn(tasks, preview)));
  }

  ghost predicate KeepsFacts(before: map<FactKey, Fact>, after: map<FactKey, Fact>) {
    forall k | k in before :: k in after && after[k] == before[k]
  }

  /** The candidates are gone, and nothing else; their operation is completed. */
  ghost predicate Removed(before: Tasks, candidates: seq<Candidate>, id: OperationId, after: Tasks, lib: Library) {
    && after == Delete(before, TaskSet(candidates))
    && id in lib.operations && lib.operations[id].status.Completed?
  }

  lemma CompletionSucceeds(lib: Library, id: OperationId, digest: OperationDigest, later: Time)
    requires LibraryValid(lib) && Loads(lib, id) && digest == lib.operations[id].digest
    ensures var completed := Complete(lib, id, digest, later);
            && completed.Ok? && LibraryValid(completed.value) && completed.value.facts == lib.facts
            && id in completed.value.operations && completed.value.operations[id].status.Completed?
  {
    CompleteSettles(lib, id, digest, later);
  }

  /** How a prepared operation ends: removed and completed; or not applied, and then aborted exactly if the rollback is
      confirmed and nothing has been deleted; or applied and not completed, which is left to recovery. */
  ghost predicate EndsAs(start: Tasks, before: Library, prepared: Library, id: OperationId, rollback: bool,
                         failure: Option<Failure>, after: Tasks, lib: Library)
    requires id in prepared.operations
  {
    var candidates := prepared.operations[id].candidates;
    match failure
    case None => Removed(start, candidates, id, after, lib)
    case Some(NotApplied) => lib == if rollback && after == start then before else prepared
    case Some(NotCompleted) => lib == prepared && after == Delete(start, TaskSet(candidates))
    case _ => false
  }

  /** Without interference, what has just been prepared can be applied, to all of its candidates. */
  lemma {:induction false} FreshCanBeDeleted(tasks: Tasks, candidates: seq<Candidate>)
    requires CanGo(tasks, candidates)
    ensures Deletable(tasks, candidates, false)
    ensures StillThere(tasks, candidates) == candidates
  {
    FilterAll(candidates, FreshIn(tasks));
  }

  lemma FreshIsChosen(w: World, id: OperationId)
    requires Loads(w.library, id) && CanGo(w.tasks, w.library.operations[id].candidates)
    ensures CanApply(w, id, false) && Chosen(w, id) == TaskSet(w.library.operations[id].candidates)
  {
    FreshCanBeDeleted(w.tasks, w.library.operations[id].candidates);
  }

  /** If every candidate is still there after a deletion of some of them, none was deleted. */
  lemma {:induction false} AllThereMeansNothingGone(tasks: Tasks, candidates: seq<Candidate>, gone: set<TaskId>)
    requires gone <= TaskSet(candidates)
    requires forall c | c in candidates :: Present(Delete(tasks, gone), c.task)
    ensures Delete(tasks, gone) == tasks
  {
    DeleteRemovesExactly(tasks, gone);
    DeletingNothing(tasks);
    assert forall t | t in TaskSet(candidates) :: Present(Delete(tasks, gone), t);
    assert gone == {};
  }

  /** If the operation is intact after a failed apply, the failure has deleted nothing. */
  lemma IntactMeansNothingGone(w: World, after: World, id: OperationId, gone: set<TaskId>)
    requires id in w.library.operations && gone <= TaskSet(w.library.operations[id].candidates)
    requires after == w.(tasks := Delete(w.tasks, gone)) && CanApply(after, id, false)
    ensures after.tasks == w.tasks
  {
    forall c | c in w.library.operations[id].candidates ensures Present(after.tasks, c.task) {
      assert !Refresh(after.tasks, c).Missing?;
    }
    AllThereMeansNothingGone(w.tasks, w.library.operations[id].candidates, gone);
  }
}

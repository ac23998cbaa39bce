/**
 * How a prepared cleanup operation ends: forward or back, as a whole, once
 * (jav_pilot/history/cleanup.py, `_recover_prepared_operations_locked`), and where that stops being
 * safe: a torn commit followed by a task writer.
 */
module HistorySettlement {
  import opened Collections
  import opened HistoryState
  import opened HistoryCleanup
  import opened HistoryRuns

  /** Recovery of one prepared operation without interference: delete what is left and complete, or
      abort on a conflict. */
  ghost function Recover(tasks: Tasks, lib: Library, id: OperationId, now: Time): (r: (Tasks, Library))
    requires id in lib.operations
  {
    var op := lib.operations[id];
    if Loads(lib, id) && Deletable(tasks, op.candidates, true) then
      (Delete(tasks, TaskSet(StillThere(tasks, op.candidates))),
       match Complete(lib, id, op.digest, now) case Ok(after) => after case Err(_) => lib)
    else (tasks, Abort(lib, id))
  }

  ghost predicate IsForward(before: Library, id: OperationId, items: seq<PreparedItem>, after: Tasks, lib: Library) {
    && (forall c | c in CandidatesOf(items) :: !Present(after, c.task))
    && RecordsArchived(items, lib.facts)
    && (forall k | k in before.facts :: k in lib.facts && lib.facts[k] == before.facts[k])
    && id in lib.operations && lib.operations[id].status.Completed?
  }

  /** Whatever the tasks look like by then, recovery of an operation either rolls it forward as a
      whole: every candidate is gone, every record of every candidate is archived, no older fact has
      changed, and the operation is completed. */
  lemma {:induction false} SettledForward(before: Library, id: OperationId, items: seq<PreparedItem>, preparedAt: Time,
                                          prepared: Library, tasks: Tasks, now: Time)
    requires LibraryValid(before) && Collected(items) && Prepare(before, id, items, preparedAt) == Ok(prepared)
    requires Deletable(tasks, CandidatesOf(items), true)
    ensures var (after, lib) := Recover(tasks, prepared, id, now); IsForward(before, id, items, after, lib)
  {
    PrepareGrows(before, id, items, preparedAt);
    RecoverGoesForward(tasks, prepared, id, now);
    PreparedRecords(before, id, items, preparedAt, prepared);
  }

  /** Or it gives back exactly the library from before the operation was prepared, and leaves the tasks
      alone. */
  lemma {:induction false} SettledBack(before: Library, id: OperationId, items: seq<PreparedItem>, preparedAt: Time,
                                       prepared: Library, tasks: Tasks, now: Time)
    requires LibraryValid(before) && Collected(items) && Prepare(before, id, items, preparedAt) == Ok(prepared)
    requires !Deletable(tasks, CandidatesOf(items), true)
    ensures Recover(tasks, prepared, id, now) == (tasks, before)
  {
    PrepareGrows(before, id, items, preparedAt);
    AbortUndoesPrepare(before, id, items, preparedAt);
  }

  lemma {:induction false} PreparedRecords(before: Library, id: OperationId, items: seq<PreparedItem>, preparedAt: Time,
                                           prepared: Library)
    requires Prepare(before, id, items, preparedAt) == Ok(prepared)
    ensures RecordsArchived(items, prepared.facts)
  {
    PreparedFacts(before, id, items, preparedAt, prepared);
    StoredRecords(before.facts, items, preparedAt);
  }

  lemma PreparedFacts(before: Library, id: OperationId, items: seq<PreparedItem>, preparedAt: Time, prepared: Library)
    requires Prepare(before, id, items, preparedAt) == Ok(prepared)
    ensures prepared.facts == WithFacts(before.facts, Placements(items), preparedAt)
    ensures FactsAgree(before.facts, Placements(items)) && Unambiguous(items)
  {
  }

  lemma {:induction false} StoredRecords(facts: map<FactKey, Fact>, items: seq<PreparedItem>, preparedAt: Time)
    requires FactsAgree(facts, Placements(items)) && Unambiguous(items)
    ensures RecordsArchived(items, WithFacts(facts, Placements(items), preparedAt))
  {
    var stored := WithFacts(facts, Placements(items), preparedAt);
    forall i, k | 0 <= i < |items| && k in items[i].records
      ensures k in stored && stored[k].payload == items[i].records[k]
    {
      RecordsAreStored(facts, items, preparedAt, i, k);
    }
  }

  ghost predicate RecordsArchived(items: seq<PreparedItem>, facts: map<FactKey, Fact>) {
    forall i, k | 0 <= i < |items| && k in items[i].records ::
      k in facts && facts[k].payload == items[i].records[k]
  }

  /** Rolling an operation forward removes every candidate, keeps every fact, and completes it. */
  lemma RecoverGoesForward(tasks: Tasks, lib: Library, id: OperationId, now: Time)
    requires LibraryValid(lib) && Loads(lib, id) && Deletable(tasks, lib.operations[id].candidates, true)
    ensures var (after, recovered) := Recover(tasks, lib, id, now);
            && (forall c | c in lib.operations[id].candidates :: !Present(after, c.task))
            && recovered.facts == lib.facts
            && id in recovered.operations && recovered.operations[id].status.Completed?
  {
    CompleteSettles(lib, id, lib.operations[id].digest, now);
    ForwardRemovesAll(tasks, lib.operations[id].candidates);
  }

  lemma {:induction false} ForwardRemovesAll(tasks: Tasks, candidates: seq<Candidate>)
    requires Deletable(tasks, candidates, true)
    ensures forall c | c in candidates :: !Present(Delete(tasks, TaskSet(StillThere(tasks, candidates))), c.task)
  {
    DeleteRemovesExactly(tasks, TaskSet(StillThere(tasks, candidates)));
    forall c | c in candidates && Present(tasks, c.task) ensures c.task in TaskSet(StillThere(tasks, candidates)) {
      assert Refresh(tasks, c).Fresh?;
      assert c in StillThere(tasks, candidates);
    }
  }

  /** After recovery nothing is left to recover, so recovering again changes nothing. */
  lemma RecoveryLeavesNothingToRecover(tasks: Tasks, lib: Library, id: OperationId, now: Time)
    requires LibraryValid(lib) && IsPrepared(lib, id)
    ensures !HasPrepared(Recover(tasks, lib, id, now).1)
  {
    if Deletable(tasks, lib.operations[id].candidates, true) {
      assert Complete(lib, id, lib.operations[id].digest, now).Ok?;
      CompleteSettles(lib, id, lib.operations[id].digest, now);
    } else {
      AbortKeepsLibraryValid(lib, id);
    }
  }

  /** In every run, an operation is marked completed only when all its candidates are gone and all
      its mapped facts are there. */
  lemma CompletedOperationsAreDone(w: World, step: Step, id: OperationId)
    requires Inv(w) && Enabled(w, step) && IsPrepared(w.library, id)
    requires IsCompletedIn(After(w, step).library, id)
    ensures var after := After(w, step);
            && (forall c | c in after.library.operations[id].candidates :: !Present(after.tasks, c.task))
            && (forall k | k in after.library.operations[id].mappings :: k in after.library.facts)
  {
    StepKeepsInv(w, step);
    OnlyCompletionCompletes(w, step, id);
    CompletionKeepsCandidates(w, w.process.digest, step.now, id);
  }

  predicate IsCompletedIn(lib: Library, id: OperationId) {
    id in lib.operations && lib.operations[id].status.Completed?
  }

  lemma PreparingIsRefused(lib: Library, id: OperationId, other: OperationId, items: seq<PreparedItem>, now: Time)
    requires IsPrepared(lib, id)
    ensures Prepare(lib, other, items, now).Err?
  {
    assert HasPrepared(lib);
  }

  lemma AbortCompletesNothing(lib: Library, id: OperationId, other: OperationId)
    requires IsPrepared(lib, id)
    ensures !IsCompletedIn(Abort(lib, other), id)
  {
  }

  /** Nobody else is prepared, so whatever is settled is this operation. */
  lemma SameOperation(lib: Library, a: OperationId, b: OperationId)
    requires LibraryValid(lib) && IsPrepared(lib, a) && IsPrepared(lib, b)
    ensures a == b
  {
  }

  lemma OnlyCompletionCompletes(w: World, step: Step, id: OperationId)
    requires Inv(w) && Enabled(w, step) && IsPrepared(w.library, id)
    requires IsCompletedIn(After(w, step).library, id)
    ensures step.CompleteRecovered? || step.CompleteDeleted?
    ensures w.process.id == id
    ensures Complete(w.library, id, w.process.digest, step.now).Ok?
  {
    match step
    case PrepareHeld(now) => PreparingIsRefused(w.library, id, w.process.id, w.process.items, now);
    case FaultAfterPrepare => AbortCompletesNothing(w.library, id, w.process.id);
    case AbortHarmless => AbortCompletesNothing(w.library, id, w.process.id);
    case AbortConflicted => AbortCompletesNothing(w.library, id, w.process.id);
    case CompleteRecovered(_) => SameOperation(w.library, id, w.process.id);
    case CompleteDeleted(_) => SameOperation(w.library, id, w.process.id);
    case _ =>
  }

  lemma CompletionKeepsCandidates(w: World, digest: OperationDigest, now: Time, id: OperationId)
    requires Inv(w) && IsPrepared(w.library, id) && Finished(w, id)
    requires Complete(w.library, id, digest, now).Ok?
    ensures var lib := Complete(w.library, id, digest, now).value;
            id in lib.operations && lib.operations[id].candidates == w.library.operations[id].candidates
            && forall c | c in lib.operations[id].candidates :: !Present(w.tasks, c.task)
  {
    CompleteSettles(w.library, id, digest, now);
  }

  // ---------------------------------------------------------------- torn commits and task writers

  /** The state recovery leaves behind, completion left aside: it does not touch tasks or facts. */
  ghost function Settled(w: World, id: OperationId): World
    requires IsPrepared(w.library, id)
  {
    if CanApply(w, id, true) then Applied(w, id, Everything, Idle) else Aborted(w, id, Idle)
  }

  /** Without any assumption about writers, recovery keeps the archive complete exactly when the
      remaining candidates can still be deleted, or nothing that was deleted depends on a fact that
      only this operation has archived. */
  lemma RecoveryKeepsArchiveExactly(w: World, id: OperationId)
    requires LibraryValid(w.library) && Archived(w) && IsPrepared(w.library, id)
    ensures Archived(Settled(w, id)) <==>
            || CanApply(w, id, true)
            || forall k, p | (k, p) in w.removed ::
                 k in CreatedBy(w.library, id) ==> IsMapped(Abort(w.library, id).operations, k)
  {
    if CanApply(w, id, true) {
      AppliedKeepsArchived(w, id, true, Everything, Idle);
    } else {
      var lib := Abort(w.library, id);
      forall k, p | (k, p) in w.removed
        ensures k in lib.facts <==> (k in CreatedBy(w.library, id) ==> IsMapped(lib.operations, k))
      {
        assert k in w.library.facts;
      }
    }
  }

  /** A finished download, and the finished metadata job of kind `web` that refers to it. */
  datatype Pair = Pair(a: Id, job: WebJob, m: Id, meta: MetaJob) {
    ghost predicate Valid() {
      job.status.Terminal? && meta.status.Terminal? && meta.provenanceSafe && meta.download == Some(a)
    }

    function Tasks(): Tasks {
      HistoryState.Tasks(map[a := job], map[], map[], map[m := meta], {})
    }

    function Candidates(): seq<Candidate> {
      [Candidate(WebTask(a), WebPrint(job), 1), Candidate(MetaTask(m), MetaPrint(meta), 1)]
    }

    function WebRecord(): Payload {
      WebFact(job.status, job.archived)
    }

    function MetaRecord(): Payload {
      MetaFact(meta.status, meta.review, meta.archived)
    }

    function Facts(): map<FactKey, Fact> {
      map[WebKey(a) := Fact(WebRecord(), 0.0), MetaKey(m) := Fact(MetaRecord(), 0.0)]
    }

    function Mappings(): map<FactKey, Mapping> {
      map[WebKey(a) := Mapping(0, WebRecord(), true), MetaKey(m) := Mapping(1, MetaRecord(), true)]
    }

    ghost function Operation(): Operation {
      HistoryCleanup.Operation(Prepared, Candidates(), Mappings(),
                               OperationDigest(Candidates(), Summaries(Facts(), Mappings())), 0.0, 0.0)
    }

    /** Both records are prepared for removal, and nothing is deleted yet. */
    ghost function World(): World {
      HistoryRuns.World(Tasks(), Library(Facts(), map[0 := Operation()]), Ready(0), false, iset{}, iset{})
    }
  }

  lemma PairIsSound(p: Pair)
    ensures Sound(p.Facts(), p.Operation())
  {
    var op := p.Operation();
    assert |op.mappings| == 2;
    forall c, k | c in op.candidates && Promise(c, k).Some? ensures IsArchived(p.Facts(), op, k, Promise(c, k).value) {
      assert c == p.Candidates()[0] || c == p.Candidates()[1];
      assert k == WebKey(p.a) || k == MetaKey(p.m);
    }
  }

  lemma PairCanBeDeleted(p: Pair)
    requires p.Valid()
    ensures Deletable(p.Tasks(), p.Candidates(), false)
    ensures TaskSet(StillThere(p.Tasks(), p.Candidates())) == {WebTask(p.a), MetaTask(p.m)}
  {
    var tasks, candidates := p.Tasks(), p.Candidates();
    forall c | c in candidates ensures Refresh(tasks, c).Fresh? {
      assert c == candidates[0] || c == candidates[1];
    }
    assert candidates[0] in StillThere(tasks, candidates) && candidates[1] in StillThere(tasks, candidates);
    PairIsClosed(p);
  }

  lemma PairIsClosed(p: Pair)
    ensures Closed(p.Tasks(), {WebTask(p.a), MetaTask(p.m)})
  {
  }

  lemma PairSatisfiesInv(p: Pair)
    requires p.Valid()
    ensures Inv(p.World())
    ensures CanApply(p.World(), 0, false)
  {
    PairIsSound(p);
    PairCanBeDeleted(p);
  }

  /** `torn` is what a commit leaves behind that reaches the web database only. */
  ghost predicate TornFrom(p: Pair, torn: World) {
    torn == Applied(p.World(), 0, WebFileOnly, Failed(0, true, true))
  }

  /** What is left then: the download is gone, only the metadata job stands. */
  ghost predicate HalfGone(p: Pair, torn: World) {
    && Inv(torn) && torn.torn
    && torn.library == p.World().library
    && torn.retired == iset{WebTask(p.a)}
    && (WebKey(p.a), p.WebRecord()) in torn.removed
  }

  lemma TornIsAStep(p: Pair, torn: World)
    requires p.Valid() && TornFrom(p, torn)
    ensures Enabled(p.World(), ApplyCommitFails(WebFileOnly, true))
    ensures torn == After(p.World(), ApplyCommitFails(WebFileOnly, true))
    ensures Inv(torn)
  {
    PairSatisfiesInv(p);
    StepKeepsInv(p.World(), ApplyCommitFails(WebFileOnly, true));
  }

  lemma TearingThePair(p: Pair, torn: World)
    requires p.Valid() && TornFrom(p, torn)
    ensures HalfGone(p, torn)
  {
    TornIsAStep(p, torn);
    PairCanBeDeleted(p);
    TornRemovesTheDownload(p, torn, Chosen(p.World(), 0));
  }

  lemma TornRemovesTheDownload(p: Pair, torn: World, chosen: set<TaskId>)
    requires TornFrom(p, torn) && chosen == Chosen(p.World(), 0) == {WebTask(p.a), MetaTask(p.m)}
    ensures torn.torn && torn.retired == iset{WebTask(p.a)} && (WebKey(p.a), p.WebRecord()) in torn.removed
  {
    var gone := Reached(WebFileOnly, chosen);
    assert gone == {WebTask(p.a)} && MetaTask(p.m) in chosen;
    assert Had(p.Tasks(), WebTask(p.a), WebKey(p.a), p.WebRecord());
  }

  /** Why no task writer may run before the recovery of a torn commit: only the web database has
      committed, the metadata job starts again, recovery finds a conflict and aborts, and with that
      the record of the deleted download is gone from both sides. */
  lemma TornCommitThenWriterLosesARecord(p: Pair, torn: World, meta: MetaJob)
    requires p.Valid() && TornFrom(p, torn) && meta.status.Active?
    ensures var tasks := Tasks(map[], map[], map[], map[p.m := meta], {});
            && (forall t | t in torn.retired :: !Present(tasks, t))
            && IsPrepared(torn.library, 0)
            && !Archived(Settled(torn.(tasks := tasks), 0))
  {
    TearingThePair(p, torn);
    WriterThenLosesARecord(p, torn, Tasks(map[], map[], map[], map[p.m := meta], {}));
  }

  lemma WriterThenLosesARecord(p: Pair, torn: World, tasks: Tasks)
    requires HalfGone(p, torn)
    requires p.m in tasks.meta && tasks.meta[p.m].status.Active?
    ensures IsPrepared(torn.library, 0) && !Archived(Settled(torn.(tasks := tasks), 0))
  {
    var w := torn.(tasks := tasks);
    var candidate := p.Candidates()[1];
    assert candidate in p.Candidates() && Refresh(tasks, candidate).Changed?;
    assert WebKey(p.a) in CreatedBy(w.library, 0) && !IsMapped(Abort(w.library, 0).operations, WebKey(p.a));
    assert Archived(w);
    RecoveryKeepsArchiveExactly(w, 0);
  }
}

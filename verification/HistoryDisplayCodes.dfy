/**
 * The display codes of batch items: no fingerprint covers them, so a code that is written between
 * the collection of a batch and its deletion is archived in its earlier form.  Exactly when the
 * archive holds what was deleted, over every run (jav_pilot/history/cleanup.py:138-174, 361-428,
 * 881-1013).
 */
module HistoryDisplayCodes {
  import opened Collections
  import opened HistoryState
  import opened HistoryCleanup
  import opened HistoryRuns
  import opened HistorySettlement
  import opened HistoryOutcomes

  /** The task has an item at this place. */
  ghost predicate HasItem(tasks: Tasks, t: TaskId, b: Id, q: nat) {
    Present(tasks, t) && RecordAt(t, CandidateOf(tasks, t).fingerprint, map[], ItemKey(b, q)).Some?
  }

  /** Every record a cleanup has deleted is archived as it was, display codes included. */
  ghost predicate ArchivedExactly(w: World) {
    forall k, p | (k, p) in w.removed :: k in w.library.facts && w.library.facts[k].payload == p
  }

  predicate SaysCode(facts: map<FactKey, Fact>, b: Id, q: nat, code: string) {
    ItemKey(b, q) in facts && facts[ItemKey(b, q)].payload.ItemFact? && facts[ItemKey(b, q)].payload.code == code
  }

  /** The archived facts of the items of these tasks say what the items say now. */
  ghost predicate CodesAgree(tasks: Tasks, facts: map<FactKey, Fact>, gone: set<TaskId>) {
    forall t, b, q | t in gone && HasItem(tasks, t, b, q) :: SaysCode(facts, b, q, CodeAt(tasks.codes, b, q))
  }

  lemma ItemRecord(t: TaskId, fingerprint: Fingerprint, codes: Codes, b: Id, q: nat)
    ensures var bare, here := RecordAt(t, fingerprint, map[], ItemKey(b, q)), RecordAt(t, fingerprint, codes, ItemKey(b, q));
            && (here.Some? <==> bare.Some?)
            && (here.Some? ==> here.value.ItemFact? && here.value.code == CodeAt(codes, b, q))
  {
  }

  /** Only items have a display code. */
  lemma PinnedIsExact(t: TaskId, fingerprint: Fingerprint, codes: Codes, k: FactKey, p: Payload, fact: Payload)
    requires RecordAt(t, fingerprint, codes, k) == Some(p) && Pinned(fact) == Pinned(p)
    ensures fact == p <==> (k.ItemKey? ==> fact.ItemFact? && fact.code == CodeAt(codes, k.batch, k.position))
  {
  }

  /** Deleting these tasks loses nothing of their records exactly if the codes agree. */
  lemma RecordIsExact(tasks: Tasks, facts: map<FactKey, Fact>, t: TaskId, k: FactKey, p: Payload)
    requires Had(tasks, t, k, p) && k in facts && Pinned(facts[k].payload) == Pinned(p)
    ensures facts[k].payload == p <==>
            (k.ItemKey? ==> HasItem(tasks, t, k.batch, k.position)
                            && SaysCode(facts, k.batch, k.position, CodeAt(tasks.codes, k.batch, k.position)))
  {
    PinnedIsExact(t, CandidateOf(tasks, t).fingerprint, tasks.codes, k, p, facts[k].payload);
    if k.ItemKey? {
      ItemRecord(t, CandidateOf(tasks, t).fingerprint, tasks.codes, k.batch, k.position);
    }
  }

  /** Records of these tasks that are archived up to their codes are archived exactly if the codes agree. */
  lemma RecordsAreExact(tasks: Tasks, facts: map<FactKey, Fact>, gone: set<TaskId>)
    requires forall t, k, p | t in gone && Had(tasks, t, k, p) :: k in facts && Pinned(facts[k].payload) == Pinned(p)
    ensures (forall t, k, p | t in gone && Had(tasks, t, k, p) :: facts[k].payload == p) <==> CodesAgree(tasks, facts, gone)
  {
    forall t, k, p | t in gone && Had(tasks, t, k, p) {
      RecordIsExact(tasks, facts, t, k, p);
    }
    forall t, b, q | t in gone && HasItem(tasks, t, b, q)
      ensures exists p :: Had(tasks, t, ItemKey(b, q), p)
    {
      ItemRecord(t, CandidateOf(tasks, t).fingerprint, tasks.codes, b, q);
      var p := RecordAt(t, CandidateOf(tasks, t).fingerprint, tasks.codes, ItemKey(b, q)).value;
      assert Had(tasks, t, ItemKey(b, q), p);
    }
  }

  // ---------------------------------------------------------------- one deletion

  ghost predicate DeletedExactly(w: World, gone: set<TaskId>) {
    forall t, k, p | t in gone && Had(w.tasks, t, k, p) :: k in w.library.facts && w.library.facts[k].payload == p
  }

  lemma AppliedIsExact(w: World, id: OperationId, e: Effect, process: Process)
    requires id in w.library.operations
    ensures ArchivedExactly(Applied(w, id, e, process)) <==>
            ArchivedExactly(w) && DeletedExactly(w, Reached(e, Chosen(w, id)))
  {
    var after, gone := Applied(w, id, e, process), Reached(e, Chosen(w, id));
    if ArchivedExactly(after) {
      forall t, k, p | t in gone && Had(w.tasks, t, k, p) ensures k in w.library.facts && w.library.facts[k].payload == p {
        assert (k, p) in after.removed;
      }
    }
  }

  lemma GoneIsArchived(w: World, id: OperationId, e: Effect)
    requires LibraryValid(w.library) && CanApply(w, id, true)
    ensures forall t, k, p | t in Reached(e, Chosen(w, id)) && Had(w.tasks, t, k, p) ::
              k in w.library.facts && Pinned(w.library.facts[k].payload) == Pinned(p)
  {
    var bare := w.(removed := iset{});
    AppliedKeepsArchived(bare, id, true, e, Idle);
    forall t, k, p | t in Reached(e, Chosen(w, id)) && Had(w.tasks, t, k, p)
      ensures k in w.library.facts && Pinned(w.library.facts[k].payload) == Pinned(p)
    {
      assert (k, p) in Applied(bare, id, e, Idle).removed;
    }
  }

  /** A deletion of any extent keeps the archive exact if and only if, at that moment, the items it deletes
      have the codes that are archived. */
  lemma DeletionIsExact(w: World, id: OperationId, e: Effect, process: Process)
    requires LibraryValid(w.library) && CanApply(w, id, true)
    ensures ArchivedExactly(Applied(w, id, e, process)) <==>
            ArchivedExactly(w) && CodesAgree(w.tasks, w.library.facts, Reached(e, Chosen(w, id)))
  {
    AppliedIsExact(w, id, e, process);
    GoneIsArchived(w, id, e);
    RecordsAreExact(w.tasks, w.library.facts, Reached(e, Chosen(w, id)));
  }

  // ---------------------------------------------------------------- every run

  /** No step changes a fact; it adds or takes away. */
  ghost predicate FactsRest(before: Library, after: Library) {
    forall k | k in before.facts && k in after.facts :: after.facts[k] == before.facts[k]
  }

  lemma PreparingLetsFactsRest(lib: Library, id: OperationId, items: seq<PreparedItem>, now: Time)
    ensures Prepare(lib, id, items, now).Ok? ==> FactsRest(lib, Prepare(lib, id, items, now).value)
  {
  }

  lemma CompletingLetsFactsRest(lib: Library, id: OperationId, digest: OperationDigest, now: Time)
    ensures Complete(lib, id, digest, now).Ok? ==> Complete(lib, id, digest, now).value.facts == lib.facts
  {
  }

  lemma StepLetsFactsRest(w: World, step: Step)
    requires Enabled(w, step)
    ensures FactsRest(w.library, After(w, step).library)
  {
    if TouchesLibrary(step) {
      TouchingLetsFactsRest(w, step);
    } else {
      LibraryStays(w, step);
    }
  }

  lemma TouchingLetsFactsRest(w: World, step: Step)
    requires Enabled(w, step) && TouchesLibrary(step)
    ensures FactsRest(w.library, After(w, step).library)
  {
    match step
    case PrepareHeld(now) => PreparingLetsFactsRest(w.library, w.process.id, w.process.items, now);
    case CompleteRecovered(now) => CompletingLetsFactsRest(w.library, w.process.id, w.process.digest, now);
    case CompleteDeleted(now) => CompletingLetsFactsRest(w.library, w.process.id, w.process.digest, now);
    case FaultAfterPrepare =>
    case AbortHarmless =>
    case AbortConflicted =>
  }

  lemma RemovedStays(w: World, step: Step)
    requires Enabled(w, step) && !IsApply(step)
    ensures After(w, step).removed == w.removed
  {
  }

  lemma OtherStepIsExact(w: World, step: Step)
    requires Inv(w) && Enabled(w, step) && !IsApply(step)
    ensures ArchivedExactly(After(w, step)) <==> ArchivedExactly(w)
  {
    var after := After(w, step);
    StepKeepsInv(w, step);
    StepLetsFactsRest(w, step);
    RemovedStays(w, step);
    FactsDecide(w, after);
  }

  lemma FactsDecide(w: World, after: World)
    requires Archived(w) && Archived(after) && after.removed == w.removed && FactsRest(w.library, after.library)
    ensures ArchivedExactly(after) <==> ArchivedExactly(w)
  {
    forall k, p | (k, p) in w.removed ensures after.library.facts[k] == w.library.facts[k] {
      assert k in w.library.facts && k in after.library.facts;
    }
  }

  lemma ApplyStepIsExact(w: World, step: Step)
    requires Inv(w) && Enabled(w, step) && IsApply(step)
    ensures ArchivedExactly(After(w, step)) <==>
            ArchivedExactly(w) && CodesAgree(w.tasks, w.library.facts, GoneIn(w, step))
  {
    ApplyIsApplied(w, step);
    DeletionIsExact(w, AppliedId(w, step), EffectOfStep(step), After(w, step).process);
  }

  /** What a deletion in a run deletes has the codes that are archived. */
  ghost predicate CodesAgreeAt(worlds: seq<World>, steps: seq<Step>, j: nat)
    requires IsRun(worlds, steps) && j < |steps| && IsApply(steps[j])
  {
    CodesAgree(worlds[j].tasks, worlds[j].library.facts, GoneAt(worlds, steps, j))
  }

  /** The step `j` keeps the archive exact. */
  ghost predicate StaysExactAt(worlds: seq<World>, steps: seq<Step>, j: nat)
    requires IsRun(worlds, steps) && j < |steps|
  {
    IsApply(steps[j]) ==> CodesAgreeAt(worlds, steps, j)
  }

  lemma StepIsExact(worlds: seq<World>, steps: seq<Step>, j: nat)
    requires IsRun(worlds, steps) && j < |steps|
    ensures ArchivedExactly(worlds[j + 1]) <==> ArchivedExactly(worlds[j]) && StaysExactAt(worlds, steps, j)
  {
    RunStep(worlds, steps, j);
    if IsApply(steps[j]) {
      ApplyStepIsExact(worlds[j], steps[j]);
    } else {
      OtherStepIsExact(worlds[j], steps[j]);
    }
  }

  predicate KeepsAt(holds: seq<bool>, keeps: seq<bool>, j: nat)
    requires j < |keeps| < |holds|
  {
    holds[j + 1] <==> holds[j] && keeps[j]
  }

  lemma {:induction false} HoldsThroughout(holds: seq<bool>, keeps: seq<bool>, n: nat)
    requires n < |holds| == |keeps| + 1 && holds[0]
    requires forall j | 0 <= j < |keeps| :: KeepsAt(holds, keeps, j)
    ensures holds[n] <==> forall j | 0 <= j < n :: keeps[j]
  {
    if n > 0 {
      HoldsThroughout(holds, keeps, n - 1);
      assert KeepsAt(holds, keeps, n - 1);
    }
  }

  ghost function ExactStates(worlds: seq<World>): (r: seq<bool>)
    ensures |r| == |worlds| && forall j | 0 <= j < |r| :: r[j] == ArchivedExactly(worlds[j])
  {
    seq(|worlds|, j requires 0 <= j < |worlds| => ArchivedExactly(worlds[j]))
  }

  ghost function ExactSteps(worlds: seq<World>, steps: seq<Step>): (r: seq<bool>)
    requires IsRun(worlds, steps)
    ensures |r| == |steps| && forall j | 0 <= j < |r| :: r[j] == StaysExactAt(worlds, steps, j)
  {
    seq(|steps|, j requires 0 <= j < |steps| => StaysExactAt(worlds, steps, j))
  }

  lemma StartIsExact(worlds: seq<World>, steps: seq<Step>)
    requires IsRun(worlds, steps)
    ensures ArchivedExactly(worlds[0])
  {
  }

  /** In every run: the archive holds every deleted record exactly if and only if every deletion found the
      codes that were archived. */
  lemma {:induction false} ExactIfCodesAgree(worlds: seq<World>, steps: seq<Step>, n: nat)
    requires IsRun(worlds, steps) && n < |worlds|
    ensures ArchivedExactly(worlds[n]) <==> forall j | 0 <= j < n :: StaysExactAt(worlds, steps, j)
  {
    StartIsExact(worlds, steps);
    var holds, keeps := ExactStates(worlds), ExactSteps(worlds, steps);
    forall j | 0 <= j < |steps| ensures KeepsAt(holds, keeps, j) {
      StepIsExact(worlds, steps, j);
    }
    HoldsThroughout(holds, keeps, n);
  }

  // ---------------------------------------------------------------- from collecting to deleting

  /** The operation `id` was collected in step `i`, prepared in step `m`, and is prepared still in state `j`. */
  ghost predicate IsOperation(worlds: seq<World>, steps: seq<Step>, i: nat, m: nat, j: nat, id: OperationId)
    requires |worlds| == |steps| + 1
  {
    && i < m < j < |worlds|
    && steps[i].Collect? && steps[i].id == id
    && HeldBetween(worlds, i, m, id, steps[i].items)
    && steps[m].PrepareHeld? && !IsPrepared(worlds[m].library, id)
    && (forall k | m < k <= j :: IsPrepared(worlds[k].library, id))
  }

  lemma OnlyPreparingPrepares(w: World, step: Step, id: OperationId)
    requires Inv(w) && Enabled(w, step) && !IsPrepared(w.library, id) && IsPrepared(After(w, step).library, id)
    ensures step.PrepareHeld? && w.process.Holding? && w.process.id == id
    ensures Prepare(w.library, id, w.process.items, step.now) == Ok(After(w, step).library)
  {
    if TouchesLibrary(step) {
      TouchingPrepares(w, step, id);
    } else {
      LibraryStays(w, step);
    }
  }

  lemma TouchingPrepares(w: World, step: Step, id: OperationId)
    requires Inv(w) && Enabled(w, step) && !IsPrepared(w.library, id) && IsPrepared(After(w, step).library, id)
    requires TouchesLibrary(step)
    ensures step.PrepareHeld? && w.process.Holding? && w.process.id == id
    ensures Prepare(w.library, id, w.process.items, step.now) == Ok(After(w, step).library)
  {
    match step
    case PrepareHeld(_) =>
    case CompleteRecovered(now) => CompletingPreparesNothing(w.library, w.process.id, w.process.digest, now, id);
    case CompleteDeleted(now) => CompletingPreparesNothing(w.library, w.process.id, w.process.digest, now, id);
    case FaultAfterPrepare =>
    case AbortHarmless =>
    case AbortConflicted =>
  }

  lemma CompletingPreparesNothing(lib: Library, other: OperationId, digest: OperationDigest, now: Time, id: OperationId)
    requires !IsPrepared(lib, id)
    ensures Complete(lib, other, digest, now).Ok? ==> !IsPrepared(Complete(lib, other, digest, now).value, id)
  {
  }

  lemma HoldingMeansCollected(w: World, step: Step, id: OperationId, items: seq<PreparedItem>)
    requires Enabled(w, step) && After(w, step).process == Holding(id, items)
    ensures step == Collect(id, items) || w.process == Holding(id, items)
  {
  }

  ghost predicate HeldBetween(worlds: seq<World>, i: nat, m: nat, id: OperationId, items: seq<PreparedItem>)
    requires m < |worlds|
  {
    forall k | i < k <= m :: worlds[k].process == Holding(id, items)
  }

  lemma HeldStep(worlds: seq<World>, steps: seq<Step>, j: nat, id: OperationId, items: seq<PreparedItem>)
    requires IsRun(worlds, steps) && j < |steps|
    ensures worlds[j + 1].process == Holding(id, items) ==>
              steps[j] == Collect(id, items) || worlds[j].process == Holding(id, items)
  {
    if worlds[j + 1].process == Holding(id, items) {
      RunStep(worlds, steps, j);
      HoldingMeansCollected(worlds[j], steps[j], id, items);
    }
  }

  function ProcessesOf(worlds: seq<World>): (r: seq<Process>)
    ensures |r| == |worlds| && forall i {:trigger r[i]} | 0 <= i < |r| :: r[i] == worlds[i].process
  {
    seq(|worlds|, i requires 0 <= i < |worlds| => worlds[i].process)
  }

  predicate HeldAt(processes: seq<Process>, steps: seq<Step>, j: nat, held: Process, collect: Step)
    requires j < |steps| < |processes|
  {
    processes[j + 1] == held ==> steps[j] == collect || processes[j] == held
  }

  lemma {:induction false} HeldSince(processes: seq<Process>, steps: seq<Step>, m: nat, held: Process, collect: Step) returns (i: nat)
    requires m < |processes| == |steps| + 1 && processes[m] == held && processes[0] != held
    requires forall j | 0 <= j < |steps| :: HeldAt(processes, steps, j, held, collect)
    ensures i < m && steps[i] == collect && forall k | i < k <= m :: processes[k] == held
  {
    assert HeldAt(processes, steps, m - 1, held, collect);
    i := m - 1;
    if steps[m - 1] != collect {
      i := HeldSince(processes, steps, m - 1, held, collect);
    }
  }

  /** What is held was collected in the run. */
  lemma {:induction false} HeldFrom(worlds: seq<World>, steps: seq<Step>, m: nat, id: OperationId, items: seq<PreparedItem>)
    returns (i: nat)
    requires IsRun(worlds, steps) && m < |worlds| && worlds[m].process == Holding(id, items)
    ensures i < m && steps[i] == Collect(id, items) && HeldBetween(worlds, i, m, id, items)
  {
    var processes := ProcessesOf(worlds);
    assert processes[0] == worlds[0].process == Down;
    forall j | 0 <= j < |steps| ensures HeldAt(processes, steps, j, Holding(id, items), Collect(id, items)) {
      HeldStep(worlds, steps, j, id, items);
    }
    i := HeldSince(processes, steps, m, Holding(id, items), Collect(id, items));
    forall k | i < k <= m ensures worlds[k].process == Holding(id, items) {
      assert processes[k] == worlds[k].process;
    }
  }

  lemma PreparedStep(worlds: seq<World>, steps: seq<Step>, j: nat, id: OperationId)
    requires IsRun(worlds, steps) && j < |steps| && IsPrepared(worlds[j + 1].library, id)
    ensures || IsPrepared(worlds[j].library, id)
            || (steps[j].PrepareHeld? && worlds[j].process.Holding? && worlds[j].process.id == id)
  {
    RunStep(worlds, steps, j);
    if !IsPrepared(worlds[j].library, id) {
      OnlyPreparingPrepares(worlds[j], steps[j], id);
    }
  }

  lemma NothingPreparedAtFirst(worlds: seq<World>, steps: seq<Step>, id: OperationId)
    requires IsRun(worlds, steps)
    ensures !IsPrepared(worlds[0].library, id)
  {
    assert !HasPrepared(worlds[0].library);
  }

  lemma {:induction false} TrueSince(holds: seq<bool>, j: nat) returns (m: nat)
    requires j < |holds| && holds[j] && !holds[0]
    ensures m < j && !holds[m] && forall k | m < k <= j :: holds[k]
  {
    m := j - 1;
    if holds[m] {
      m := TrueSince(holds, m);
    }
  }

  function PreparedStates(worlds: seq<World>, id: OperationId): (r: seq<bool>)
    ensures |r| == |worlds| && forall i {:trigger r[i]} | 0 <= i < |r| :: r[i] == IsPrepared(worlds[i].library, id)
  {
    seq(|worlds|, i requires 0 <= i < |worlds| => IsPrepared(worlds[i].library, id))
  }

  lemma PreparedSince(worlds: seq<World>, steps: seq<Step>, j: nat, id: OperationId) returns (m: nat)
    requires IsRun(worlds, steps) && j < |worlds| && IsPrepared(worlds[j].library, id)
    ensures m < j && !IsPrepared(worlds[m].library, id)
    ensures forall k | m < k <= j :: IsPrepared(worlds[k].library, id)
  {
    NothingPreparedAtFirst(worlds, steps, id);
    var prepared := PreparedStates(worlds, id);
    m := TrueSince(prepared, j);
    forall k | m < k <= j ensures IsPrepared(worlds[k].library, id) {
      assert prepared[k];
    }
  }

  /** Every operation that is prepared in a run was collected in it. */
  lemma OperationBegins(worlds: seq<World>, steps: seq<Step>, j: nat, id: OperationId) returns (i: nat, m: nat)
    requires IsRun(worlds, steps) && j < |worlds| && IsPrepared(worlds[j].library, id)
    ensures IsOperation(worlds, steps, i, m, j, id)
  {
    m := PreparedSince(worlds, steps, j, id);
    assert IsPrepared(worlds[m + 1].library, id);
    PreparedStep(worlds, steps, m, id);
    i := HeldFrom(worlds, steps, m, id, worlds[m].process.items);
  }

  lemma PreparedInRun(worlds: seq<World>, steps: seq<Step>, i: nat, m: nat, j: nat, id: OperationId)
    requires IsRun(worlds, steps) && IsOperation(worlds, steps, i, m, j, id)
    ensures Prepare(worlds[m].library, id, steps[i].items, steps[m].now) == Ok(worlds[m + 1].library)
  {
    RunStep(worlds, steps, m);
    assert worlds[m].process == Holding(id, steps[i].items);
    assert IsPrepared(worlds[m + 1].library, id);
    OnlyPreparingPrepares(worlds[m], steps[m], id);
  }

  lemma PrepareStoresCandidates(lib: Library, id: OperationId, items: seq<PreparedItem>, now: Time, prepared: Library)
    requires Prepare(lib, id, items, now) == Ok(prepared)
    ensures id in prepared.operations && prepared.operations[id].candidates == CandidatesOf(items)
  {
  }

  /** While it is prepared, its candidates and facts are those of the items collected. */
  lemma OperationKeepsItems(worlds: seq<World>, steps: seq<Step>, i: nat, m: nat, j: nat, id: OperationId)
    requires IsRun(worlds, steps) && IsOperation(worlds, steps, i, m, j, id)
    ensures IsPrepared(worlds[j].library, id)
    ensures worlds[j].library.operations[id].candidates == CandidatesOf(steps[i].items)
    ensures RecordsArchived(steps[i].items, worlds[j].library.facts)
  {
    PreparedInRun(worlds, steps, i, m, j, id);
    PrepareStoresCandidates(worlds[m].library, id, steps[i].items, steps[m].now, worlds[m + 1].library);
    PreparedRecords(worlds[m].library, id, steps[i].items, steps[m].now, worlds[m + 1].library);
    RestsWhilePrepared(worlds, steps, m + 1, j, id);
    assert IsPrepared(worlds[j].library, id);
  }

  /** The display codes of the items in `gone` are the ones from before. */
  ghost predicate SameCodes(before: Codes, tasks: Tasks, gone: set<TaskId>) {
    forall t, b, q | t in gone && HasItem(tasks, t, b, q) :: CodeAt(tasks.codes, b, q) == CodeAt(before, b, q)
  }

  lemma CollectedItem(item: PreparedItem, codes: Codes, b: Id, q: nat)
    requires MadeFrom(item, codes) && RecordAt(item.candidate.task, item.candidate.fingerprint, map[], ItemKey(b, q)).Some?
    ensures ItemKey(b, q) in item.records
    ensures item.records[ItemKey(b, q)].ItemFact? && item.records[ItemKey(b, q)].code == CodeAt(codes, b, q)
  {
    ItemRecord(item.candidate.task, item.candidate.fingerprint, codes, b, q);
  }

  lemma {:induction false} ArchivedAt(items: seq<PreparedItem>, codes: Codes, facts: map<FactKey, Fact>, x: nat, b: Id, q: nat)
    requires RecordsArchived(items, facts) && x < |items| && MadeFrom(items[x], codes)
    requires RecordAt(items[x].candidate.task, items[x].candidate.fingerprint, map[], ItemKey(b, q)).Some?
    ensures SaysCode(facts, b, q, CodeAt(codes, b, q))
  {
    CollectedItem(items[x], codes, b, q);
    assert ItemKey(b, q) in items[x].records;
  }

  lemma {:induction false} ArchivedAsCollected(items: seq<PreparedItem>, codes: Codes, facts: map<FactKey, Fact>, c: Candidate, b: Id, q: nat)
    requires RecordsArchived(items, facts) && c in CandidatesOf(items)
    requires forall x | 0 <= x < |items| :: MadeFrom(items[x], codes)
    requires RecordAt(c.task, c.fingerprint, map[], ItemKey(b, q)).Some?
    ensures SaysCode(facts, b, q, CodeAt(codes, b, q))
  {
    var x :| 0 <= x < |items| && CandidatesOf(items)[x] == c;
    ArchivedAt(items, codes, facts, x, b, q);
  }

  lemma {:induction false} CollectedCodes(items: seq<PreparedItem>, codes: Codes, w: World, id: OperationId, gone: set<TaskId>)
    requires IsPrepared(w.library, id) && gone <= Chosen(w, id)
    requires w.library.operations[id].candidates == CandidatesOf(items) && RecordsArchived(items, w.library.facts)
    requires forall x | 0 <= x < |items| :: MadeFrom(items[x], codes)
    ensures CodesAgree(w.tasks, w.library.facts, gone) <==> SameCodes(codes, w.tasks, gone)
  {
    forall t, b, q | t in gone && HasItem(w.tasks, t, b, q) ensures SaysCode(w.library.facts, b, q, CodeAt(codes, b, q)) {
      var c :| c in StillThere(w.tasks, CandidatesOf(items)) && c.task == t;
      assert CandidateOf(w.tasks, t) == c;
      ArchivedAsCollected(items, codes, w.library.facts, c, b, q);
    }
  }

  /** Whatever is deleted while an operation is prepared is deleted for it. */
  lemma AppliedToOperation(w: World, step: Step, id: OperationId)
    requires Inv(w) && Enabled(w, step) && IsApply(step) && IsPrepared(w.library, id)
    ensures AppliedId(w, step) == id && GoneIn(w, step) <= Chosen(w, id)
  {
    AppliedToPrepared(w, step);
    SameOperation(w.library, id, AppliedId(w, step));
    ReachedAreChosen(EffectOfStep(step), Chosen(w, id));
  }

  lemma {:induction false} CollectedItems(w: World, step: Step)
    requires Enabled(w, step) && step.Collect?
    ensures forall x | 0 <= x < |step.items| :: MadeFrom(step.items[x], w.tasks.codes)
  {
  }

  /** A deletion finds the archived codes exactly if they are the ones from when its operation was
      collected. */
  lemma AgreeIfSame(worlds: seq<World>, steps: seq<Step>, i: nat, m: nat, j: nat, id: OperationId)
    requires IsRun(worlds, steps) && IsOperation(worlds, steps, i, m, j, id) && j < |steps| && IsApply(steps[j])
    ensures CodesAgreeAt(worlds, steps, j) <==>
            SameCodes(worlds[i].tasks.codes, worlds[j].tasks, GoneAt(worlds, steps, j))
  {
    RunStep(worlds, steps, j);
    OperationKeepsItems(worlds, steps, i, m, j, id);
    AppliedToOperation(worlds[j], steps[j], id);
    RunStep(worlds, steps, i);
    CollectedItems(worlds[i], steps[i]);
    CollectedCodes(steps[i].items, worlds[i].tasks.codes, worlds[j], id, GoneAt(worlds, steps, j));
  }

  /** What step `j` deletes has the display codes from when it was collected, in step `i`. */
  ghost predicate SameSince(worlds: seq<World>, steps: seq<Step>, i: nat, j: nat)
    requires IsRun(worlds, steps) && i < |worlds| && j < |steps| && IsApply(steps[j])
  {
    SameCodes(worlds[i].tasks.codes, worlds[j].tasks, GoneAt(worlds, steps, j))
  }

  /** If step `j` deletes anything, it has the display codes from when it was collected. */
  ghost predicate DeletesAsCollected(worlds: seq<World>, steps: seq<Step>, j: nat)
    requires IsRun(worlds, steps) && j < |steps|
  {
    IsApply(steps[j]) ==>
      forall i: nat, m: nat, id | IsOperation(worlds, steps, i, m, j, id) :: SameSince(worlds, steps, i, j)
  }

  lemma DeletionBegins(worlds: seq<World>, steps: seq<Step>, j: nat) returns (i: nat, m: nat, id: OperationId)
    requires IsRun(worlds, steps) && j < |steps| && IsApply(steps[j])
    ensures IsOperation(worlds, steps, i, m, j, id)
  {
    RunStep(worlds, steps, j);
    AppliedToPrepared(worlds[j], steps[j]);
    id := AppliedId(worlds[j], steps[j]);
    i, m := OperationBegins(worlds, steps, j, id);
  }

  lemma ExactIfAsCollected(worlds: seq<World>, steps: seq<Step>, j: nat)
    requires IsRun(worlds, steps) && j < |steps|
    ensures StaysExactAt(worlds, steps, j) <==> DeletesAsCollected(worlds, steps, j)
  {
    if IsApply(steps[j]) {
      forall i: nat, m: nat, id | IsOperation(worlds, steps, i, m, j, id)
        ensures CodesAgreeAt(worlds, steps, j) <==> SameSince(worlds, steps, i, j)
      {
        AgreeIfSame(worlds, steps, i, m, j, id);
      }
      var i, m, id := DeletionBegins(worlds, steps, j);
    }
  }

  /** In every run: the archive holds every deleted record exactly, display codes included, if and only if no
      deletion met an item whose code was another one when its operation was collected. */
  lemma ExactIfCodesRest(worlds: seq<World>, steps: seq<Step>, n: nat)
    requires IsRun(worlds, steps) && n < |worlds|
    ensures ArchivedExactly(worlds[n]) <==> forall j | 0 <= j < n :: DeletesAsCollected(worlds, steps, j)
  {
    ExactIfCodesAgree(worlds, steps, n);
    forall j | 0 <= j < n ensures StaysExactAt(worlds, steps, j) <==> DeletesAsCollected(worlds, steps, j) {
      ExactIfAsCollected(worlds, steps, j);
    }
  }

  // ---------------------------------------------------------------- codes that nobody writes

  lemma StepKeepsCodes(w: World, step: Step)
    requires Enabled(w, step) && (step.Write? ==> step.tasks.codes == w.tasks.codes)
    ensures After(w, step).tasks.codes == w.tasks.codes
  {
  }

  function CodesOf(worlds: seq<World>): (r: seq<Codes>)
    ensures |r| == |worlds| && forall i {:trigger r[i]} | 0 <= i < |r| :: r[i] == worlds[i].tasks.codes
  {
    seq(|worlds|, i requires 0 <= i < |worlds| => worlds[i].tasks.codes)
  }

  predicate SameAt(codes: seq<Codes>, k: nat)
    requires k + 1 < |codes|
  {
    codes[k + 1] == codes[k]
  }

  lemma {:induction false} StaysEqual(codes: seq<Codes>, i: nat, j: nat)
    requires i <= j < |codes| && forall k | 0 <= k < j :: SameAt(codes, k)
    ensures codes[j] == codes[i]
  {
    if i < j {
      StaysEqual(codes, i, j - 1);
      assert SameAt(codes, j - 1);
    }
  }

  /** No task writer has changed a display code in the first `n` steps. */
  ghost predicate WritersKeepCodes(worlds: seq<World>, steps: seq<Step>, n: nat)
    requires n <= |steps| < |worlds|
  {
    forall j | 0 <= j < n && steps[j].Write? :: steps[j].tasks.codes == worlds[j].tasks.codes
  }

  lemma CodesRest(worlds: seq<World>, steps: seq<Step>, n: nat, i: nat, j: nat)
    requires IsRun(worlds, steps) && n < |worlds| && WritersKeepCodes(worlds, steps, n) && i <= j <= n
    ensures worlds[j].tasks.codes == worlds[i].tasks.codes
  {
    var codes := CodesOf(worlds);
    forall k | 0 <= k < j ensures SameAt(codes, k) {
      RunStep(worlds, steps, k);
      StepKeepsCodes(worlds[k], steps[k]);
    }
    StaysEqual(codes, i, j);
  }

  lemma SameCodesAreSame(codes: Codes, tasks: Tasks, gone: set<TaskId>)
    requires tasks.codes == codes
    ensures SameCodes(codes, tasks, gone)
  {
  }

  /** As long as no task writer changes a display code, the archive is exact, whatever fails. */
  lemma ExactUnlessWritten(worlds: seq<World>, steps: seq<Step>, n: nat)
    requires IsRun(worlds, steps) && n < |worlds| && WritersKeepCodes(worlds, steps, n)
    ensures ArchivedExactly(worlds[n])
  {
    forall j | 0 <= j < n ensures DeletesAsCollected(worlds, steps, j) {
      KeptCodesAreCollected(worlds, steps, n, j);
    }
    ExactIfCodesRest(worlds, steps, n);
  }

  lemma KeptCodesAreCollected(worlds: seq<World>, steps: seq<Step>, n: nat, j: nat)
    requires IsRun(worlds, steps) && j < n < |worlds| && WritersKeepCodes(worlds, steps, n)
    ensures DeletesAsCollected(worlds, steps, j)
  {
    if IsApply(steps[j]) {
      forall i: nat, m: nat, id | IsOperation(worlds, steps, i, m, j, id) ensures SameSince(worlds, steps, i, j) {
        CodesRest(worlds, steps, n, i, j);
        SameCodesAreSame(worlds[i].tasks.codes, worlds[j].tasks, GoneAt(worlds, steps, j));
      }
    }
  }

  // ---------------------------------------------------------------- a code written in between

  function WithCode(tasks: Tasks, b: Id, q: nat, code: string): Tasks {
    tasks.(codes := tasks.codes[(b, q) := code])
  }

  /** Nothing that apply re-checks depends on a display code. */
  lemma CodesAreNotChecked(tasks: Tasks, b: Id, q: nat, code: string, candidates: seq<Candidate>)
    ensures forall t :: Present(WithCode(tasks, b, q, code), t) <==> Present(tasks, t)
    ensures Deletable(tasks, candidates, false) ==> Deletable(WithCode(tasks, b, q, code), candidates, false)
  {
    var written := WithCode(tasks, b, q, code);
    forall t ensures Present(written, t) <==> Present(tasks, t) {}
    forall c: Candidate ensures Refresh(written, c) == Refresh(tasks, c) {
      RefreshIgnoresCodes(tasks, b, q, code, c);
    }
    assert TaskSet(StillThere(written, candidates)) == TaskSet(StillThere(tasks, candidates));
    if Deletable(tasks, candidates, false) {
      ClosedIgnoresCodes(tasks, b, q, code, TaskSet(StillThere(tasks, candidates)));
    }
  }

  lemma RefreshIgnoresCodes(tasks: Tasks, b: Id, q: nat, code: string, c: Candidate)
    ensures Refresh(WithCode(tasks, b, q, code), c) == Refresh(tasks, c)
  {
    var written := WithCode(tasks, b, q, code);
    assert Present(written, c.task) <==> Present(tasks, c.task);
    if Present(tasks, c.task) {
      assert CandidateOf(written, c.task) == CandidateOf(tasks, c.task);
      assert Removable(written, c.task) <==> Removable(tasks, c.task);
    }
  }

  lemma ClosedIgnoresCodes(tasks: Tasks, b: Id, q: nat, code: string, chosen: set<TaskId>)
    requires Closed(tasks, chosen)
    ensures Closed(WithCode(tasks, b, q, code), chosen)
  {
    forall t | t in chosen && t.WebTask? ensures LinksWithin(WithCode(tasks, b, q, code), chosen, t.id) {
      assert LinksWithin(tasks, chosen, t.id);
    }
  }

  /** The prepared operation `id` can be applied, and one of its candidates has an item at this place. */
  ghost predicate IsAboutToDelete(w: World, id: OperationId, c: Candidate, b: Id, q: nat) {
    && Inv(w) && w.process == Ready(id) && !w.torn && CanApply(w, id, false)
    && c in w.library.operations[id].candidates && RecordAt(c.task, c.fingerprint, map[], ItemKey(b, q)).Some?
  }

  lemma OtherCodeIsWritten(w: World, id: OperationId, c: Candidate, b: Id, q: nat, code: string)
    requires IsAboutToDelete(w, id, c, b, q)
    ensures var write := Write(WithCode(w.tasks, b, q, code));
            Enabled(w, write) && IsAboutToDelete(After(w, write), id, c, b, q)
  {
    var write := Write(WithCode(w.tasks, b, q, code));
    CodesAreNotChecked(w.tasks, b, q, code, w.library.operations[id].candidates);
    StepKeepsInv(w, write);
  }

  lemma WrongCodeIsArchived(w: World, id: OperationId, c: Candidate, b: Id, q: nat)
    requires IsAboutToDelete(w, id, c, b, q) && !SaysCode(w.library.facts, b, q, CodeAt(w.tasks.codes, b, q))
    ensures Enabled(w, ApplyCommits) && !ArchivedExactly(After(w, ApplyCommits))
  {
    ItemIsDeleted(w.tasks, w.library.operations[id].candidates, c, b, q);
    CommitDeletesAll(w, id);
    OneDisagrees(w.tasks, w.library.facts, GoneIn(w, ApplyCommits), c.task, b, q);
    ApplyStepIsExact(w, ApplyCommits);
  }

  lemma CommitDeletesAll(w: World, id: OperationId)
    requires w.process == Ready(id) && CanApply(w, id, false)
    ensures Enabled(w, ApplyCommits) && GoneIn(w, ApplyCommits) == Chosen(w, id)
  {
  }

  lemma OneDisagrees(tasks: Tasks, facts: map<FactKey, Fact>, gone: set<TaskId>, t: TaskId, b: Id, q: nat)
    requires t in gone && HasItem(tasks, t, b, q) && !SaysCode(facts, b, q, CodeAt(tasks.codes, b, q))
    ensures !CodesAgree(tasks, facts, gone)
  {
  }

  lemma ItemIsDeleted(tasks: Tasks, candidates: seq<Candidate>, c: Candidate, b: Id, q: nat)
    requires Deletable(tasks, candidates, false) && c in candidates
    requires RecordAt(c.task, c.fingerprint, map[], ItemKey(b, q)).Some?
    ensures c.task in TaskSet(StillThere(tasks, candidates)) && HasItem(tasks, c.task, b, q)
  {
    assert Refresh(tasks, c).Fresh?;
    assert c in StillThere(tasks, candidates);
  }

  /** In every run that is about to delete a batch with an item: let a task writer correct the display code of
      that item now to anything but what was archived.  Nothing notices, the deletion commits, and the archive
      does not hold the record that was deleted. */
  lemma CodeWrittenInBetween(worlds: seq<World>, steps: seq<Step>, id: OperationId, c: Candidate, b: Id, q: nat, code: string)
    returns (longer: seq<World>, more: seq<Step>)
    requires IsRun(worlds, steps) && IsAboutToDelete(worlds[|steps|], id, c, b, q)
    requires !SaysCode(worlds[|steps|].library.facts, b, q, code)
    ensures IsRun(longer, more) && more == steps + [Write(WithCode(worlds[|steps|].tasks, b, q, code))] + [ApplyCommits]
    ensures !ArchivedExactly(longer[|more|])
  {
    var w := worlds[|steps|];
    var write := Write(WithCode(w.tasks, b, q, code));
    OtherCodeIsWritten(w, id, c, b, q, code);
    WrongCodeIsArchived(After(w, write), id, c, b, q);
    longer, more := RunGoesOn(worlds, steps, write);
    longer, more := RunGoesOn(longer, more, ApplyCommits);
  }

  // ---------------------------------------------------------------- a run that gets there

  /** Whatever can be collected comes to be prepared in some run from an empty library. */
  lemma CollectedIsPrepared(tasks: Tasks, items: seq<PreparedItem>, start: World)
    returns (worlds: seq<World>, steps: seq<Step>)
    requires start == World(tasks, Library(map[], map[]), Down, false, iset{}, iset{})
    requires Enabled(start.(process := Idle), Collect(0, items))
    requires Prepare(start.library, 0, items, 0.0).Ok?
    ensures IsRun(worlds, steps)
    ensures worlds[|steps|] == start.(library := Prepare(start.library, 0, items, 0.0).value, process := Ready(0))
  {
    worlds, steps := StartupIsRun(start);
    worlds, steps := RunGoesOn(worlds, steps, Collect(0, items));
    worlds, steps := RunGoesOn(worlds, steps, PrepareHeld(0.0));
  }

  /** A finished batch of one page with one item. */
  datatype Page = Page(root: Id, outcome: string, code: string) {
    function Batch(): Batch {
      HistoryState.Batch(Some(root), 1, None, None, Terminal(outcome), "", "", map[0 := HistoryState.Item(None, "")])
    }

    function Tasks(): Tasks {
      HistoryState.Tasks(map[], map[root := Batch()], map[(root, 0) := code], map[], {})
    }

    function Candidate(): Candidate {
      HistoryState.Candidate(ChainTask(root), ChainPrint(map[root := Batch()]), 1)
    }

    function Prepared(): PreparedItem {
      PreparedItem(Candidate(), map[BatchKey(root) := BatchFact(root, 1, Terminal(outcome), ""),
                                    ItemKey(root, 0) := ItemFact(root, code, None, "")])
    }
  }

  lemma PageIsComplete(p: Page, rows: map<Id, Batch>)
    requires BatchChain.IsHexId(p.root) && rows == map[p.root := p.Batch()]
    ensures BatchChain.IsCompleteChain(p.root, ChainLinks(rows))
  {
    var row := ToChainRow(p.root, p.Batch());
    assert p.root in rows && rows.Keys == {p.root};
    var links := set b | b in rows :: ToChainRow(b, rows[b]);
    assert row in links;
    assert links == {row};
    assert BatchChain.IsWalk(p.root, [row]);
    assert multiset([row]) == ChainLinks(rows);
  }

  lemma PageIsItsChain(p: Page, batches: map<Id, Batch>, rows: map<Id, Batch>)
    requires batches == map[p.root := p.Batch()] && rows == ChainRows(batches, p.root)
    ensures rows == map[p.root := p.Batch()]
  {
    assert batches[p.root].root == Some(p.root);
    assert rows.Keys == {p.root} && rows[p.root] == p.Batch();
  }

  lemma PageIsFresh(p: Page, tasks: Tasks)
    requires BatchChain.IsHexId(p.root) && tasks == p.Tasks()
    ensures Refresh(tasks, p.Candidate()).Fresh?
  {
    assert p.root in tasks.batches && tasks.batches[p.root].root == Some(p.root);
    var rows := ChainRows(tasks.batches, p.root);
    PageIsItsChain(p, tasks.batches, rows);
    PageIsComplete(p, rows);
  }

  lemma PageIsRecorded(p: Page, item: PreparedItem, codes: Codes)
    requires item == p.Prepared() && codes == map[(p.root, 0) := p.code]
    ensures MadeFrom(item, codes)
  {
    forall k ensures (if k in item.records then Some(item.records[k]) else None) ==
                     RecordAt(item.candidate.task, item.candidate.fingerprint, codes, k)
    {
    }
  }

  lemma PageCanBeCollected(p: Page, idle: World, items: seq<PreparedItem>)
    requires BatchChain.IsHexId(p.root) && items == [p.Prepared()] && idle.tasks == p.Tasks() && idle.process == Idle
    ensures Enabled(idle, Collect(0, items))
  {
    PageIsFresh(p, idle.tasks);
    PageIsRecorded(p, items[0], idle.tasks.codes);
    assert forall c | c in CandidatesOf(items) :: c == p.Candidate();
  }

  lemma OneItemIsPrepared(item: PreparedItem, items: seq<PreparedItem>, nothing: Library)
    requires items == [item] && |item.records| == 2 && nothing == Library(map[], map[])
    ensures Prepare(nothing, 0, items, 0.0).Ok?
    ensures Prepare(nothing, 0, items, 0.0).value.operations[0].candidates == [item.candidate]
  {
    assert items[..0] == [];
    assert FactCount(items) == FactCount([]) + 2;
    assert !HasPrepared(nothing);
    assert CandidatesOf(items) == CandidatesOf([]) + [item.candidate];
  }

  /** Every such batch comes to be prepared in some run, and is about to be deleted then. */
  lemma PageIsReachable(p: Page, items: seq<PreparedItem>, start: World) returns (worlds: seq<World>, steps: seq<Step>)
    requires BatchChain.IsHexId(p.root) && items == [p.Prepared()]
    requires start == World(p.Tasks(), Library(map[], map[]), Down, false, iset{}, iset{})
    ensures IsRun(worlds, steps) && IsAboutToDelete(worlds[|steps|], 0, p.Candidate(), p.root, 0)
    ensures SaysCode(worlds[|steps|].library.facts, p.root, 0, p.code)
  {
    PageCanBeCollected(p, start.(process := Idle), items);
    OneItemIsPrepared(p.Prepared(), items, start.library);
    worlds, steps := CollectedIsPrepared(p.Tasks(), items, start);
    NothingIsLost(worlds, steps, |steps|);
    PageIsAboutToGo(p, worlds[|steps|]);
    PreparedRecords(start.library, 0, items, 0.0, worlds[|steps|].library);
    PageIsArchived(p, items, worlds[|steps|].library.facts);
  }

  lemma PageIsArchived(p: Page, items: seq<PreparedItem>, facts: map<FactKey, Fact>)
    requires items == [p.Prepared()] && RecordsArchived(items, facts)
    ensures SaysCode(facts, p.root, 0, p.code)
  {
    assert ItemKey(p.root, 0) in items[0].records;
  }

  lemma PageIsAboutToGo(p: Page, w: World)
    requires BatchChain.IsHexId(p.root) && Inv(w) && w.tasks == p.Tasks() && w.process == Ready(0) && !w.torn
    requires IsPrepared(w.library, 0) && w.library.operations[0].candidates == [p.Candidate()]
    ensures IsAboutToDelete(w, 0, p.Candidate(), p.root, 0)
  {
    PageCanBeDeleted(p, w.tasks, w.library.operations[0].candidates);
    assert Sound(w.library.facts, w.library.operations[0]);
  }

  lemma PageCanBeDeleted(p: Page, tasks: Tasks, candidates: seq<Candidate>)
    requires BatchChain.IsHexId(p.root) && tasks == p.Tasks() && candidates == [p.Candidate()]
    ensures Deletable(tasks, candidates, false)
  {
    PageIsFresh(p, tasks);
    assert forall c | c in candidates :: c == p.Candidate();
    forall t | t in TaskSet(StillThere(tasks, candidates)) ensures t == ChainTask(p.root) {
      var c :| c in StillThere(tasks, candidates) && c.task == t;
    }
  }

  /** So there is a run whose archive is not exact: a code is corrected between the preparation of a batch and
      its deletion. */
  lemma WrongCodeIsReachable(p: Page, items: seq<PreparedItem>, start: World, code: string)
    returns (worlds: seq<World>, steps: seq<Step>)
    requires BatchChain.IsHexId(p.root) && items == [p.Prepared()] && code != p.code
    requires start == World(p.Tasks(), Library(map[], map[]), Down, false, iset{}, iset{})
    ensures IsRun(worlds, steps) && !ArchivedExactly(worlds[|steps|])
  {
    worlds, steps := PageIsReachable(p, items, start);
    worlds, steps := CodeWrittenInBetween(worlds, steps, 0, p.Candidate(), p.root, 0, code);
  }
}

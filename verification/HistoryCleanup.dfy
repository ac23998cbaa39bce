/**
 * The transactions of a history cleanup (jav_pilot/history/cleanup.py) as functions on the tables:
 * what is prepared, deleted, completed and aborted, and what each of them guarantees on its own.
 */
module HistoryCleanup {
  import opened Collections
  import opened HistoryState

  const MAX_CLEANUP_RECORDS := 10000
  const MAX_RECOVERY_FACTS := 100000
  const MAX_COMPLETED_OPERATIONS := 256

  type OperationId = nat

  datatype Error = Conflict | Invalid

  datatype OperationStatus = Prepared | Completed

  /** A row of the fact mapping of an operation; its key is the fact. */
  datatype Mapping = Mapping(position: nat, digest: Payload, created: bool)

  datatype Summary = Summary(position: nat, fact: Fact)

  datatype OperationDigest = OperationDigest(candidates: seq<Candidate>, facts: map<FactKey, Summary>)

  /** Candidate and mapping rows go with their operation (cascading foreign keys). */
  datatype Operation = Operation(
    status: OperationStatus,
    candidates: seq<Candidate>,
    mappings: map<FactKey, Mapping>,
    digest: OperationDigest,
    createdAt: Time,
    updatedAt: Time)

  datatype Library = Library(facts: map<FactKey, Fact>, operations: map<OperationId, Operation>)

  // ---------------------------------------------------------------- selecting tasks

  function TaskSet(candidates: seq<Candidate>): set<TaskId> {
    set c | c in candidates :: c.task
  }

  function Filter(candidates: seq<Candidate>, keep: Candidate -> bool): (r: seq<Candidate>)
    ensures forall c :: c in r <==> c in candidates && keep(c)
    ensures |r| <= |candidates|
  {
    if candidates == [] then []
    else
      var front := Filter(candidates[..|candidates| - 1], keep);
      var last := candidates[|candidates| - 1];
      if keep(last) then front + [last] else front
  }

  /** Every batch item and every web metadata job that refers to download `id` is being removed too. */
  predicate LinksWithin(tasks: Tasks, chosen: set<TaskId>, id: Id) {
    && (forall b, p | b in tasks.batches && p in tasks.batches[b].items ::
          tasks.batches[b].items[p].job == Some(id) ==>
            tasks.batches[b].root.Some? && ChainTask(tasks.batches[b].root.value) in chosen)
    && (forall m | m in tasks.meta :: tasks.meta[m].download == Some(id) ==> MetaTask(m) in chosen)
  }

  /** A set of tasks that can go without leaving a reference to a missing download. */
  predicate Closed(tasks: Tasks, chosen: set<TaskId>) {
    forall t | t in chosen && t.WebTask? :: LinksWithin(tasks, chosen, t.id)
  }

  function KeepsLinks(tasks: Tasks, chosen: set<TaskId>): Candidate -> bool {
    (c: Candidate) => c.task.WebTask? ==> LinksWithin(tasks, chosen, c.task.id)
  }

  function Linked(tasks: Tasks, candidates: seq<Candidate>): seq<Candidate> {
    Filter(candidates, KeepsLinks(tasks, TaskSet(candidates)))
  }

  /** `_remove_dangling_dependencies` keeps the largest sub-selection that is closed. */
  lemma {:induction false} LinkedIsLargestClosed(tasks: Tasks, candidates: seq<Candidate>)
    ensures Closed(tasks, TaskSet(Linked(tasks, candidates)))
    ensures forall chosen | chosen <= TaskSet(candidates) && Closed(tasks, chosen) ::
              chosen <= TaskSet(Linked(tasks, candidates))
    ensures Closed(tasks, TaskSet(candidates)) <==> TaskSet(Linked(tasks, candidates)) == TaskSet(candidates)
  {
    var all, kept := TaskSet(candidates), TaskSet(Linked(tasks, candidates));
    forall t | t in all && !t.WebTask? ensures t in kept {
      var c :| c in candidates && c.task == t;
      assert c in Linked(tasks, candidates);
    }
    forall id | WebTask(id) in kept ensures LinksWithin(tasks, kept, id) && LinksWithin(tasks, all, id) {
      var c :| c in Linked(tasks, candidates) && c.task == WebTask(id);
    }
    forall chosen, t | chosen <= all && Closed(tasks, chosen) && t in chosen ensures t in kept {
      var c :| c in candidates && c.task == t;
      if t.WebTask? {
        assert LinksWithin(tasks, chosen, t.id);
      }
      assert c in Linked(tasks, candidates);
    }
  }

  // ---------------------------------------------------------------- deleting tasks

  function Delete(tasks: Tasks, gone: set<TaskId>): Tasks {
    tasks.(
      web := tasks.web - (set j | j in tasks.web && WebTask(j) in gone),
      batches := tasks.batches - (set b | b in tasks.batches && InChains(gone, tasks.batches[b])),
      meta := tasks.meta - (set m | m in tasks.meta && MetaTask(m) in gone))
  }

  predicate InChains(gone: set<TaskId>, b: Batch) {
    b.root.Some? && ChainTask(b.root.value) in gone
  }

  /** Deleting removes the chosen tasks with all their rows, and nothing else. */
  lemma DeleteRemovesExactly(tasks: Tasks, gone: set<TaskId>)
    ensures var after := Delete(tasks, gone);
            && (forall t :: Present(after, t) <==> Present(tasks, t) && t !in gone)
            && (forall t | Present(after, t) :: CandidateOf(after, t) == CandidateOf(tasks, t))
            && after.codes == tasks.codes && after.reviews == tasks.reviews
  {
    var after := Delete(tasks, gone);
    forall t ensures Present(after, t) <==> Present(tasks, t) && t !in gone {
      if t.ChainTask? && Present(tasks, t) && t !in gone {
        var b :| b in tasks.batches && tasks.batches[b].root == Some(t.id);
        assert b in after.batches;
      }
    }
    forall t | Present(after, t) ensures CandidateOf(after, t) == CandidateOf(tasks, t) {
      if t.ChainTask? {
        DeleteKeepsOtherChains(tasks, gone, t.id);
      }
    }
  }

  lemma DeleteKeepsOtherChains(tasks: Tasks, gone: set<TaskId>, root: Id)
    ensures ChainTask(root) !in gone ==>
              ChainRows(Delete(tasks, gone).batches, root) == ChainRows(tasks.batches, root)
    ensures ChainTask(root) in gone ==> ChainRows(Delete(tasks, gone).batches, root) == map[]
  {
  }

  /** No surviving batch item and no surviving web metadata job refers to a deleted download. */
  lemma ClosedDeleteLeavesNoDanglingReference(tasks: Tasks, gone: set<TaskId>)
    requires Closed(tasks, gone)
    ensures var after := Delete(tasks, gone);
            && (forall b, p | b in after.batches && p in after.batches[b].items ::
                  after.batches[b].items[p].job.Some? ==>
                    WebTask(after.batches[b].items[p].job.value) !in gone)
            && (forall m | m in after.meta :: after.meta[m].download.Some? ==>
                  WebTask(after.meta[m].download.value) !in gone)
  {
  }

  // ---------------------------------------------------------------- re-checking a prepared operation

  datatype Refreshed = Missing | Changed | Fresh

  /** `_refresh_prepared_candidate`. */
  ghost function Refresh(tasks: Tasks, c: Candidate): Refreshed {
    if !Present(tasks, c.task) then Missing
    else if Removable(tasks, c.task) && CandidateOf(tasks, c.task) == c then Fresh
    else Changed
  }

  ghost function FreshIn(tasks: Tasks): Candidate -> bool {
    (c: Candidate) => Refresh(tasks, c).Fresh?
  }

  ghost function StillThere(tasks: Tasks, candidates: seq<Candidate>): seq<Candidate> {
    Filter(candidates, FreshIn(tasks))
  }

  /** All of `candidates` can be deleted now: none has changed, missing ones are allowed for, and the
      rest are closed under links. */
  ghost predicate Deletable(tasks: Tasks, candidates: seq<Candidate>, allowMissing: bool) {
    && (forall c | c in candidates :: !Refresh(tasks, c).Changed?)
    && (allowMissing || forall c | c in candidates :: !Refresh(tasks, c).Missing?)
    && Closed(tasks, TaskSet(StillThere(tasks, candidates)))
  }

  /** The parts of a deletion that end up on disk when a commit across files stops half way. */
  datatype Effect = Nothing | WebFileOnly | MetadataFileOnly | Everything

  function Reached(e: Effect, chosen: set<TaskId>): set<TaskId> {
    match e
    case Nothing => {}
    case WebFileOnly => set t | t in chosen && !t.MetaTask?
    case MetadataFileOnly => set t | t in chosen && t.MetaTask?
    case Everything => chosen
  }

  /** Deleting other tasks does not get in the way of a candidate: of the rows it is checked against,
      only downloads can disappear, and a missing download is not active. */
  lemma DeleteKeepsFresh(tasks: Tasks, gone: set<TaskId>, c: Candidate)
    requires !Refresh(tasks, c).Changed?
    ensures Refresh(Delete(tasks, gone), c) == if c.task in gone then Missing else Refresh(tasks, c)
  {
    DeleteRemovesExactly(tasks, gone);
    if c.task.ChainTask? && Present(tasks, c.task) && c.task !in gone {
      DeleteKeepsOtherChains(tasks, gone, c.task.id);
      assert Removable(Delete(tasks, gone), c.task);
    }
  }

  lemma {:induction false} StillThereAfterDelete(tasks: Tasks, gone: set<TaskId>, candidates: seq<Candidate>)
    requires forall c | c in candidates :: !Refresh(tasks, c).Changed?
    ensures forall c | c in candidates :: !Refresh(Delete(tasks, gone), c).Changed?
    ensures TaskSet(StillThere(Delete(tasks, gone), candidates)) == TaskSet(StillThere(tasks, candidates)) - gone
  {
    var before, after := StillThere(tasks, candidates), StillThere(Delete(tasks, gone), candidates);
    forall c | c in candidates
      ensures Refresh(Delete(tasks, gone), c) == if c.task in gone then Missing else Refresh(tasks, c)
    {
      DeleteKeepsFresh(tasks, gone, c);
    }
    assert forall c :: c in after <==> c in before && c.task !in gone;
  }

  /** Whatever part of a deletion reached the disk, the rest can still be deleted afterwards, provided
      nobody has written in between. */
  lemma {:induction false} RestStillDeletable(tasks: Tasks, candidates: seq<Candidate>, allowMissing: bool, e: Effect)
    requires Deletable(tasks, candidates, allowMissing)
    ensures var chosen := TaskSet(StillThere(tasks, candidates));
            var after := Delete(tasks, Reached(e, chosen));
            && Deletable(after, candidates, true)
            && TaskSet(StillThere(after, candidates)) == chosen - Reached(e, chosen)
  {
    var chosen := TaskSet(StillThere(tasks, candidates));
    var gone := Reached(e, chosen);
    StillThereAfterDelete(tasks, gone, candidates);
    RestStaysClosed(tasks, chosen, e);
  }

  lemma RestStaysClosed(tasks: Tasks, chosen: set<TaskId>, e: Effect)
    requires Closed(tasks, chosen)
    ensures Closed(Delete(tasks, Reached(e, chosen)), chosen - Reached(e, chosen))
  {
    var rest := chosen - Reached(e, chosen);
    forall t | t in rest && t.WebTask? ensures LinksWithin(Delete(tasks, Reached(e, chosen)), rest, t.id) {
      assert LinksWithin(tasks, chosen, t.id);
    }
  }

  // ---------------------------------------------------------------- the ledger

  /** A collected candidate with the facts that would replace its records. */
  datatype PreparedItem = PreparedItem(candidate: Candidate, records: map<FactKey, Payload>)

  datatype Placed = Placed(position: nat, payload: Payload)

  function Keys(items: seq<PreparedItem>): set<FactKey> {
    if items == [] then {} else Keys(items[..|items| - 1]) + items[|items| - 1].records.Keys
  }

  /** The last item that archives `k`, and what it archives. */
  function PlaceOf(items: seq<PreparedItem>, k: FactKey): (placed: Placed)
    requires k in Keys(items)
    ensures placed.position < |items|
    ensures k in items[placed.position].records && items[placed.position].records[k] == placed.payload
  {
    var n := |items| - 1;
    if k in items[n].records then Placed(n, items[n].records[k]) else PlaceOf(items[..n], k)
  }

  ghost function Placements(items: seq<PreparedItem>): (placements: map<FactKey, Placed>)
    ensures placements.Keys == Keys(items)
    ensures forall k | k in placements :: placements[k] == PlaceOf(items, k)
  {
    MapOf(Keys(items), (k: FactKey) requires k in Keys(items) => PlaceOf(items, k))
  }

  function FactCount(items: seq<PreparedItem>): nat {
    if items == [] then 0 else FactCount(items[..|items| - 1]) + |items[|items| - 1].records|
  }

  /** No task and no fact occurs twice, as the keys of the candidate and mapping tables demand. */
  predicate Unambiguous(items: seq<PreparedItem>) {
    forall i, j | 0 <= i < j < |items| ::
      items[i].candidate.task != items[j].candidate.task && items[i].records.Keys !! items[j].records.Keys
  }

  lemma {:induction false} KeysAreAll(items: seq<PreparedItem>, i: nat)
    requires i < |items|
    ensures items[i].records.Keys <= Keys(items)
  {
    if i < |items| - 1 {
      KeysAreAll(items[..|items| - 1], i);
    }
  }

  lemma {:induction false} PlacedByItsItem(items: seq<PreparedItem>, i: nat, k: FactKey)
    requires Unambiguous(items) && i < |items| && k in items[i].records
    ensures k in Placements(items) && Placements(items)[k] == Placed(i, items[i].records[k])
  {
    KeysAreAll(items, i);
  }

  function CandidatesOf(items: seq<PreparedItem>): (r: seq<Candidate>)
    ensures |r| == |items| && forall i | 0 <= i < |r| :: r[i] == items[i].candidate
  {
    if items == [] then []
    else CandidatesOf(items[..|items| - 1]) + [items[|items| - 1].candidate]
  }

  /** What the operation digest covers of the mapped facts. */
  ghost function Summaries(facts: map<FactKey, Fact>, mappings: map<FactKey, Mapping>): (r: map<FactKey, Summary>)
    ensures r.Keys == mappings.Keys * facts.Keys
    ensures forall k | k in r :: r[k] == Summary(mappings[k].position, facts[k])
  {
    MapOf(mappings.Keys * facts.Keys, (k: FactKey) requires k in mappings && k in facts =>
            Summary(mappings[k].position, facts[k]))
  }

  predicate HasPrepared(lib: Library) {
    exists o :: o in lib.operations && lib.operations[o].status.Prepared?
  }

  /** A fact that is already archived must say the same as the one to be archived now. */
  ghost predicate FactsAgree(facts: map<FactKey, Fact>, placements: map<FactKey, Placed>) {
    forall k | k in placements && k in facts :: facts[k].payload == placements[k].payload
  }

  ghost function WithFacts(facts: map<FactKey, Fact>, placements: map<FactKey, Placed>, now: Time): (r: map<FactKey, Fact>)
    ensures r.Keys == facts.Keys + placements.Keys
    ensures forall k | k in r :: r[k] == if k in facts then facts[k] else Fact(placements[k].payload, now)
  {
    MapOf(placements.Keys, (k: FactKey) requires k in placements => Fact(placements[k].payload, now)) + facts
  }

  ghost function NewMappings(facts: map<FactKey, Fact>, placements: map<FactKey, Placed>): (r: map<FactKey, Mapping>)
    ensures r.Keys == placements.Keys
    ensures forall k | k in r ::
              r[k] == Mapping(placements[k].position,
                              if k in facts then facts[k].payload else placements[k].payload,
                              k !in facts)
  {
    MapOf(placements.Keys, (k: FactKey) requires k in placements =>
            Mapping(placements[k].position,
                    if k in facts then facts[k].payload else placements[k].payload,
                    k !in facts))
  }

  ghost function NewOperation(facts: map<FactKey, Fact>, items: seq<PreparedItem>, now: Time): Operation {
    var mappings := NewMappings(facts, Placements(items));
    Operation(Prepared, CandidatesOf(items), mappings,
              OperationDigest(CandidatesOf(items), Summaries(WithFacts(facts, Placements(items), now), mappings)),
              now, now)
  }

  /** `_prepare_operation`: archive the facts and write the operation, or change nothing. */
  ghost function Prepare(lib: Library, id: OperationId, items: seq<PreparedItem>, now: Time): Result<Library, Error> {
    if |items| > MAX_CLEANUP_RECORDS || FactCount(items) > MAX_RECOVERY_FACTS then Err(Invalid)
    else if !FactsAgree(lib.facts, Placements(items)) then Err(Conflict)
    else if !Unambiguous(items) || id in lib.operations || HasPrepared(lib) then Err(Conflict)
    else Ok(Library(WithFacts(lib.facts, Placements(items), now),
                    lib.operations[id := NewOperation(lib.facts, items, now)]))
  }

  /** `_load_prepared_operation`: the ledger row, its candidates and the mapped facts still agree with
      the digests taken when the operation was prepared. */
  ghost predicate Loads(lib: Library, id: OperationId) {
    id in lib.operations && Intact(lib.facts, lib.operations[id])
  }

  ghost predicate Intact(facts: map<FactKey, Fact>, op: Operation) {
    && op.status.Prepared?
    && |op.candidates| <= MAX_CLEANUP_RECORDS
    && |op.mappings| <= MAX_RECOVERY_FACTS
    && (forall k | k in op.mappings ::
          && op.mappings[k].position < |op.candidates|
          && k in facts
          && facts[k].payload == op.mappings[k].digest)
    && op.digest == OperationDigest(op.candidates, Summaries(facts, op.mappings))
  }

  function CreatedBy(lib: Library, id: OperationId): set<FactKey> {
    if id in lib.operations
    then set k | k in lib.operations[id].mappings && lib.operations[id].mappings[k].created
    else {}
  }

  predicate IsMapped(operations: map<OperationId, Operation>, k: FactKey) {
    exists o :: o in operations && k in operations[o].mappings
  }

  /** `_abort_prepared_operation`: drop the operation if it is still prepared, and the facts it created
      unless another operation maps them. */
  function Abort(lib: Library, id: OperationId): Library {
    var operations := if id in lib.operations && lib.operations[id].status.Prepared?
                      then lib.operations - {id} else lib.operations;
    Library(lib.facts - (set k | k in CreatedBy(lib, id) && !IsMapped(operations, k)), operations)
  }

  predicate Newer(operations: map<OperationId, Operation>, a: OperationId, b: OperationId)
    requires a in operations && b in operations
  {
    operations[a].updatedAt > operations[b].updatedAt
    || (operations[a].updatedAt == operations[b].updatedAt && a > b)
  }

  function OtherCompleted(operations: map<OperationId, Operation>, keep: OperationId): set<OperationId> {
    set o | o in operations && o != keep && operations[o].status.Completed?
  }

  /** The completed operations that fall out of the window of the most recent ones. */
  function StaleOperations(operations: map<OperationId, Operation>, keep: OperationId): set<OperationId> {
    set o | o in OtherCompleted(operations, keep) &&
      |set n | n in OtherCompleted(operations, keep) && Newer(operations, n, o)| >= MAX_COMPLETED_OPERATIONS - 1
  }

  /** `_complete_prepared_operation`. */
  ghost function Complete(lib: Library, id: OperationId, expected: OperationDigest, now: Time): Result<Library, Error> {
    if id !in lib.operations || lib.operations[id].digest != expected then Err(Conflict)
    else if lib.operations[id].status.Completed? then Ok(lib)
    else if !Loads(lib, id) then Err(Conflict)
    else
      var marked := lib.operations[id := lib.operations[id].(status := Completed, updatedAt := now)];
      Ok(lib.(operations := marked - StaleOperations(marked, id)))
  }

  // ---------------------------------------------------------------- what the ledger keeps true

  /** The archive holds a fact for every record of every candidate, the same up to display codes. */
  ghost predicate Archives(facts: map<FactKey, Fact>, op: Operation) {
    forall c, k | c in op.candidates && Promise(c, k).Some? :: IsArchived(facts, op, k, Promise(c, k).value)
  }

  predicate IsArchived(facts: map<FactKey, Fact>, op: Operation, k: FactKey, promised: Payload) {
    k in op.mappings && k in facts && Pinned(facts[k].payload) == promised
  }

  /** A mapped fact exists (a restricting foreign key). */
  ghost predicate MappedFactsExist(lib: Library) {
    forall o, k | o in lib.operations && k in lib.operations[o].mappings :: k in lib.facts
  }

  /** At most one operation is prepared (a partial unique index). */
  ghost predicate OnePrepared(operations: map<OperationId, Operation>) {
    forall o, p | o in operations && p in operations ::
      operations[o].status.Prepared? && operations[p].status.Prepared? ==> o == p
  }

  ghost predicate Sound(facts: map<FactKey, Fact>, op: Operation) {
    op.status.Prepared? ==> Intact(facts, op) && Archives(facts, op)
  }

  ghost predicate LibraryValid(lib: Library) {
    && MappedFactsExist(lib)
    && OnePrepared(lib.operations)
    && forall o | o in lib.operations :: Sound(lib.facts, lib.operations[o])
  }

  /** The facts of every item were made from the rows its candidate was taken from. */
  ghost predicate Collected(items: seq<PreparedItem>) {
    forall i | 0 <= i < |items| :: FromItsRows(items[i])
  }

  ghost predicate FromItsRows(item: PreparedItem) {
    exists codes :: MadeFrom(item, codes)
  }

  ghost predicate MadeFrom(item: PreparedItem, codes: Codes) {
    AreRecordsOf(item.records, item.candidate, codes)
  }

  lemma {:induction false} KeysCount(items: seq<PreparedItem>)
    ensures |Keys(items)| <= FactCount(items)
  {
    if items != [] {
      KeysCount(items[..|items| - 1]);
      assert |items[|items| - 1].records.Keys| == |items[|items| - 1].records|;
    }
  }

  lemma {:induction false} NewOperationIsIntact(facts: map<FactKey, Fact>, items: seq<PreparedItem>, now: Time)
    requires Unambiguous(items)
    requires |items| <= MAX_CLEANUP_RECORDS && FactCount(items) <= MAX_RECOVERY_FACTS
    ensures Intact(WithFacts(facts, Placements(items), now), NewOperation(facts, items, now))
  {
    var op := NewOperation(facts, items, now);
    KeysCount(items);
    assert |op.mappings| == |op.mappings.Keys| == |Keys(items)|;
  }

  lemma {:induction false} NewOperationArchives(facts: map<FactKey, Fact>, items: seq<PreparedItem>, now: Time, i: nat, k: FactKey)
    requires Collected(items) && Unambiguous(items) && FactsAgree(facts, Placements(items)) && i < |items|
    requires Promise(items[i].candidate, k).Some?
    ensures IsArchived(WithFacts(facts, Placements(items), now), NewOperation(facts, items, now), k,
                       Promise(items[i].candidate, k).value)
  {
    assert FromItsRows(items[i]);
    var codes :| MadeFrom(items[i], codes);
    RecordsKeepPromise(items[i].records, items[i].candidate, codes, k);
    PlacedByItsItem(items, i, k);
  }

  lemma {:induction false} NewOperationIsSound(facts: map<FactKey, Fact>, items: seq<PreparedItem>, now: Time)
    requires Collected(items) && Unambiguous(items) && FactsAgree(facts, Placements(items))
    requires |items| <= MAX_CLEANUP_RECORDS && FactCount(items) <= MAX_RECOVERY_FACTS
    ensures Sound(WithFacts(facts, Placements(items), now), NewOperation(facts, items, now))
  {
    NewOperationIsIntact(facts, items, now);
    NewOperationArchivesAll(facts, items, now);
  }

  lemma {:induction false} NewOperationArchivesAll(facts: map<FactKey, Fact>, items: seq<PreparedItem>, now: Time)
    requires Collected(items) && Unambiguous(items) && FactsAgree(facts, Placements(items))
    ensures Archives(WithFacts(facts, Placements(items), now), NewOperation(facts, items, now))
  {
    var op := NewOperation(facts, items, now);
    forall c, k | c in op.candidates && Promise(c, k).Some?
      ensures IsArchived(WithFacts(facts, Placements(items), now), op, k, Promise(c, k).value)
    {
      var i :| 0 <= i < |items| && op.candidates[i] == c;
      NewOperationArchives(facts, items, now, i, k);
    }
  }

  /** An operation only looks at the facts it maps. */
  lemma SoundOnMappedFacts(facts: map<FactKey, Fact>, more: map<FactKey, Fact>, op: Operation)
    requires Sound(facts, op)
    requires forall k | k in op.mappings && k in facts :: k in more && more[k] == facts[k]
    ensures Sound(more, op)
  {
    if op.status.Prepared? {
      assert Summaries(more, op.mappings) == Summaries(facts, op.mappings);
      forall c, k | c in op.candidates && Promise(c, k).Some? ensures IsArchived(more, op, k, Promise(c, k).value) {
        assert IsArchived(facts, op, k, Promise(c, k).value);
      }
    }
  }

  lemma {:induction false} PrepareKeepsLibraryValid(lib: Library, id: OperationId, items: seq<PreparedItem>, now: Time)
    requires LibraryValid(lib) && Collected(items) && Prepare(lib, id, items, now).Ok?
    ensures LibraryValid(Prepare(lib, id, items, now).value)
  {
    var after := Prepare(lib, id, items, now).value;
    NewOperationIsSound(lib.facts, items, now);
    NewLedger(lib, id, after.facts, NewOperation(lib.facts, items, now));
  }

  /** Adding one prepared operation to a ledger without any, with its facts. */
  lemma NewLedger(lib: Library, id: OperationId, stored: map<FactKey, Fact>, op: Operation)
    requires LibraryValid(lib) && !HasPrepared(lib) && id !in lib.operations
    requires stored.Keys == lib.facts.Keys + op.mappings.Keys
    requires Sound(stored, op)
    ensures LibraryValid(Library(stored, lib.operations[id := op]))
  {
    forall o | o in lib.operations ensures lib.operations[o].status.Completed? {
      NobodyPrepared(lib, o);
    }
  }

  lemma NobodyPrepared(lib: Library, o: OperationId)
    requires !HasPrepared(lib) && o in lib.operations
    ensures lib.operations[o].status.Completed?
  {
  }

  /** What a successful prepare leaves behind: a valid library in which the operation is the prepared
      one, and no older fact has changed. */
  ghost predicate Grown(lib: Library, id: OperationId, items: seq<PreparedItem>, after: Library) {
    && LibraryValid(after)
    && Loads(after, id)
    && after.operations[id].candidates == CandidatesOf(items)
    && CreatedBy(after, id) !! lib.facts.Keys
    && (forall k | k in lib.facts :: k in after.facts && after.facts[k] == lib.facts[k])
  }

  lemma {:induction false} PrepareGrows(lib: Library, id: OperationId, items: seq<PreparedItem>, now: Time)
    requires LibraryValid(lib) && Collected(items) && Prepare(lib, id, items, now).Ok?
    ensures Grown(lib, id, items, Prepare(lib, id, items, now).value)
  {
    PrepareKeepsLibraryValid(lib, id, items, now);
    NewOperationIsSound(lib.facts, items, now);
  }

  /** Every record of every item is in the archive then. */
  lemma {:induction false} RecordsAreStored(facts: map<FactKey, Fact>, items: seq<PreparedItem>, now: Time, i: nat, k: FactKey)
    requires FactsAgree(facts, Placements(items)) && Unambiguous(items)
    requires i < |items| && k in items[i].records
    ensures var stored := WithFacts(facts, Placements(items), now);
            k in stored && stored[k].payload == items[i].records[k]
  {
    PlacedByItsItem(items, i, k);
  }

  /** Aborting right after preparing gives back exactly the library from before. */
  lemma {:induction false} AbortUndoesPrepare(lib: Library, id: OperationId, items: seq<PreparedItem>, now: Time)
    requires LibraryValid(lib) && Prepare(lib, id, items, now).Ok?
    ensures Abort(Prepare(lib, id, items, now).value, id) == lib
  {
    AbortDropsWhatWasAdded(lib, id, NewOperation(lib.facts, items, now), WithFacts(lib.facts, Placements(items), now));
  }

  lemma AbortDropsWhatWasAdded(lib: Library, id: OperationId, op: Operation, stored: map<FactKey, Fact>)
    requires MappedFactsExist(lib) && id !in lib.operations && op.status.Prepared?
    requires stored.Keys == lib.facts.Keys + op.mappings.Keys
    requires forall k | k in lib.facts :: stored[k] == lib.facts[k]
    requires forall k | k in op.mappings :: op.mappings[k].created <==> k !in lib.facts
    ensures Abort(Library(stored, lib.operations[id := op]), id) == lib
  {
    var after := Library(stored, lib.operations[id := op]);
    var undone := Abort(after, id);
    assert undone.operations == lib.operations;
    forall k | k in stored ensures k in undone.facts <==> k in lib.facts {
      if k !in lib.facts {
        assert k in CreatedBy(after, id) && !IsMapped(lib.operations, k);
      }
    }
    assert undone.facts == lib.facts;
  }

  lemma AbortKeepsLibraryValid(lib: Library, id: OperationId)
    requires LibraryValid(lib)
    ensures LibraryValid(Abort(lib, id))
    ensures id in lib.operations && lib.operations[id].status.Prepared? ==> !HasPrepared(Abort(lib, id))
    ensures forall k | k in lib.facts && k !in CreatedBy(lib, id) ::
              k in Abort(lib, id).facts && Abort(lib, id).facts[k] == lib.facts[k]
  {
    var after := Abort(lib, id);
    forall o, k | o in after.operations && k in after.operations[o].mappings
      ensures k in after.facts && after.facts[k] == lib.facts[k]
    {
      assert k in lib.operations[o].mappings;
      assert IsMapped(after.operations, k);
    }
    forall o | o in after.operations ensures Sound(after.facts, after.operations[o]) {
      assert Sound(lib.facts, lib.operations[o]);
      SoundOnMappedFacts(lib.facts, after.facts, after.operations[o]);
    }
  }

  lemma CompleteSettles(lib: Library, id: OperationId, expected: OperationDigest, now: Time)
    requires LibraryValid(lib) && Complete(lib, id, expected, now).Ok?
    ensures var after := Complete(lib, id, expected, now).value;
            && LibraryValid(after)
            && after.facts == lib.facts
            && id in after.operations && after.operations[id].status.Completed?
            && (lib.operations[id].status.Prepared? ==> !HasPrepared(after))
  {
    var after := Complete(lib, id, expected, now).value;
    forall o | o in after.operations ensures Sound(after.facts, after.operations[o]) {
      assert o == id || after.operations[o] == lib.operations[o];
    }
  }

  // ---------------------------------------------------------------- trimming completed operations

  lemma {:induction false} OldestOf(operations: map<OperationId, Operation>, s: set<OperationId>) returns (oldest: OperationId)
    requires s != {} && s <= operations.Keys
    ensures oldest in s && forall o | o in s && o != oldest :: Newer(operations, o, oldest)
  {
    var some :| some in s;
    oldest := some;
    if s != {some} {
      var other := OldestOf(operations, s - {some});
      if !Newer(operations, other, some) {
        oldest := other;
      }
      forall o | o in s && o != oldest ensures Newer(operations, o, oldest) {
        assert o == some || o == other || Newer(operations, o, other);
      }
    }
  }

  /** Completing keeps at most the allowed number of completed operations, and whatever is trimmed is
      older than everything kept besides the operation just completed. */
  lemma CompleteBoundsLedger(lib: Library, id: OperationId, now: Time)
    requires LibraryValid(lib) && Loads(lib, id)
    ensures var after := Complete(lib, id, lib.operations[id].digest, now);
            && after.Ok?
            && |OtherCompleted(after.value.operations, id)| <= MAX_COMPLETED_OPERATIONS - 1
            && (forall gone, kept | gone in lib.operations && gone !in after.value.operations
                                 && kept in OtherCompleted(after.value.operations, id) ::
                  Newer(lib.operations, kept, gone))
  {
    var marked := lib.operations[id := lib.operations[id].(status := Completed, updatedAt := now)];
    var after := Complete(lib, id, lib.operations[id].digest, now).value;
    var kept := OtherCompleted(after.operations, id);
    assert kept == OtherCompleted(marked, id) - StaleOperations(marked, id);
    FewAreKept(marked, id, kept);
    forall a, b | a in StaleOperations(marked, id) && b in kept ensures Newer(lib.operations, b, a) {
      KeptIsNewer(marked, id, a, b);
    }
  }

  lemma FewAreKept(operations: map<OperationId, Operation>, id: OperationId, kept: set<OperationId>)
    requires kept == OtherCompleted(operations, id) - StaleOperations(operations, id)
    ensures |kept| <= MAX_COMPLETED_OPERATIONS - 1
  {
    if |kept| > MAX_COMPLETED_OPERATIONS - 1 {
      var oldest := OldestOf(operations, kept);
      var newer := set n | n in OtherCompleted(operations, id) && Newer(operations, n, oldest);
      SubsetSize(kept - {oldest}, newer);
    }
  }

  lemma KeptIsNewer(operations: map<OperationId, Operation>, id: OperationId, gone: OperationId, kept: OperationId)
    requires gone in StaleOperations(operations, id)
    requires kept in OtherCompleted(operations, id) && kept !in StaleOperations(operations, id)
    ensures Newer(operations, kept, gone)
  {
    if !Newer(operations, kept, gone) {
      SubsetSize(set n | n in OtherCompleted(operations, id) && Newer(operations, n, gone),
                 set n | n in OtherCompleted(operations, id) && Newer(operations, n, kept));
    }
  }
}

/**
 * The loops of the cleanup (jav_pilot/history/cleanup.py), each proved to compute the function that
 * specifies it: rejecting dangling dependencies until none is left, re-checking a candidate, deleting
 * one by one, storing facts one by one, and re-reading a prepared operation.
 */
module HistoryLifecycle {
  import opened Collections
  import opened HistoryState
  import opened HistoryCleanup
  import opened HistoryRuns
  import BatchChain

  // ---------------------------------------------------------------- filtering in a loop

  lemma {:induction false} FilterAgrees(candidates: seq<Candidate>, f: Candidate -> bool, g: Candidate -> bool)
    requires forall c | c in candidates :: f(c) == g(c)
    ensures Filter(candidates, f) == Filter(candidates, g)
  {
    if candidates != [] {
      FilterAgrees(candidates[..|candidates| - 1], f, g);
    }
  }

  lemma {:induction false} FilterAll(candidates: seq<Candidate>, f: Candidate -> bool)
    requires forall c | c in candidates :: f(c)
    ensures Filter(candidates, f) == candidates
  {
    if candidates != [] {
      FilterAll(candidates[..|candidates| - 1], f);
    }
  }

  lemma {:induction false} FilterStrict(candidates: seq<Candidate>, f: Candidate -> bool, c: Candidate)
    requires c in candidates && !f(c)
    ensures |Filter(candidates, f)| < |candidates|
  {
    var n := |candidates| - 1;
    if f(candidates[n]) {
      assert candidates == candidates[..n] + [candidates[n]];
      FilterStrict(candidates[..n], f, c);
    }
  }

  lemma FilterNext(candidates: seq<Candidate>, f: Candidate -> bool, i: nat)
    requires i < |candidates|
    ensures Filter(candidates[..i + 1], f) ==
            if f(candidates[i]) then Filter(candidates[..i], f) + [candidates[i]] else Filter(candidates[..i], f)
  {
    assert candidates[..i + 1][..i] == candidates[..i];
  }

  // ---------------------------------------------------------------- links

  predicate Dangles(tasks: Tasks, candidates: seq<Candidate>, c: Candidate) {
    c.task.WebTask? && !LinksWithin(tasks, TaskSet(candidates), c.task.id)
  }

  function NotAmong(rejected: set<TaskId>): Candidate -> bool {
    (c: Candidate) => c.task !in rejected
  }

  /** The tasks of the candidates whose links are not all among the candidates. */
  ghost predicate AreDangling(tasks: Tasks, current: seq<Candidate>, n: nat, rejected: set<TaskId>)
    requires n <= |current|
  {
    forall t :: t in rejected <==> exists j :: 0 <= j < n && Dangles(tasks, current, current[j]) && current[j].task == t
  }

  method FindDangling(tasks: Tasks, current: seq<Candidate>) returns (rejected: set<TaskId>)
    ensures AreDangling(tasks, current, |current|, rejected)
  {
    rejected := {};
    for i := 0 to |current|
      invariant AreDangling(tasks, current, i, rejected)
    {
      if Dangles(tasks, current, current[i]) {
        rejected := rejected + {current[i].task};
      }
    }
  }

  method DropRejected(current: seq<Candidate>, rejected: set<TaskId>) returns (next: seq<Candidate>)
    ensures next == Filter(current, NotAmong(rejected))
  {
    next := [];
    for i := 0 to |current|
      invariant next == Filter(current[..i], NotAmong(rejected))
    {
      FilterNext(current, NotAmong(rejected), i);
      if current[i].task !in rejected {
        next := next + [current[i]];
      }
    }
    assert current[..|current|] == current;
  }

  lemma DanglingAreRejected(tasks: Tasks, current: seq<Candidate>, rejected: set<TaskId>)
    requires AreDangling(tasks, current, |current|, rejected)
    ensures forall c | c in current && Dangles(tasks, current, c) :: c.task in rejected
  {
    forall c | c in current && Dangles(tasks, current, c) ensures c.task in rejected {
      var j :| 0 <= j < |current| && current[j] == c;
    }
  }

  /** `_remove_dangling_dependencies`: reject and repeat until nothing is rejected. */
  method RemoveDanglingDependencies(tasks: Tasks, candidates: seq<Candidate>) returns (current: seq<Candidate>)
    ensures current == Linked(tasks, candidates)
  {
    current := candidates;
    while true
      invariant current == candidates || current == Linked(tasks, candidates)
      decreases |current|
    {
      var rejected := FindDangling(tasks, current);
      if rejected == {} {
        DanglingAreRejected(tasks, current, rejected);
        NothingDangles(tasks, candidates, current);
        return;
      }
      var next := DropRejected(current, rejected);
      RejectingOnce(tasks, candidates, current, rejected);
      current := next;
    }
  }

  lemma {:induction false} NothingDangles(tasks: Tasks, candidates: seq<Candidate>, current: seq<Candidate>)
    requires current == candidates || current == Linked(tasks, candidates)
    requires forall c | c in current :: !Dangles(tasks, current, c)
    ensures current == Linked(tasks, candidates)
  {
    if current == candidates {
      FilterAll(candidates, KeepsLinks(tasks, TaskSet(candidates)));
    }
  }

  lemma {:induction false} RejectingOnce(tasks: Tasks, candidates: seq<Candidate>, current: seq<Candidate>, rejected: set<TaskId>)
    requires current == candidates || current == Linked(tasks, candidates)
    requires rejected != {} && AreDangling(tasks, current, |current|, rejected)
    ensures var next := Filter(current, NotAmong(rejected));
            next == Linked(tasks, candidates) && |next| < |current|
  {
    var t :| t in rejected;
    var j :| 0 <= j < |current| && Dangles(tasks, current, current[j]) && current[j].task == t;
    if current == Linked(tasks, candidates) {
      LinkedDoesNotDangle(tasks, candidates, current[j]);
    }
    FilterStrict(current, NotAmong(rejected), current[j]);
    FilterAgrees(current, NotAmong(rejected),
                 KeepsLinks(tasks, TaskSet(candidates)));
  }

  lemma {:induction false} LinkedDoesNotDangle(tasks: Tasks, candidates: seq<Candidate>, c: Candidate)
    requires c in Linked(tasks, candidates)
    ensures !Dangles(tasks, Linked(tasks, candidates), c)
  {
    LinkedIsLargestClosed(tasks, candidates);
    assert c.task in TaskSet(Linked(tasks, candidates));
  }

  /** Nothing is rejected exactly when the selection is closed already. */
  lemma {:induction false} NothingRejected(tasks: Tasks, candidates: seq<Candidate>)
    ensures |Linked(tasks, candidates)| == |candidates| <==> Closed(tasks, TaskSet(candidates))
    ensures |Linked(tasks, candidates)| == |candidates| ==> Linked(tasks, candidates) == candidates
  {
    var keep := KeepsLinks(tasks, TaskSet(candidates));
    LinkedIsLargestClosed(tasks, candidates);
    if c :| c in candidates && !keep(c) {
      FilterStrict(candidates, keep, c);
      assert c.task in TaskSet(candidates);
    } else {
      FilterAll(candidates, keep);
    }
  }

  // ---------------------------------------------------------------- looking at one candidate

  /** The rows of a chain in some order, as `load_batch_chain` returns them. */
  method LoadBatchChain(rows: map<Id, Batch>) returns (list: seq<BatchChain.ChainRow>)
    ensures multiset(list) == ChainLinks(rows)
  {
    list := [];
    var todo := rows.Keys;
    while todo != {}
      invariant todo <= rows.Keys
      invariant multiset(list) == multiset(set b | b in rows && b !in todo :: ToChainRow(b, rows[b]))
    {
      var b :| b in todo;
      var row := ToChainRow(b, rows[b]);
      assert (set x | x in rows && x !in todo - {b} :: ToChainRow(x, rows[x])) ==
             (set x | x in rows && x !in todo :: ToChainRow(x, rows[x])) + {row};
      list := list + [row];
      todo := todo - {b};
    }
    assert (set b | b in rows && b !in todo :: ToChainRow(b, rows[b])) == (set b | b in rows :: ToChainRow(b, rows[b]));
  }

  /** `_refresh_prepared_candidate`; `_refresh_candidate` makes the same tests. */
  method RefreshCandidate(tasks: Tasks, c: Candidate) returns (r: Refreshed)
    ensures r == Refresh(tasks, c)
  {
    if !Present(tasks, c.task) {
      return Missing;
    }
    match c.task {
    case WebTask(id) =>
      if !tasks.web[id].status.Terminal? {
        return Changed;
      }
    case MetaTask(id) =>
      var job := tasks.meta[id];
      if !job.status.Terminal? || !job.provenanceSafe || job.review in tasks.reviews {
        return Changed;
      }
    case ChainTask(id) =>
      var rows := ChainRows(tasks.batches, id);
      var list := LoadBatchChain(rows);
      var complete := BatchChain.CompleteBatchChain(id, list);
      if !complete || HasActiveRow(rows) || HasActiveItem(tasks.web, rows) {
        return Changed;
      }
    }
    return if CandidateOf(tasks, c.task) == c then Fresh else Changed;
  }

  ghost predicate IsInOrder(tasks: Tasks, c: Candidate, allowMissing: bool) {
    !Refresh(tasks, c).Changed? && (allowMissing || !Refresh(tasks, c).Missing?)
  }

  ghost predicate AreInOrder(tasks: Tasks, candidates: seq<Candidate>, allowMissing: bool) {
    forall c | c in candidates :: IsInOrder(tasks, c, allowMissing)
  }

  lemma OneOutOfOrder(tasks: Tasks, candidates: seq<Candidate>, allowMissing: bool, i: nat)
    requires i < |candidates| && !IsInOrder(tasks, candidates[i], allowMissing)
    ensures !AreInOrder(tasks, candidates, allowMissing)
  {
    assert candidates[i] in candidates;
  }

  lemma {:induction false} OneMoreInOrder(tasks: Tasks, candidates: seq<Candidate>, allowMissing: bool, i: nat)
    requires i < |candidates|
    ensures AreInOrder(tasks, candidates[..i + 1], allowMissing)
            <==> AreInOrder(tasks, candidates[..i], allowMissing) && IsInOrder(tasks, candidates[i], allowMissing)
  {
    assert candidates[..i + 1] == candidates[..i] + [candidates[i]];
  }

  /** Re-checks the candidates of a prepared operation and leaves out the missing ones. */
  method RefreshAll(tasks: Tasks, candidates: seq<Candidate>, allowMissing: bool)
    returns (pending: seq<Candidate>, kept: bool)
    ensures kept <==> AreInOrder(tasks, candidates, allowMissing)
    ensures kept ==> pending == StillThere(tasks, candidates)
  {
    pending := [];
    for i := 0 to |candidates|
      invariant AreInOrder(tasks, candidates[..i], allowMissing)
      invariant pending == Filter(candidates[..i], FreshIn(tasks))
    {
      FilterNext(candidates, FreshIn(tasks), i);
      var r := RefreshCandidate(tasks, candidates[i]);
      if r.Changed? || (r.Missing? && !allowMissing) {
        OneOutOfOrder(tasks, candidates, allowMissing, i);
        return pending, false;
      }
      OneMoreInOrder(tasks, candidates, allowMissing, i);
      if r.Fresh? {
        pending := pending + [candidates[i]];
      }
    }
    assert candidates[..|candidates|] == candidates;
    kept := true;
  }

  predicate HasActiveRow(rows: map<Id, Batch>) {
    exists b :: b in rows && !rows[b].status.Terminal?
  }

  function FactOfBatch(root: Id, b: Batch): Payload {
    BatchFact(root, b.page, b.status, b.archived)
  }

  function FactOfItem(root: Id, item: Item, code: string): Payload {
    ItemFact(root, code, item.job, item.archived)
  }

  /** `records` has a fact for each of these rows of a chain, and no other. */
  ghost predicate AreFactsOfRows(records: map<FactKey, Payload>, root: Id, rows: map<Id, Batch>, done: set<Id>) {
    && (forall k :: k in records <==> k.BatchKey? && k.id in done)
    && (forall b | b in done :: b in rows && records[BatchKey(b)] == FactOfBatch(root, rows[b]))
  }

  /** The loop over the rows of a chain. */
  method FactsOfRows(root: Id, rows: map<Id, Batch>) returns (records: map<FactKey, Payload>)
    ensures AreFactsOfRows(records, root, rows, rows.Keys)
  {
    records := map[];
    var todo := rows.Keys;
    while todo != {}
      invariant todo <= rows.Keys && AreFactsOfRows(records, root, rows, rows.Keys - todo)
    {
      var b :| b in todo;
      records := records[BatchKey(b) := FactOfBatch(root, rows[b])];
      todo := todo - {b};
    }
    assert rows.Keys - todo == rows.Keys;
  }

  /** The items of the rows of a chain, by batch and position. */
  function ItemsOf(rows: map<Id, Batch>): set<(Id, nat)> {
    set b, q | b in rows && q in rows[b].items :: (b, q)
  }

  ghost predicate AreFactsOfItems(records: map<FactKey, Payload>, root: Id, rows: map<Id, Batch>,
                                  codes: Codes, done: set<(Id, nat)>) {
    && (forall k :: k in records <==> k.ItemKey? && (k.batch, k.position) in done)
    && (forall b, q | (b, q) in done ::
          b in rows && q in rows[b].items
          && records[ItemKey(b, q)] == FactOfItem(root, rows[b].items[q], CodeAt(codes, b, q)))
  }

  /** The loop over the items of a chain. */
  method FactsOfItems(root: Id, rows: map<Id, Batch>, codes: Codes) returns (records: map<FactKey, Payload>)
    ensures AreFactsOfItems(records, root, rows, codes, ItemsOf(rows))
  {
    records := map[];
    var todo := ItemsOf(rows);
    while todo != {}
      invariant todo <= ItemsOf(rows) && AreFactsOfItems(records, root, rows, codes, ItemsOf(rows) - todo)
    {
      var place :| place in todo;
      var (b, q) := place;
      records := records[ItemKey(b, q) := FactOfItem(root, rows[b].items[q], CodeAt(codes, b, q))];
      todo := todo - {place};
    }
    assert ItemsOf(rows) - todo == ItemsOf(rows);
  }

  ghost function Under(records: map<FactKey, Payload>, k: FactKey): Option<Payload> {
    if k in records then Some(records[k]) else None
  }

  lemma FactOfRow(root: Id, rows: map<Id, Batch>, codes: Codes, records: map<FactKey, Payload>, b: Id)
    requires AreFactsOfRows(records, root, rows, rows.Keys)
    ensures Under(records, BatchKey(b)) == RecordAt(ChainTask(root), ChainPrint(rows), codes, BatchKey(b))
  {
  }

  lemma FactAtPlace(root: Id, rows: map<Id, Batch>, codes: Codes, records: map<FactKey, Payload>, b: Id, q: nat)
    requires AreFactsOfItems(records, root, rows, codes, ItemsOf(rows))
    ensures Under(records, ItemKey(b, q)) == RecordAt(ChainTask(root), ChainPrint(rows), codes, ItemKey(b, q))
  {
    assert (b, q) in ItemsOf(rows) <==> b in rows && q in rows[b].items;
  }

  lemma FactUnderKey(root: Id, rows: map<Id, Batch>, codes: Codes, ofRows: map<FactKey, Payload>,
                     ofItems: map<FactKey, Payload>, k: FactKey)
    requires AreFactsOfRows(ofRows, root, rows, rows.Keys) && AreFactsOfItems(ofItems, root, rows, codes, ItemsOf(rows))
    ensures Under(ofRows + ofItems, k) == RecordAt(ChainTask(root), ChainPrint(rows), codes, k)
  {
    assert Under(ofRows + ofItems, k) == if k in ofItems then Under(ofItems, k) else Under(ofRows, k);
    match k
    case BatchKey(b) => FactOfRow(root, rows, codes, ofRows, b);
    case ItemKey(b, q) => FactAtPlace(root, rows, codes, ofItems, b, q);
    case _ =>
  }

  lemma FactsOfChain(c: Candidate, root: Id, rows: map<Id, Batch>, codes: Codes, ofRows: map<FactKey, Payload>,
                     ofItems: map<FactKey, Payload>)
    requires c.task == ChainTask(root) && c.fingerprint == ChainPrint(rows)
    requires AreFactsOfRows(ofRows, root, rows, rows.Keys) && AreFactsOfItems(ofItems, root, rows, codes, ItemsOf(rows))
    ensures AreRecordsOf(ofRows + ofItems, c, codes)
  {
    var records := ofRows + ofItems;
    forall k ensures (if k in records then Some(records[k]) else None) == RecordAt(c.task, c.fingerprint, codes, k) {
      FactUnderKey(root, rows, codes, ofRows, ofItems, k);
      assert Under(records, k) == if k in records then Some(records[k]) else None;
    }
  }

  /** `_facts_for_candidate`: one fact for a download or a metadata job, and for a chain one for each of its
      rows and then one for each of its items; refused if the task has gone. */
  method FactsForCandidate(tasks: Tasks, t: TaskId) returns (r: Result<map<FactKey, Payload>, Error>)
    ensures if Present(tasks, t) then r.Ok? && AreRecordsOf(r.value, CandidateOf(tasks, t), tasks.codes)
            else r == Err(Conflict)
  {
    match t {
      case WebTask(id) =>
        if id !in tasks.web {
          return Err(Conflict);
        }
        var job := tasks.web[id];
        r := Ok(map[WebKey(id) := WebFact(job.status, job.archived)]);
      case MetaTask(id) =>
        if id !in tasks.meta {
          return Err(Conflict);
        }
        var job := tasks.meta[id];
        r := Ok(map[MetaKey(id) := MetaFact(job.status, job.review, job.archived)]);
      case ChainTask(id) =>
        var rows := ChainRows(tasks.batches, id);
        if rows == map[] {
          EmptyMeansGone(tasks, id);
          return Err(Conflict);
        }
        var ofRows := FactsOfRows(id, rows);
        var ofItems := FactsOfItems(id, rows, tasks.codes);
        RowsMeanPresent(tasks, id);
        FactsOfChain(CandidateOf(tasks, t), id, rows, tasks.codes, ofRows, ofItems);
        r := Ok(ofRows + ofItems);
    }
  }

  lemma EmptyMeansGone(tasks: Tasks, root: Id)
    requires ChainRows(tasks.batches, root) == map[]
    ensures !Present(tasks, ChainTask(root))
  {
    assert forall b | b in tasks.batches :: b !in ChainRows(tasks.batches, root);
  }

  lemma RowsMeanPresent(tasks: Tasks, root: Id)
    requires ChainRows(tasks.batches, root) != map[]
    ensures Present(tasks, ChainTask(root))
  {
    var b :| b in ChainRows(tasks.batches, root);
    assert tasks.batches[b].root == Some(root);
  }

  // ---------------------------------------------------------------- deleting one by one

  /** The number of rows a deletion reports. */
  function DeletedRows(tasks: Tasks, t: TaskId): nat {
    match t
    case WebTask(id) => if id in tasks.web then 1 else 0
    case MetaTask(id) => if id in tasks.meta then 1 else 0
    case ChainTask(id) => |ChainRows(tasks.batches, id)|
  }

  lemma DeleteTwice(tasks: Tasks, first: set<TaskId>, second: set<TaskId>)
    ensures Delete(Delete(tasks, first), second) == Delete(tasks, first + second)
  {
    var once, both := Delete(Delete(tasks, first), second), Delete(tasks, first + second);
    assert once.web == both.web;
    assert once.batches == both.batches;
    assert once.meta == both.meta;
  }

  lemma DeletedRowsOfFresh(tasks: Tasks, gone: set<TaskId>, c: Candidate)
    requires Refresh(tasks, c).Fresh? && c.task !in gone
    ensures DeletedRows(Delete(tasks, gone), c.task) == c.count
  {
    DeleteKeepsFresh(tasks, gone, c);
  }

  predicate DistinctTasks(candidates: seq<Candidate>) {
    forall i, j | 0 <= i < j < |candidates| :: candidates[i].task != candidates[j].task
  }

  lemma {:induction false} FilterKeepsDistinct(candidates: seq<Candidate>, f: Candidate -> bool)
    requires DistinctTasks(candidates)
    ensures DistinctTasks(Filter(candidates, f))
  {
    if candidates != [] {
      var n := |candidates| - 1;
      FilterKeepsDistinct(candidates[..n], f);
      forall c | c in Filter(candidates[..n], f) ensures c.task != candidates[n].task {
        var i :| 0 <= i < n && candidates[..n][i] == c;
      }
    }
  }

  lemma StillThereKeepsDistinct(tasks: Tasks, candidates: seq<Candidate>)
    requires DistinctTasks(candidates)
    ensures DistinctTasks(StillThere(tasks, candidates))
  {
    FilterKeepsDistinct(candidates, FreshIn(tasks));
  }

  /** Deletes the candidates in turn; none of the row counts can disagree with its candidate. */
  method DeleteCandidates(tasks: Tasks, pending: seq<Candidate>) returns (left: Tasks, agreed: bool)
    requires DistinctTasks(pending)
    requires forall c | c in pending :: Refresh(tasks, c).Fresh?
    ensures agreed && left == Delete(tasks, TaskSet(pending))
  {
    left := tasks;
    DeletingNothing(tasks);
    assert TaskSet(pending[..0]) == {};
    for i := 0 to |pending|
      invariant left == Delete(tasks, TaskSet(pending[..i]))
    {
      var c := pending[i];
      DeletedRowsOfFresh(tasks, TaskSet(pending[..i]), c);
      if DeletedRows(left, c.task) != c.count {
        return left, false;
      }
      DeleteTwice(tasks, TaskSet(pending[..i]), {c.task});
      TaskSetNext(pending, i);
      left := Delete(left, {c.task});
    }
    assert pending[..|pending|] == pending;
    agreed := true;
  }

  lemma TaskSetNext(candidates: seq<Candidate>, i: nat)
    requires i < |candidates|
    ensures TaskSet(candidates[..i + 1]) == TaskSet(candidates[..i]) + {candidates[i].task}
  {
    assert candidates[..i + 1] == candidates[..i] + [candidates[i]];
  }

  // ---------------------------------------------------------------- storing facts one by one

  /** The placed facts are in the archive and mapped, and the older ones have not changed. */
  ghost predicate Stored(before: map<FactKey, Fact>, placed: map<FactKey, Placed>, now: Time,
                         facts: map<FactKey, Fact>, mappings: map<FactKey, Mapping>) {
    && facts.Keys == before.Keys + placed.Keys
    && mappings.Keys == placed.Keys
    && (forall k | k in before :: facts[k] == before[k])
    && (forall k | k in placed :: StoredAs(before, placed[k], now, k, facts[k], mappings[k]))
  }

  predicate StoredAs(before: map<FactKey, Fact>, placed: Placed, now: Time, k: FactKey, fact: Fact, mapping: Mapping) {
    && fact == (if k in before then before[k] else Fact(placed.payload, now))
    && fact.payload == placed.payload
    && mapping == Mapping(placed.position, placed.payload, k !in before)
  }

  lemma StoreOne(before: map<FactKey, Fact>, placed: map<FactKey, Placed>, now: Time,
                 facts: map<FactKey, Fact>, mappings: map<FactKey, Mapping>, k: FactKey, p: Placed)
    requires Stored(before, placed, now, facts, mappings)
    requires k !in mappings && (k in facts ==> facts[k].payload == p.payload)
    ensures Stored(before, placed[k := p], now, if k in facts then facts else facts[k := Fact(p.payload, now)],
                   mappings[k := Mapping(p.position, p.payload, k !in facts)])
  {
  }

  /** Once everything is stored, facts and mappings are those of a prepared operation. */
  lemma AllStored(before: map<FactKey, Fact>, placed: map<FactKey, Placed>, now: Time,
                  facts: map<FactKey, Fact>, mappings: map<FactKey, Mapping>)
    requires Stored(before, placed, now, facts, mappings)
    ensures FactsAgree(before, placed)
    ensures facts == WithFacts(before, placed, now)
    ensures mappings == NewMappings(before, placed)
  {
  }

  /** `placed` has the facts of the first `i` items, and those of the next one in `done`. */
  ghost predicate PlacedSoFar(items: seq<PreparedItem>, i: nat, done: set<FactKey>, placed: map<FactKey, Placed>)
    requires i <= |items|
  {
    && placed.Keys == Keys(items[..i]) + done
    && done !! Keys(items[..i])
    && (forall k | k in Keys(items[..i]) :: placed[k] == PlaceOf(items[..i], k))
    && (forall k | k in done :: i < |items| && k in items[i].records && placed[k] == Placed(i, items[i].records[k]))
  }

  lemma PlacedNext(items: seq<PreparedItem>, i: nat, done: set<FactKey>, placed: map<FactKey, Placed>, k: FactKey)
    requires i < |items| && PlacedSoFar(items, i, done, placed) && k in items[i].records && k !in placed
    ensures PlacedSoFar(items, i, done + {k}, placed[k := Placed(i, items[i].records[k])])
  {
  }

  lemma PlacedBefore(items: seq<PreparedItem>, i: nat, done: set<FactKey>, placed: map<FactKey, Placed>, k: FactKey)
    requires i < |items| && PlacedSoFar(items, i, done, placed) && k in placed && k !in done
    ensures k in Keys(items[..i])
  {
  }

  lemma {:induction false} ItemPlaced(items: seq<PreparedItem>, i: nat, placed: map<FactKey, Placed>)
    requires i < |items| && PlacedSoFar(items, i, items[i].records.Keys, placed)
    ensures PlacedSoFar(items, i + 1, {}, placed)
    ensures items[i].records.Keys !! Keys(items[..i])
  {
    assert items[..i + 1][..i] == items[..i];
  }

  lemma {:induction false} AllPlaced(items: seq<PreparedItem>, placed: map<FactKey, Placed>)
    requires PlacedSoFar(items, |items|, {}, placed)
    ensures placed == Placements(items)
  {
    assert items[..|items|] == items;
  }

  /** A fact that is already archived and says something else stands in the way. */
  lemma {:induction false} Disagreement(before: map<FactKey, Fact>, items: seq<PreparedItem>, i: nat, k: FactKey)
    requires i < |items| && k in items[i].records
    requires k in before && before[k].payload != items[i].records[k]
    ensures !FactsAgree(before, Placements(items)) || !Unambiguous(items)
  {
    if Unambiguous(items) {
      PlacedByItsItem(items, i, k);
    }
  }

  /** A fact that two items claim stands in the way too. */
  lemma {:induction false} Repetition(items: seq<PreparedItem>, i: nat, k: FactKey)
    requires i < |items| && k in items[i].records && k in Keys(items[..i])
    ensures !Unambiguous(items)
  {
    var j := PlaceOf(items[..i], k).position;
    assert items[..i][j] == items[j];
  }

  /** Inserts the facts of one item and notes which of them are new (`_insert_fact`).  A fact stored twice
      breaks the key of the mapping table. */
  method StoreItem(ghost before: map<FactKey, Fact>, items: seq<PreparedItem>, i: nat, now: Time,
                   ghost placedBefore: map<FactKey, Placed>, factsBefore: map<FactKey, Fact>, mappingsBefore: map<FactKey, Mapping>)
    returns (facts: map<FactKey, Fact>, mappings: map<FactKey, Mapping>, agreed: bool, ghost placed: map<FactKey, Placed>)
    requires i < |items| && Stored(before, placedBefore, now, factsBefore, mappingsBefore)
    requires PlacedSoFar(items, i, {}, placedBefore)
    ensures agreed ==> Stored(before, placed, now, facts, mappings) && PlacedSoFar(items, i, items[i].records.Keys, placed)
    ensures !agreed ==> !FactsAgree(before, Placements(items)) || !Unambiguous(items)
  {
    facts, mappings, placed := factsBefore, mappingsBefore, placedBefore;
    var todo := items[i].records.Keys;
    ghost var done: set<FactKey> := {};
    while todo != {}
      invariant todo + done == items[i].records.Keys && todo !! done
      invariant Stored(before, placed, now, facts, mappings)
      invariant PlacedSoFar(items, i, done, placed)
    {
      var k :| k in todo;
      var payload := items[i].records[k];
      if k in mappings {
        PlacedBefore(items, i, done, placed, k);
        Repetition(items, i, k);
        agreed := false;
        return;
      }
      if k in facts && facts[k].payload != payload {
        Disagreement(before, items, i, k);
        agreed := false;
        return;
      }
      StoreOne(before, placed, now, facts, mappings, k, Placed(i, payload));
      PlacedNext(items, i, done, placed, k);
      mappings := mappings[k := Mapping(i, payload, k !in facts)];
      facts := if k in facts then facts else facts[k := Fact(payload, now)];
      placed := placed[k := Placed(i, payload)];
      todo, done := todo - {k}, done + {k};
    }
    assert done == items[i].records.Keys;
    agreed := true;
  }

  /** Inserts the facts of all items (the loop of `_prepare_operation`). */
  method StoreFacts(before: map<FactKey, Fact>, items: seq<PreparedItem>, now: Time)
    returns (facts: map<FactKey, Fact>, mappings: map<FactKey, Mapping>, agreed: bool)
    ensures agreed ==> FactsAgree(before, Placements(items)) && DistinctKeys(items)
    ensures agreed ==> facts == WithFacts(before, Placements(items), now)
    ensures agreed ==> mappings == NewMappings(before, Placements(items))
    ensures !agreed ==> !FactsAgree(before, Placements(items)) || !Unambiguous(items)
  {
    facts, mappings, agreed := before, map[], true;
    ghost var placed: map<FactKey, Placed> := map[];
    for i := 0 to |items|
      invariant Stored(before, placed, now, facts, mappings)
      invariant PlacedSoFar(items, i, {}, placed)
      invariant DistinctKeys(items[..i])
    {
      facts, mappings, agreed, placed := StoreItem(before, items, i, now, placed, facts, mappings);
      if !agreed {
        return;
      }
      ItemPlaced(items, i, placed);
      DistinctKeysNext(items, i);
    }
    AllPlaced(items, placed);
    AllStored(before, placed, now, facts, mappings);
    assert items[..|items|] == items;
    agreed := true;
  }

  ghost predicate DistinctKeys(items: seq<PreparedItem>) {
    forall i, j | 0 <= i < j < |items| :: items[i].records.Keys !! items[j].records.Keys
  }

  lemma {:induction false} DistinctKeysNext(items: seq<PreparedItem>, i: nat)
    requires i < |items| && DistinctKeys(items[..i]) && items[i].records.Keys !! Keys(items[..i])
    ensures DistinctKeys(items[..i + 1])
  {
    forall j | 0 <= j < i ensures items[j].records.Keys !! items[i].records.Keys {
      KeysAreAll(items[..i], j);
    }
    assert items[..i + 1] == items[..i] + [items[i]];
  }

  /** Inserting the candidate rows; a task that comes twice breaks their key. */
  method InsertCandidates(items: seq<PreparedItem>) returns (distinct: bool)
    ensures distinct <==> DistinctTasks(CandidatesOf(items))
  {
    var seen: set<TaskId> := {};
    for i := 0 to |items|
      invariant forall t :: t in seen <==> exists j :: 0 <= j < i && items[j].candidate.task == t
      invariant forall a, b | 0 <= a < b < i :: items[a].candidate.task != items[b].candidate.task
    {
      if items[i].candidate.task in seen {
        var j :| 0 <= j < i && items[j].candidate.task == items[i].candidate.task;
        assert CandidatesOf(items)[j].task == CandidatesOf(items)[i].task;
        return false;
      }
      seen := seen + {items[i].candidate.task};
    }
    return true;
  }

  lemma {:induction false} UnambiguousIsBoth(items: seq<PreparedItem>)
    ensures Unambiguous(items) <==> DistinctTasks(CandidatesOf(items)) && DistinctKeys(items)
  {
    if DistinctTasks(CandidatesOf(items)) && DistinctKeys(items) {
      forall i, j | 0 <= i < j < |items| ensures items[i].candidate.task != items[j].candidate.task {
        assert CandidatesOf(items)[i].task != CandidatesOf(items)[j].task;
      }
    }
  }

  /** The fact summaries an operation digest covers. */
  method Summarize(facts: map<FactKey, Fact>, mappings: map<FactKey, Mapping>) returns (r: map<FactKey, Summary>)
    ensures r == Summaries(facts, mappings)
  {
    r := map[];
    var todo := mappings.Keys * facts.Keys;
    while todo != {}
      invariant todo <= mappings.Keys * facts.Keys
      invariant r.Keys == mappings.Keys * facts.Keys - todo
      invariant forall k | k in r :: r[k] == Summary(mappings[k].position, facts[k])
    {
      var k :| k in todo;
      r := r[k := Summary(mappings[k].position, facts[k])];
      todo := todo - {k};
    }
  }

  /** `_load_prepared_operation`: recompute everything and compare. */
  method LoadPreparedOperation(library: Library, id: OperationId) returns (loaded: bool)
    ensures loaded <==> Loads(library, id)
  {
    if id !in library.operations || !library.operations[id].status.Prepared? {
      return false;
    }
    var op := library.operations[id];
    if |op.candidates| > MAX_CLEANUP_RECORDS || |op.mappings| > MAX_RECOVERY_FACTS {
      return false;
    }
    var todo := op.mappings.Keys;
    while todo != {}
      invariant todo <= op.mappings.Keys
      invariant forall k | k in op.mappings && k !in todo :: MappingHolds(library.facts, op, k)
    {
      var k :| k in todo;
      if op.mappings[k].position >= |op.candidates| {
        return false;
      }
      if k !in library.facts || library.facts[k].payload != op.mappings[k].digest {
        return false;
      }
      assert MappingHolds(library.facts, op, k);
      todo := todo - {k};
    }
    assert forall k | k in op.mappings :: MappingHolds(library.facts, op, k);
    var summaries := Summarize(library.facts, op.mappings);
    loaded := op.digest == OperationDigest(op.candidates, summaries);
  }

  predicate MappingHolds(facts: map<FactKey, Fact>, op: Operation, k: FactKey)
    requires k in op.mappings
  {
    op.mappings[k].position < |op.candidates| && k in facts && facts[k].payload == op.mappings[k].digest
  }
}

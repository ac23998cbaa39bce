/**
 * The tables of the three databases a history cleanup works on, and what is read out of them:
 * candidates with their fingerprints (jav_pilot/history/candidates.py) and archived facts
 * (jav_pilot/history/facts.py, and `_facts_for_candidate` in jav_pilot/history/cleanup.py).
 *
 * Digests are injective here: a digest is the value it digests, and a fingerprint is the row it was
 * taken from.  Columns that neither fingerprint nor fact reads are left out of the rows.  `archived`
 * stands for the columns a fact copies, `printed` for the ones only the fingerprint covers.
 */
module HistoryState {
  import opened Collections
  import BatchChain

  type Id = string
  type Time = real

  datatype TaskStatus = Active(phase: string) | Terminal(outcome: string)

  datatype WebJob = WebJob(status: TaskStatus, archived: string, printed: string)

  /** `download` is the download key of a job of kind `web`; `review` is the code key and path a
      review row is looked up by. */
  datatype MetaJob = MetaJob(
    status: TaskStatus,
    download: Option<Id>,
    review: string,
    provenanceSafe: bool,
    archived: string,
    printed: string)

  datatype Item = Item(job: Option<Id>, archived: string)

  /** Items are deleted with their batch (a cascading foreign key), so they live inside it. */
  datatype Batch = Batch(
    root: Option<Id>,
    page: int,
    parent: Option<Id>,
    next: Option<Id>,
    status: TaskStatus,
    archived: string,
    printed: string,
    items: map<nat, Item>)

  /** The web database (`web`, `batches`, and apart from them the display codes of batch items, which
      no fingerprint covers), the metadata database (`meta`), and the keys of the reviews in
      progress. */
  datatype Tasks = Tasks(
    web: map<Id, WebJob>,
    batches: map<Id, Batch>,
    codes: Codes,
    meta: map<Id, MetaJob>,
    reviews: set<string>)

  /** The display codes of batch items, by batch and position. */
  type Codes = map<(Id, nat), string>

  function CodeAt(codes: Codes, batch: Id, position: nat): string {
    if (batch, position) in codes then codes[(batch, position)] else ""
  }

  datatype TaskId = WebTask(id: Id) | ChainTask(id: Id) | MetaTask(id: Id)

  // ---------------------------------------------------------------- reading tasks

  /** The rows `load_batch_chain` selects. */
  function ChainRows(batches: map<Id, Batch>, root: Id): (rows: map<Id, Batch>)
    ensures forall b :: b in rows <==> b in batches && batches[b].root == Some(root)
    ensures forall b | b in rows :: rows[b] == batches[b]
  {
    batches - (set b | b in batches && batches[b].root != Some(root))
  }

  predicate Present(tasks: Tasks, t: TaskId) {
    match t
    case WebTask(id) => id in tasks.web
    case MetaTask(id) => id in tasks.meta
    case ChainTask(id) => exists b :: b in tasks.batches && tasks.batches[b].root == Some(id)
  }

  function ToChainRow(id: Id, b: Batch): BatchChain.ChainRow {
    BatchChain.ChainRow(id, b.root, b.page, b.parent, b.next)
  }

  ghost function ChainLinks(rows: map<Id, Batch>): multiset<BatchChain.ChainRow> {
    multiset(set b | b in rows :: ToChainRow(b, rows[b]))
  }

  predicate IsActiveItem(web: map<Id, WebJob>, item: Item) {
    item.job.Some? && item.job.value in web && web[item.job.value].status.Active?
  }

  /** Some item of the chain belongs to a download that is still active. */
  predicate HasActiveItem(web: map<Id, WebJob>, rows: map<Id, Batch>) {
    exists b, p :: b in rows && p in rows[b].items && IsActiveItem(web, rows[b].items[p])
  }

  /** The task has ended and nothing that is still going on needs its record. */
  ghost predicate Removable(tasks: Tasks, t: TaskId)
    requires Present(tasks, t)
  {
    match t
    case WebTask(id) => tasks.web[id].status.Terminal?
    case MetaTask(id) =>
      var job := tasks.meta[id];
      job.status.Terminal? && job.provenanceSafe && job.review !in tasks.reviews
    case ChainTask(id) =>
      var rows := ChainRows(tasks.batches, id);
      && BatchChain.IsCompleteChain(id, ChainLinks(rows))
      && (forall b | b in rows :: rows[b].status.Terminal?)
      && !HasActiveItem(tasks.web, rows)
  }

  // ---------------------------------------------------------------- fingerprints and candidates

  datatype Fingerprint = WebPrint(web: WebJob) | MetaPrint(meta: MetaJob) | ChainPrint(rows: map<Id, Batch>)

  /** The status a candidate also records is part of its fingerprint. */
  datatype Candidate = Candidate(task: TaskId, fingerprint: Fingerprint, count: nat)

  function CandidateOf(tasks: Tasks, t: TaskId): Candidate
    requires Present(tasks, t)
  {
    match t
    case WebTask(id) => Candidate(t, WebPrint(tasks.web[id]), 1)
    case MetaTask(id) => Candidate(t, MetaPrint(tasks.meta[id]), 1)
    case ChainTask(id) =>
      var rows := ChainRows(tasks.batches, id);
      Candidate(t, ChainPrint(rows), |rows|)
  }

  // ---------------------------------------------------------------- facts

  datatype FactKey = WebKey(id: Id) | MetaKey(id: Id) | BatchKey(id: Id) | ItemKey(batch: Id, position: nat)

  datatype Payload =
    | WebFact(status: TaskStatus, archived: string)
    | MetaFact(status: TaskStatus, review: string, archived: string)
    | BatchFact(root: Id, page: int, status: TaskStatus, archived: string)
    | ItemFact(root: Id, code: string, job: Option<Id>, archived: string)

  /** The digest of a fact covers its payload and leaves out the time of archiving. */
  datatype Fact = Fact(payload: Payload, archivedAt: Time)

  /** What the row or item under `k` says, if the task `t` with this fingerprint has one there; the
      display codes of items come from `codes`. */
  function RecordAt(t: TaskId, fingerprint: Fingerprint, codes: Codes, k: FactKey): Option<Payload> {
    match (fingerprint, k)
    case (WebPrint(job), WebKey(id)) =>
      if id == t.id then Some(WebFact(job.status, job.archived)) else None
    case (MetaPrint(job), MetaKey(id)) =>
      if id == t.id then Some(MetaFact(job.status, job.review, job.archived)) else None
    case (ChainPrint(rows), BatchKey(b)) =>
      if b in rows then Some(BatchFact(t.id, rows[b].page, rows[b].status, rows[b].archived)) else None
    case (ChainPrint(rows), ItemKey(b, p)) =>
      if b in rows && p in rows[b].items
      then Some(ItemFact(t.id, CodeAt(codes, b, p), rows[b].items[p].job, rows[b].items[p].archived))
      else None
    case _ => None
  }

  function RecordKeys(c: Candidate): (keys: set<FactKey>)
    ensures forall k, codes :: k in keys <==> RecordAt(c.task, c.fingerprint, codes, k).Some?
  {
    match c.fingerprint
    case WebPrint(_) => {WebKey(c.task.id)}
    case MetaPrint(_) => {MetaKey(c.task.id)}
    case ChainPrint(rows) =>
      var batches := set b | b in rows :: BatchKey(b);
      var items := set b, p | b in rows && p in rows[b].items :: ItemKey(b, p);
      batches + items
  }

  /** The facts that replace the records of a candidate (`_facts_for_candidate`): one for every row
      and every item that goes when the task is deleted. */
  ghost predicate AreRecordsOf(records: map<FactKey, Payload>, c: Candidate, codes: Codes) {
    forall k ::
      (if k in records then Some(records[k]) else None) == RecordAt(c.task, c.fingerprint, codes, k)
  }

  /** What a fingerprint pins down of a fact: everything but the display code of an item. */
  function Pinned(p: Payload): Payload {
    if p.ItemFact? then p.(code := "") else p
  }

  /** What the fingerprint of a candidate promises about the fact under `k`. */
  function Promise(c: Candidate, k: FactKey): Option<Payload> {
    match RecordAt(c.task, c.fingerprint, map[], k)
    case None => None
    case Some(p) => Some(Pinned(p))
  }

  /** Whatever the display codes are, the facts of a candidate keep what its fingerprint promises. */
  lemma RecordsKeepPromise(records: map<FactKey, Payload>, c: Candidate, codes: Codes, k: FactKey)
    requires AreRecordsOf(records, c, codes)
    ensures Promise(c, k) == if k in records then Some(Pinned(records[k])) else None
  {
    RecordUpToCode(c.task, c.fingerprint, codes, k);
  }

  /** Only the display code of an item depends on more than the fingerprint. */
  lemma RecordUpToCode(t: TaskId, fingerprint: Fingerprint, codes: Codes, k: FactKey)
    ensures var here, bare := RecordAt(t, fingerprint, codes, k), RecordAt(t, fingerprint, map[], k);
            && (here.Some? <==> bare.Some?)
            && (here.Some? ==> Pinned(here.value) == Pinned(bare.value))
  {
  }
}

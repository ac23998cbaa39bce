/**
 * What a history cleanup deletes and what it keeps, read off the tables alone: which tasks can go, that
 * nothing else ever goes, and where the columns of a deleted row are found afterwards
 * (jav_pilot/history/cleanup.py:361-500, 753-879).
 */
module HistoryTables {
  import opened Collections
  import opened HistoryState
  import opened HistoryCleanup
  import opened HistoryRuns
  import opened HistorySettlement
  import opened HistoryOutcomes
  import BatchChain

  // ---------------------------------------------------------------- which tasks can go

  /** 32 lower-case hexadecimal digits. */
  predicate IsRootId(id: Id) {
    |id| == 32 && forall i | 0 <= i < 32 :: '0' <= id[i] <= '9' || 'a' <= id[i] <= 'f'
  }

  ghost predicate IsPage(tasks: Tasks, order: seq<Id>, i: nat)
    requires i < |order|
  {
    && order[i] in tasks.batches
    && tasks.batches[order[i]].page == i + 1
    && tasks.batches[order[i]].parent == (if i == 0 then None else Some(order[i - 1]))
    && tasks.batches[order[i]].next == (if i == |order| - 1 then None else Some(order[i + 1]))
  }

  /** The rows of a chain, each once: they begin with the root, and their links run through them in the
      order of their pages. */
  ghost predicate IsChainInOrder(tasks: Tasks, root: Id, order: seq<Id>) {
    && |order| > 0 && order[0] == root
    && (forall b :: b in order <==> b in tasks.batches && tasks.batches[b].root == Some(root))
    && (forall i, j | 0 <= i < j < |order| :: order[i] != order[j])
    && (forall i | 0 <= i < |order| :: IsPage(tasks, order, i))
  }

  /** The task has ended and nothing that is still going on needs its record: a download is terminal; a
      metadata job is terminal, its provenance is safe and it is not under review; a chain is complete, all
      its rows are terminal and no item belongs to a download that is still active. */
  ghost predicate HasEnded(tasks: Tasks, t: TaskId) {
    match t
    case WebTask(id) => id in tasks.web && tasks.web[id].status.Terminal?
    case MetaTask(id) =>
      && id in tasks.meta && tasks.meta[id].status.Terminal?
      && tasks.meta[id].provenanceSafe && tasks.meta[id].review !in tasks.reviews
    case ChainTask(id) =>
      && IsRootId(id) && (exists order :: IsChainInOrder(tasks, id, order))
      && (forall b | b in tasks.batches && tasks.batches[b].root == Some(id) :: tasks.batches[b].status.Terminal?)
      && (forall b, p | b in tasks.batches && tasks.batches[b].root == Some(id) && p in tasks.batches[b].items ::
            var job := tasks.batches[b].items[p].job;
            job.Some? && job.value in tasks.web ==> tasks.web[job.value].status.Terminal?)
  }

  /** The candidate was taken from rows that are the same now. */
  ghost predicate SaysRows(tasks: Tasks, c: Candidate) {
    match (c.task, c.fingerprint)
    case (WebTask(id), WebPrint(job)) => id in tasks.web && tasks.web[id] == job && c.count == 1
    case (MetaTask(id), MetaPrint(job)) => id in tasks.meta && tasks.meta[id] == job && c.count == 1
    case (ChainTask(id), ChainPrint(rows)) =>
      && (forall b :: b in rows <==> b in tasks.batches && tasks.batches[b].root == Some(id))
      && (forall b | b in rows :: rows[b] == tasks.batches[b])
      && c.count == |rows|
    case _ => false
  }

  // ---------------------------------------------------------------- complete chains

  lemma {:induction false} DistinctMultiset<T>(s: seq<T>)
    requires forall i, j | 0 <= i < j < |s| :: s[i] != s[j]
    ensures multiset(s) == multiset(set x | x in s)
  {
    if s != [] {
      var n := |s| - 1;
      DistinctMultiset(s[..n]);
      assert s == s[..n] + [s[n]];
      assert (set x | x in s) == (set x | x in s[..n]) + {s[n]};
      assert s[n] !in s[..n];
    }
  }

  lemma {:induction false} WalkIsInOrder(tasks: Tasks, root: Id, walk: seq<BatchChain.ChainRow>) returns (order: seq<Id>)
    requires BatchChain.IsWalk(root, walk) && multiset(walk) == ChainLinks(ChainRows(tasks.batches, root))
    ensures IsChainInOrder(tasks, root, order)
  {
    var rows := ChainRows(tasks.batches, root);
    order := seq(|walk|, i requires 0 <= i < |walk| => walk[i].batchId);
    forall i | 0 <= i < |walk| ensures order[i] in rows && walk[i] == ToChainRow(order[i], rows[order[i]]) {
      assert walk[i] in multiset(walk);
    }
    forall b | b in rows ensures b in order {
      assert ToChainRow(b, rows[b]) in multiset(walk);
      var i :| 0 <= i < |walk| && walk[i] == ToChainRow(b, rows[b]);
      assert order[i] == b;
    }
    forall i | 0 <= i < |order| ensures IsPage(tasks, order, i) {
      assert i > 0 ==> walk[i - 1].next == Some(walk[i].batchId) && walk[i].parent == Some(walk[i - 1].batchId);
    }
  }

  function RowsOf(batches: map<Id, Batch>, order: seq<Id>): (walk: seq<BatchChain.ChainRow>)
    requires forall i | 0 <= i < |order| :: order[i] in batches
    ensures |walk| == |order| && forall i | 0 <= i < |walk| :: walk[i] == ToChainRow(order[i], batches[order[i]])
  {
    seq(|order|, i requires 0 <= i < |order| => ToChainRow(order[i], batches[order[i]]))
  }

  lemma {:induction false} RowsOfAll(batches: map<Id, Batch>, order: seq<Id>)
    requires forall b :: b in batches <==> b in order
    requires forall i, j | 0 <= i < j < |order| :: order[i] != order[j]
    ensures multiset(RowsOf(batches, order)) == ChainLinks(batches)
  {
    var walk := RowsOf(batches, order);
    DistinctMultiset(walk);
    forall b | b in batches ensures ToChainRow(b, batches[b]) in walk {
      var i :| 0 <= i < |order| && order[i] == b;
      assert walk[i] == ToChainRow(b, batches[b]);
    }
    assert (set x | x in walk) == (set b | b in batches :: ToChainRow(b, batches[b]));
  }

  lemma {:induction false} InOrderIsWalk(tasks: Tasks, root: Id, order: seq<Id>, rows: map<Id, Batch>)
    requires IsChainInOrder(tasks, root, order) && rows == ChainRows(tasks.batches, root)
    requires forall b | b in order :: b in rows
    ensures BatchChain.IsWalk(root, RowsOf(rows, order))
  {
    var walk := RowsOf(rows, order);
    forall i | 0 <= i < |walk| ensures walk[i].root == Some(root) && walk[i].page == i + 1 {
      assert order[i] in order && IsPage(tasks, order, i);
    }
    forall i | 0 <= i < |walk| - 1
      ensures walk[i].next == Some(walk[i + 1].batchId) && walk[i + 1].parent == Some(walk[i].batchId)
    {
      assert IsPage(tasks, order, i) && IsPage(tasks, order, i + 1);
    }
    assert IsPage(tasks, order, 0) && IsPage(tasks, order, |order| - 1);
  }

  lemma RootIdExactly(root: Id)
    ensures BatchChain.IsHexId(root) <==> IsRootId(root)
  {
  }

  lemma WalkMeansInOrder(tasks: Tasks, root: Id, links: multiset<BatchChain.ChainRow>)
    requires links == ChainLinks(ChainRows(tasks.batches, root))
    ensures (exists walk :: BatchChain.IsWalk(root, walk) && multiset(walk) == links)
            <==> exists order :: IsChainInOrder(tasks, root, order)
  {
    if walk :| BatchChain.IsWalk(root, walk) && multiset(walk) == links {
      var order := WalkIsInOrder(tasks, root, walk);
    }
    if order :| IsChainInOrder(tasks, root, order) {
      OrderIsSomeWalk(tasks, root, order, links);
    }
  }

  lemma {:induction false} OrderIsSomeWalk(tasks: Tasks, root: Id, order: seq<Id>, links: multiset<BatchChain.ChainRow>)
    requires links == ChainLinks(ChainRows(tasks.batches, root)) && IsChainInOrder(tasks, root, order)
    ensures exists walk :: BatchChain.IsWalk(root, walk) && multiset(walk) == links
  {
    var rows := ChainRows(tasks.batches, root);
    assert forall b :: b in rows <==> b in order;
    RowsOfAll(rows, order);
    InOrderIsWalk(tasks, root, order, rows);
  }

  lemma CompleteMeansInOrder(tasks: Tasks, root: Id)
    ensures BatchChain.IsCompleteChain(root, ChainLinks(ChainRows(tasks.batches, root)))
            <==> IsRootId(root) && exists order :: IsChainInOrder(tasks, root, order)
  {
    RootIdExactly(root);
    WalkMeansInOrder(tasks, root, ChainLinks(ChainRows(tasks.batches, root)));
  }

  // ---------------------------------------------------------------- looking at a task again

  lemma EndedExactly(tasks: Tasks, t: TaskId)
    ensures HasEnded(tasks, t) <==> Present(tasks, t) && Removable(tasks, t)
  {
    if t.ChainTask? {
      CompleteMeansInOrder(tasks, t.id);
      if order :| IsChainInOrder(tasks, t.id, order) {
        assert order[0] in order;
      }
    }
  }

  lemma SameRowsExactly(tasks: Tasks, c: Candidate)
    requires Present(tasks, c.task)
    ensures SaysRows(tasks, c) <==> CandidateOf(tasks, c.task) == c
  {
    if c.task.ChainTask? && c.fingerprint.ChainPrint? && SaysRows(tasks, c) {
      assert c.fingerprint.rows == ChainRows(tasks.batches, c.task.id);
    }
  }

  /** A candidate is fresh exactly if its task has ended and its rows are the same, and missing exactly if
      there are no such rows. */
  lemma FreshExactly(tasks: Tasks, c: Candidate)
    ensures Refresh(tasks, c).Fresh? <==> HasEnded(tasks, c.task) && SaysRows(tasks, c)
    ensures Refresh(tasks, c).Missing? <==>
            match c.task
            case WebTask(id) => id !in tasks.web
            case MetaTask(id) => id !in tasks.meta
            case ChainTask(id) => forall b | b in tasks.batches :: tasks.batches[b].root != Some(id)
  {
    EndedExactly(tasks, c.task);
    if Present(tasks, c.task) {
      SameRowsExactly(tasks, c);
    }
  }

  // ---------------------------------------------------------------- looking at a set of tasks

  predicate ItemRefers(tasks: Tasks, b: Id, q: nat, x: Id) {
    b in tasks.batches && q in tasks.batches[b].items && tasks.batches[b].items[q].job == Some(x)
  }

  predicate MetaRefers(tasks: Tasks, m: Id, x: Id) {
    m in tasks.meta && tasks.meta[m].download == Some(x)
  }

  lemma ReferencesLeft(tasks: Tasks, chosen: set<TaskId>, x: Id)
    ensures forall b, q :: ItemRefers(Delete(tasks, chosen), b, q, x) <==>
                           ItemRefers(tasks, b, q, x) && !InChains(chosen, tasks.batches[b])
    ensures forall m :: MetaRefers(Delete(tasks, chosen), m, x) <==> MetaRefers(tasks, m, x) && MetaTask(m) !in chosen
  {
  }

  lemma NothingLeftRefers(tasks: Tasks, chosen: set<TaskId>)
    ensures NothingRefersTo(tasks, chosen) <==>
            forall x | WebTask(x) in chosen :: (forall b, q :: !ItemRefers(tasks, b, q, x)) && (forall m :: !MetaRefers(tasks, m, x))
  {
    if forall x | WebTask(x) in chosen :: (forall b, q :: !ItemRefers(tasks, b, q, x)) && (forall m :: !MetaRefers(tasks, m, x)) {
      forall b, q | b in tasks.batches && q in tasks.batches[b].items && tasks.batches[b].items[q].job.Some?
        ensures WebTask(tasks.batches[b].items[q].job.value) !in chosen
      {
        assert ItemRefers(tasks, b, q, tasks.batches[b].items[q].job.value);
      }
      forall m | m in tasks.meta && tasks.meta[m].download.Some? ensures WebTask(tasks.meta[m].download.value) !in chosen {
        assert MetaRefers(tasks, m, tasks.meta[m].download.value);
      }
    }
  }

  lemma LinksAreReferences(tasks: Tasks, chosen: set<TaskId>, x: Id)
    ensures LinksWithin(tasks, chosen, x) <==>
            && (forall b, q :: ItemRefers(tasks, b, q, x) ==> InChains(chosen, tasks.batches[b]))
            && (forall m :: MetaRefers(tasks, m, x) ==> MetaTask(m) in chosen)
  {
    if forall b, q :: ItemRefers(tasks, b, q, x) ==> InChains(chosen, tasks.batches[b]) {
      forall b, q | b in tasks.batches && q in tasks.batches[b].items && tasks.batches[b].items[q].job == Some(x)
        ensures InChains(chosen, tasks.batches[b])
      {
        assert ItemRefers(tasks, b, q, x);
      }
    }
    if forall m :: MetaRefers(tasks, m, x) ==> MetaTask(m) in chosen {
      forall m | m in tasks.meta && tasks.meta[m].download == Some(x) ensures MetaTask(m) in chosen {
        assert MetaRefers(tasks, m, x);
      }
    }
  }

  /** Links are closed exactly if the deletion leaves nothing behind that refers to a deleted download. */
  lemma ClosedExactly(tasks: Tasks, chosen: set<TaskId>)
    ensures Closed(tasks, chosen) <==> NothingRefersTo(Delete(tasks, chosen), chosen)
  {
    NothingLeftRefers(Delete(tasks, chosen), chosen);
    forall x | WebTask(x) in chosen
      ensures LinksWithin(tasks, chosen, x) <==>
              && (forall b, q :: !ItemRefers(Delete(tasks, chosen), b, q, x))
              && (forall m :: !MetaRefers(Delete(tasks, chosen), m, x))
    {
      ReferencesLeft(tasks, chosen, x);
      LinksAreReferences(tasks, chosen, x);
    }
    assert Closed(tasks, chosen) <==> forall x | WebTask(x) in chosen :: LinksWithin(tasks, chosen, x) by {
      forall t | t in chosen && t.WebTask? ensures t == WebTask(t.id) {}
    }
  }

  function TasksThere(tasks: Tasks, candidates: seq<Candidate>): set<TaskId> {
    set c | c in candidates && Present(tasks, c.task) :: c.task
  }

  /** A prepared operation can be applied exactly if each of its tasks has ended with the rows that were
      collected, or is missing where that is allowed, and nothing would be left that refers to a download
      deleted with it. */
  lemma {:induction false} DeletableExactly(tasks: Tasks, candidates: seq<Candidate>, allowMissing: bool)
    ensures Deletable(tasks, candidates, allowMissing) <==>
            && (forall c | c in candidates ::
                  if Present(tasks, c.task) then HasEnded(tasks, c.task) && SaysRows(tasks, c) else allowMissing)
            && NothingRefersTo(Delete(tasks, TasksThere(tasks, candidates)), TasksThere(tasks, candidates))
  {
    forall c | c in candidates
      ensures Refresh(tasks, c).Fresh? <==> HasEnded(tasks, c.task) && SaysRows(tasks, c)
    {
      FreshExactly(tasks, c);
    }
    if forall c | c in candidates :: !Refresh(tasks, c).Changed? {
      assert TaskSet(StillThere(tasks, candidates)) == TasksThere(tasks, candidates);
      ClosedExactly(tasks, TasksThere(tasks, candidates));
    }
  }

  // ---------------------------------------------------------------- nothing else ever goes

  lemma ChosenHaveEnded(w: World, id: OperationId, t: TaskId)
    requires id in w.library.operations && t in Chosen(w, id)
    ensures HasEnded(w.tasks, t)
  {
    var c :| c in StillThere(w.tasks, w.library.operations[id].candidates) && c.task == t;
    FreshExactly(w.tasks, c);
  }

  lemma OtherStepKeepsTables(w: World, step: Step)
    requires Enabled(w, step) && !IsApply(step) && !step.Write?
    ensures After(w, step).tasks == w.tasks
  {
  }

  lemma StepDeletesChosen(w: World, step: Step, t: TaskId)
    requires Enabled(w, step) && !step.Write? && Present(w.tasks, t) && !Present(After(w, step).tasks, t)
    ensures IsApply(step) && t in GoneIn(w, step)
  {
    if IsApply(step) {
      ApplyIsApplied(w, step);
      DeleteRemovesExactly(w.tasks, GoneIn(w, step));
    } else {
      OtherStepKeepsTables(w, step);
    }
  }

  /** In every run: whatever goes in a step of a cleanup or of recovery has ended at that moment. */
  lemma DeletedHadEnded(worlds: seq<World>, steps: seq<Step>, j: nat, t: TaskId)
    requires IsRun(worlds, steps) && j < |steps| && !steps[j].Write?
    requires Present(worlds[j].tasks, t) && !Present(worlds[j + 1].tasks, t)
    ensures HasEnded(worlds[j].tasks, t)
  {
    RunStep(worlds, steps, j);
    StepDeletesChosen(worlds[j], steps[j], t);
    ApplyIsApplied(worlds[j], steps[j]);
    ReachedAreChosen(EffectOfStep(steps[j]), Chosen(worlds[j], AppliedId(worlds[j], steps[j])));
    ChosenHaveEnded(worlds[j], AppliedId(worlds[j], steps[j]), t);
  }

  // ---------------------------------------------------------------- where the columns are afterwards

  ghost predicate Says(lib: Library, k: FactKey, p: Payload) {
    k in lib.facts && lib.facts[k].payload == p
  }

  /** Every download that has gone from `before` to `after` is archived with its status and columns, every
      metadata job with its status, review and columns, and every batch with its root, page, status and
      columns. */
  ghost predicate RowsAreArchived(before: Tasks, after: Tasks, lib: Library) {
    && (forall id | id in before.web && id !in after.web ::
          Says(lib, WebKey(id), WebFact(before.web[id].status, before.web[id].archived)))
    && (forall id | id in before.meta && id !in after.meta ::
          Says(lib, MetaKey(id), MetaFact(before.meta[id].status, before.meta[id].review, before.meta[id].archived)))
    && (forall b | b in before.batches && b !in after.batches ::
          var row := before.batches[b];
          row.root.Some? && Says(lib, BatchKey(b), BatchFact(row.root.value, row.page, row.status, row.archived)))
  }

  /** And every item of a batch that has gone, with its root, download and columns, whatever its display code
      is. */
  ghost predicate ItemsAreArchived(before: Tasks, after: Tasks, lib: Library) {
    forall b, q | b in before.batches && b !in after.batches && q in before.batches[b].items ::
      && before.batches[b].root.Some? && ItemKey(b, q) in lib.facts
      && var fact, item := lib.facts[ItemKey(b, q)].payload, before.batches[b].items[q];
         fact.ItemFact? && fact == ItemFact(before.batches[b].root.value, fact.code, item.job, item.archived)
  }

  lemma HadWeb(tasks: Tasks, id: Id)
    requires id in tasks.web
    ensures Had(tasks, WebTask(id), WebKey(id), WebFact(tasks.web[id].status, tasks.web[id].archived))
  {
  }

  lemma HadMeta(tasks: Tasks, id: Id)
    requires id in tasks.meta
    ensures Had(tasks, MetaTask(id), MetaKey(id),
                MetaFact(tasks.meta[id].status, tasks.meta[id].review, tasks.meta[id].archived))
  {
  }

  lemma HadBatch(tasks: Tasks, b: Id, q: nat)
    requires b in tasks.batches && tasks.batches[b].root.Some?
    ensures var row, t := tasks.batches[b], ChainTask(tasks.batches[b].root.value);
            && Had(tasks, t, BatchKey(b), BatchFact(t.id, row.page, row.status, row.archived))
            && (q in row.items ==>
                  Had(tasks, t, ItemKey(b, q), ItemFact(t.id, CodeAt(tasks.codes, b, q), row.items[q].job, row.items[q].archived)))
  {
    assert Present(tasks, ChainTask(tasks.batches[b].root.value));
  }

  /** What a world says about the tasks that have gone in a step before it. */
  ghost predicate Holds(before: Tasks, gone: set<TaskId>, w: World) {
    forall t, k, p | t in gone && Had(before, t, k, p) :: (k, p) in w.removed
  }

  lemma GoneAreHeld(w: World, gone: set<TaskId>, before: Tasks)
    requires Archived(w) && Holds(before, gone, w)
    ensures RowsAreArchived(before, Delete(before, gone), w.library)
    ensures ItemsAreArchived(before, Delete(before, gone), w.library)
  {
    forall id | id in before.web && WebTask(id) in gone
      ensures Says(w.library, WebKey(id), WebFact(before.web[id].status, before.web[id].archived))
    {
      HadWeb(before, id);
    }
    forall id | id in before.meta && MetaTask(id) in gone
      ensures Says(w.library, MetaKey(id), MetaFact(before.meta[id].status, before.meta[id].review, before.meta[id].archived))
    {
      HadMeta(before, id);
    }
    forall b | b in before.batches && InChains(gone, before.batches[b])
      ensures var row := before.batches[b];
              Says(w.library, BatchKey(b), BatchFact(row.root.value, row.page, row.status, row.archived))
    {
      HadBatch(before, b, 0);
    }
    forall b, q | b in before.batches && InChains(gone, before.batches[b]) && q in before.batches[b].items
      ensures ItemKey(b, q) in w.library.facts
      ensures var fact, item := w.library.facts[ItemKey(b, q)].payload, before.batches[b].items[q];
              fact.ItemFact? && fact == ItemFact(before.batches[b].root.value, fact.code, item.job, item.archived)
    {
      HadBatch(before, b, q);
    }
  }

  lemma RemovedStaysRemoved(w: World, step: Step)
    requires Enabled(w, step)
    ensures w.removed <= After(w, step).removed
  {
  }

  lemma {:induction false} RemovedGrows(worlds: seq<World>, steps: seq<Step>, a: nat, n: nat)
    requires IsRun(worlds, steps) && a <= n < |worlds|
    ensures worlds[a].removed <= worlds[n].removed
  {
    if a < n {
      RemovedGrows(worlds, steps, a, n - 1);
      RunStep(worlds, steps, n - 1);
      RemovedStaysRemoved(worlds[n - 1], steps[n - 1]);
    }
  }

  lemma StepHolds(w: World, step: Step) returns (gone: set<TaskId>)
    requires Enabled(w, step) && !step.Write?
    ensures After(w, step).tasks == Delete(w.tasks, gone) && Holds(w.tasks, gone, After(w, step))
  {
    if IsApply(step) {
      ApplyIsApplied(w, step);
      gone := GoneIn(w, step);
    } else {
      OtherStepKeepsTables(w, step);
      DeletingNothing(w.tasks);
      gone := {};
    }
  }

  lemma HoldsOnward(before: Tasks, gone: set<TaskId>, w: World, later: World)
    requires Holds(before, gone, w) && w.removed <= later.removed
    ensures Holds(before, gone, later)
  {
  }

  lemma GoneStayHeld(worlds: seq<World>, steps: seq<Step>, j: nat, n: nat) returns (gone: set<TaskId>, w: World)
    requires IsRun(worlds, steps) && j < |steps| && !steps[j].Write? && j < n < |worlds|
    ensures worlds[j + 1].tasks == Delete(worlds[j].tasks, gone)
    ensures w == worlds[n] && Archived(w) && Holds(worlds[j].tasks, gone, w)
  {
    RunStep(worlds, steps, j);
    gone := StepHolds(worlds[j], steps[j]);
    RemovedGrows(worlds, steps, j + 1, n);
    w := worlds[n];
    HoldsOnward(worlds[j].tasks, gone, worlds[j + 1], w);
    NothingIsLost(worlds, steps, n);
  }

  /** In every run: the columns of whatever goes in a step of a cleanup or of recovery are in the archive in
      every state after it. */
  lemma DeletedRowsAreArchived(worlds: seq<World>, steps: seq<Step>, j: nat, n: nat)
    requires IsRun(worlds, steps) && j < |steps| && !steps[j].Write? && j < n < |worlds|
    ensures RowsAreArchived(worlds[j].tasks, worlds[j + 1].tasks, worlds[n].library)
    ensures ItemsAreArchived(worlds[j].tasks, worlds[j + 1].tasks, worlds[n].library)
  {
    var gone, w := GoneStayHeld(worlds, steps, j, n);
    GoneAreHeld(w, gone, worlds[j].tasks);
  }

  // ---------------------------------------------------------------- preparing and completing

  ghost predicate IsRecord(items: seq<PreparedItem>, k: FactKey, p: Payload) {
    exists i :: 0 <= i < |items| && k in items[i].records && items[i].records[k] == p
  }

  /** No archived fact says something else than a record of these items. */
  ghost predicate NothingDisagrees(facts: map<FactKey, Fact>, items: seq<PreparedItem>) {
    forall k, p | IsRecord(items, k, p) && k in facts :: facts[k].payload == p
  }

  /** The placements are the records, each under its key. */
  ghost predicate ArePlaced(items: seq<PreparedItem>, placements: map<FactKey, Placed>) {
    && (forall k, p | IsRecord(items, k, p) :: k in placements && placements[k].payload == p)
    && (forall k | k in placements :: IsRecord(items, k, placements[k].payload))
  }

  lemma {:induction false} RecordsArePlaced(items: seq<PreparedItem>)
    requires Unambiguous(items)
    ensures ArePlaced(items, Placements(items))
  {
    forall k, p | IsRecord(items, k, p) ensures k in Placements(items) && Placements(items)[k].payload == p {
      var i :| 0 <= i < |items| && k in items[i].records && items[i].records[k] == p;
      PlacedByItsItem(items, i, k);
    }
    forall k | k in Placements(items) ensures IsRecord(items, k, Placements(items)[k].payload) {
      PlaceIsRecord(items, k);
    }
  }

  lemma {:induction false} PlaceIsRecord(items: seq<PreparedItem>, k: FactKey)
    requires k in Placements(items)
    ensures IsRecord(items, k, Placements(items)[k].payload)
  {
    assert Placements(items)[k] == PlaceOf(items, k);
    assert k in items[PlaceOf(items, k).position].records;
  }

  lemma PlacedAgree(facts: map<FactKey, Fact>, items: seq<PreparedItem>, placements: map<FactKey, Placed>)
    requires ArePlaced(items, placements)
    ensures FactsAgree(facts, placements) <==> NothingDisagrees(facts, items)
  {
  }

  lemma AgreeExactly(facts: map<FactKey, Fact>, items: seq<PreparedItem>)
    requires Unambiguous(items)
    ensures ArePlaced(items, Placements(items))
    ensures FactsAgree(facts, Placements(items)) <==> NothingDisagrees(facts, items)
  {
    RecordsArePlaced(items);
    PlacedAgree(facts, items, Placements(items));
  }

  /** How many facts the items have, with repetitions. */
  function RecordCount(items: seq<PreparedItem>): nat {
    if items == [] then 0 else |items[0].records| + RecordCount(items[1..])
  }

  lemma {:induction false} CountFromTheEnd(items: seq<PreparedItem>, last: PreparedItem)
    ensures RecordCount(items + [last]) == RecordCount(items) + |last.records|
  {
    if items == [] {
      assert items + [last] == [last];
    } else {
      CountFromTheEnd(items[1..], last);
      assert (items + [last])[1..] == items[1..] + [last];
    }
  }

  lemma {:induction false} CountIsSame(items: seq<PreparedItem>)
    ensures FactCount(items) == RecordCount(items)
  {
    if items != [] {
      var n := |items| - 1;
      CountIsSame(items[..n]);
      CountFromTheEnd(items[..n], items[n]);
      assert items == items[..n] + [items[n]];
    }
  }

  /** An operation is prepared exactly if it is not too large, the library has no such operation and no
      prepared one, no task and no record occurs twice, and no archived fact disagrees. */
  lemma {:induction false} PreparesExactly(lib: Library, id: OperationId, items: seq<PreparedItem>, now: Time)
    ensures Prepare(lib, id, items, now).Ok? <==>
            && |items| <= 10000 && RecordCount(items) <= 100000
            && id !in lib.operations && (forall o | o in lib.operations :: !lib.operations[o].status.Prepared?)
            && (forall i, j | 0 <= i < j < |items| ::
                  items[i].candidate.task != items[j].candidate.task && items[i].records.Keys !! items[j].records.Keys)
            && NothingDisagrees(lib.facts, items)
    ensures Prepare(lib, id, items, now) == Err(Invalid) <==> |items| > 10000 || RecordCount(items) > 100000
  {
    CountIsSame(items);
    if Unambiguous(items) {
      AgreeExactly(lib.facts, items);
    }
  }

  /** The facts there were, unchanged, and one new fact for every record there was none of. */
  ghost predicate AreStored(before: map<FactKey, Fact>, after: map<FactKey, Fact>, items: seq<PreparedItem>, now: Time) {
    && (forall k | k in before :: k in after && after[k] == before[k])
    && (forall k, p | IsRecord(items, k, p) :: k in after && after[k].payload == p)
    && (forall k | k in after && k !in before :: after[k].archivedAt == now && IsRecord(items, k, after[k].payload))
  }

  lemma StoredExactly(facts: map<FactKey, Fact>, items: seq<PreparedItem>, placements: map<FactKey, Placed>, now: Time)
    requires ArePlaced(items, placements) && NothingDisagrees(facts, items)
    ensures AreStored(facts, WithFacts(facts, placements, now), items, now)
  {
  }

  /** The prepared library has the facts it had and the new ones, and one more operation for just these
      candidates. */
  lemma PreparedExactly(lib: Library, id: OperationId, items: seq<PreparedItem>, now: Time)
    requires Prepare(lib, id, items, now).Ok?
    ensures var after := Prepare(lib, id, items, now).value;
            && AreStored(lib.facts, after.facts, items, now)
            && after.operations.Keys == lib.operations.Keys + {id}
            && (forall o | o in lib.operations :: after.operations[o] == lib.operations[o])
            && after.operations[id].status.Prepared? && after.operations[id].candidates == CandidatesOf(items)
  {
    AgreeExactly(lib.facts, items);
    StoredExactly(lib.facts, items, Placements(items), now);
  }

  /** Two states of a prepared operation with one digest have the same candidates, and map the same facts at the same
      places; so nothing of it can have changed where an operation loads under its old digest. */
  lemma DigestPinsOperation(lib: Library, other: Library, id: OperationId)
    requires Loads(lib, id) && Loads(other, id) && lib.operations[id].digest == other.operations[id].digest
    ensures var op, same := lib.operations[id], other.operations[id];
            && op.status.Prepared? && same.status.Prepared? && op.candidates == same.candidates
            && op.mappings.Keys == same.mappings.Keys
            && forall k | k in op.mappings ::
                 && k in lib.facts && k in other.facts && lib.facts[k] == other.facts[k]
                 && op.mappings[k].position == same.mappings[k].position < |op.candidates|
                 && op.mappings[k].digest == same.mappings[k].digest == lib.facts[k].payload
  {
    var op, same := lib.operations[id], other.operations[id];
    var summaries := Summaries(lib.facts, op.mappings);
    assert summaries == Summaries(other.facts, same.mappings);
    assert op.mappings.Keys == summaries.Keys == same.mappings.Keys;
    forall k | k in op.mappings ensures lib.facts[k] == other.facts[k] && op.mappings[k].position == same.mappings[k].position {
      assert summaries[k] == Summary(op.mappings[k].position, lib.facts[k]);
    }
  }

  lemma ValidMeansLoads(lib: Library, id: OperationId)
    requires LibraryValid(lib) && IsPrepared(lib, id)
    ensures Loads(lib, id)
  {
    assert Sound(lib.facts, lib.operations[id]);
  }

  /** Completing is refused exactly for an operation that is not there or has another digest; otherwise no fact
      changes, only this operation does, and others only drop out. */
  lemma CompletesExactly(lib: Library, id: OperationId, expected: OperationDigest, now: Time)
    requires LibraryValid(lib)
    ensures Complete(lib, id, expected, now).Ok? <==> id in lib.operations && lib.operations[id].digest == expected
    ensures Complete(lib, id, expected, now).Ok? ==>
              var after := Complete(lib, id, expected, now).value;
              && after.facts == lib.facts
              && id in after.operations && after.operations[id].status.Completed?
              && after.operations[id].candidates == lib.operations[id].candidates
              && after.operations[id].mappings == lib.operations[id].mappings
              && (forall o | o in after.operations && o != id :: o in lib.operations && after.operations[o] == lib.operations[o])
  {
    if id in lib.operations && !lib.operations[id].status.Completed? {
      ValidMeansLoads(lib, id);
    }
  }

  lemma {:induction false} NewestOf(operations: map<OperationId, Operation>, s: set<OperationId>) returns (newest: OperationId)
    requires s != {} && s <= operations.Keys
    ensures newest in s && forall o | o in s && o != newest :: Newer(operations, newest, o)
  {
    var some :| some in s;
    newest := some;
    if s != {some} {
      var other := NewestOf(operations, s - {some});
      if Newer(operations, other, some) {
        newest := other;
      }
      forall o | o in s && o != newest ensures Newer(operations, newest, o) {
        assert o == some || o == other || Newer(operations, other, o);
      }
    }
  }

  lemma EnoughAreKept(operations: map<OperationId, Operation>, id: OperationId, kept: set<OperationId>)
    requires kept == OtherCompleted(operations, id) - StaleOperations(operations, id)
    requires StaleOperations(operations, id) != {}
    ensures |kept| >= MAX_COMPLETED_OPERATIONS - 1
  {
    var newest := NewestOf(operations, StaleOperations(operations, id));
    var newer := set n | n in OtherCompleted(operations, id) && Newer(operations, n, newest);
    assert newer <= kept;
    SubsetSize(newer, kept);
  }

  /** Nothing drops out of the ledger as long as there is room: what is left then is exactly full. */
  lemma DropsOnlyExcess(lib: Library, id: OperationId, expected: OperationDigest, now: Time, gone: OperationId)
    requires LibraryValid(lib) && Complete(lib, id, expected, now).Ok?
    requires gone in lib.operations && gone !in Complete(lib, id, expected, now).value.operations
    ensures |CompletedIn(Complete(lib, id, expected, now).value)| == 256
  {
    var marked := lib.operations[id := lib.operations[id].(status := Completed, updatedAt := now)];
    var kept := OtherCompleted(marked, id) - StaleOperations(marked, id);
    EnoughAreKept(marked, id, kept);
    FewAreKept(marked, id, kept);
    KeptAreCompleted(lib.(operations := marked - StaleOperations(marked, id)), marked, id, kept);
  }

  /** And it is older than every other completed one that stays; of two of one age the one with the smaller id is. */
  lemma DropsOnlyOldest(lib: Library, id: OperationId, now: Time, gone: OperationId, kept: OperationId)
    requires LibraryValid(lib) && Loads(lib, id)
    requires var after := Complete(lib, id, lib.operations[id].digest, now);
             && after.Ok? && gone in lib.operations && gone !in after.value.operations
             && kept in CompletedIn(after.value) && kept != id
    ensures kept in lib.operations && gone != id && lib.operations[gone].status.Completed?
    ensures lib.operations[kept].updatedAt >= lib.operations[gone].updatedAt
    ensures lib.operations[kept].updatedAt == lib.operations[gone].updatedAt ==> kept > gone
  {
    CompleteBoundsLedger(lib, id, now);
    var after := Complete(lib, id, lib.operations[id].digest, now).value;
    assert kept in OtherCompleted(after.operations, id);
    assert Newer(lib.operations, kept, gone);
  }

  function CompletedIn(lib: Library): set<OperationId> {
    set o | o in lib.operations && lib.operations[o].status.Completed?
  }

  lemma KeptAreCompleted(after: Library, marked: map<OperationId, Operation>, id: OperationId, kept: set<OperationId>)
    requires id in marked && marked[id].status.Completed? && after.operations == marked - StaleOperations(marked, id)
    requires kept == OtherCompleted(marked, id) - StaleOperations(marked, id)
    ensures CompletedIn(after) == kept + {id} && |CompletedIn(after)| == |kept| + 1
  {
    assert CompletedIn(after) == kept + {id};
  }
}

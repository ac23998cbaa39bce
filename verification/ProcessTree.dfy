/** The process trees of the download fault matrix: which processes descend from a root, and in which
    order a workload's tree is killed (tools/web_download_fault_matrix.py:1247-1259, 2547-2627). */
module ProcessTree {
  import opened Collections

  type Pid = nat

  type Parents = map<Pid, Pid>

  /** Climbing `n` parent links from `pid`, none of them from `root`, leads to `goal`. */
  ghost predicate Climbs(parents: Parents, root: Pid, pid: Pid, goal: Pid, n: nat)
    decreases n
  {
    if n == 0 then pid == goal
    else pid != root && pid in parents && Climbs(parents, root, parents[pid], goal, n - 1)
  }

  ghost predicate Reaches(parents: Parents, root: Pid, pid: Pid) {
    exists n: nat :: Climbs(parents, root, pid, root, n)
  }

  /** A process is at one depth only, and each ancestor is higher up. */
  lemma {:induction false} AncestorIsHigher(parents: Parents, root: Pid, pid: Pid, ancestor: Pid, n: nat, k: nat)
    requires Climbs(parents, root, pid, root, n) && Climbs(parents, root, pid, ancestor, k)
    ensures k <= n && Climbs(parents, root, ancestor, root, n - k)
    decreases k
  {
    if k > 0 {
      AncestorIsHigher(parents, root, parents[pid], ancestor, n - 1, k - 1);
    }
  }

  lemma {:induction false} OneMoreLink(parents: Parents, root: Pid, pid: Pid, goal: Pid, n: nat)
    requires Climbs(parents, root, pid, goal, n) && goal != root && goal in parents
    ensures Climbs(parents, root, pid, parents[goal], n + 1)
    decreases n
  {
    if n > 0 {
      OneMoreLink(parents, root, parents[pid], goal, n - 1);
    }
  }

  // ---------------------------------------------------------------- descendants

  function ChildrenOf(children: map<Pid, seq<Pid>>, pid: Pid): seq<Pid> {
    if pid in children then children[pid] else []
  }

  /** `children` lists each process of `parents`, but those of `left`, under its parent. */
  ghost predicate AreGrouped(children: map<Pid, seq<Pid>>, parents: Parents, left: set<Pid>) {
    forall parent, pid ::
      pid in ChildrenOf(children, parent) <==> pid in parents && pid !in left && parents[pid] == parent
  }

  lemma NothingGrouped(children: map<Pid, seq<Pid>>, parents: Parents)
    requires children == map[]
    ensures AreGrouped(children, parents, parents.Keys)
  {
    assert children.Keys == {};
    forall parent: Pid ensures ChildrenOf(children, parent) == [] {
      assert parent !in children.Keys;
    }
  }

  lemma GroupedOneMore(children: map<Pid, seq<Pid>>, parents: Parents, left: set<Pid>, pid: Pid)
    requires AreGrouped(children, parents, left) && pid in parents && pid in left
    ensures AreGrouped(children[parents[pid] := ChildrenOf(children, parents[pid]) + [pid]], parents, left - {pid})
  {
    var more := children[parents[pid] := ChildrenOf(children, parents[pid]) + [pid]];
    forall parent, p
      ensures p in ChildrenOf(more, parent) <==> p in parents && p !in left - {pid} && parents[p] == parent
    {
      assert p in ChildrenOf(children, parent) <==> p in parents && p !in left && parents[p] == parent;
      if parent != parents[pid] {
        assert ChildrenOf(more, parent) == ChildrenOf(children, parent);
      }
    }
  }

  /** Groups the processes by parent. */
  method GroupByParent(parents: Parents) returns (children: map<Pid, seq<Pid>>)
    ensures AreGrouped(children, parents, {})
  {
    children := map[];
    NothingGrouped(children, parents);
    var left := parents.Keys;
    while left != {}
      invariant left <= parents.Keys && AreGrouped(children, parents, left)
    {
      var pid :| pid in left;
      GroupedOneMore(children, parents, left, pid);
      children := children[parents[pid] := ChildrenOf(children, parents[pid]) + [pid]];
      left := left - {pid};
    }
  }

  /** What holds of the worklist: everything found reaches the root, and nothing is lost between the
      found processes and the pending ones. */
  ghost predicate Covers(parents: Parents, root: Pid, found: set<Pid>, pending: seq<Pid>) {
    && (forall pid | pid in found || pid in pending :: pid in parents.Keys + {root} && Reaches(parents, root, pid))
    && (root in found || root in pending)
    && (forall pid | pid in parents && parents[pid] in found :: pid in found || pid in pending)
  }

  lemma PopKnown(parents: Parents, root: Pid, found: set<Pid>, rest: seq<Pid>, pid: Pid)
    requires Covers(parents, root, found, rest + [pid]) && pid in found
    ensures Covers(parents, root, found, rest)
  {
    assert forall p :: p in rest + [pid] <==> p in rest || p == pid;
  }

  lemma PopNew(parents: Parents, root: Pid, found: set<Pid>, rest: seq<Pid>, pid: Pid, children: map<Pid, seq<Pid>>)
    requires Covers(parents, root, found, rest + [pid]) && AreGrouped(children, parents, {})
    ensures Covers(parents, root, found + {pid}, rest + ChildrenOf(children, pid))
  {
    assert forall p :: p in rest + [pid] <==> p in rest || p == pid;
    forall child | child in ChildrenOf(children, pid) ensures Reaches(parents, root, child) {
      ChildReaches(parents, root, child);
    }
  }

  lemma NothingPending(parents: Parents, root: Pid, found: set<Pid>, pid: Pid)
    requires Covers(parents, root, found, [])
    ensures pid in found <==> Reaches(parents, root, pid)
  {
    if Reaches(parents, root, pid) {
      var n: nat :| Climbs(parents, root, pid, root, n);
      ClosedHasAll(parents, root, found, pid, n);
    }
  }

  lemma FewerLeft(all: set<Pid>, found: set<Pid>, pid: Pid)
    requires pid in all && pid !in found
    ensures |all - (found + {pid})| < |all - found|
  {
    assert all - (found + {pid}) == (all - found) - {pid};
  }

  /** `_descendant_ids`: exactly the processes that reach the root; it ends even if parent links run in circles. */
  method DescendantIds(parents: Parents, root: Pid) returns (descendants: set<Pid>)
    ensures forall pid :: pid in descendants <==> Reaches(parents, root, pid)
  {
    var children := GroupByParent(parents);
    descendants := {};
    var pending := [root];
    assert Climbs(parents, root, root, root, 0);
    while pending != []
      invariant Covers(parents, root, descendants, pending)
      decreases |parents.Keys + {root} - descendants|, |pending|
    {
      var pid := pending[|pending| - 1];
      var rest := pending[..|pending| - 1];
      assert pending == rest + [pid];
      if pid in descendants {
        PopKnown(parents, root, descendants, rest, pid);
        pending := rest;
      } else {
        PopNew(parents, root, descendants, rest, pid, children);
        FewerLeft(parents.Keys + {root}, descendants, pid);
        descendants := descendants + {pid};
        pending := rest + ChildrenOf(children, pid);
      }
    }
    forall pid ensures pid in descendants <==> Reaches(parents, root, pid) {
      NothingPending(parents, root, descendants, pid);
    }
  }

  lemma ChildReaches(parents: Parents, root: Pid, child: Pid)
    requires child in parents && Reaches(parents, root, parents[child])
    ensures Reaches(parents, root, child)
  {
    var n: nat :| Climbs(parents, root, parents[child], root, n);
    if child == root {
      assert Climbs(parents, root, root, root, 0);
    } else {
      assert Climbs(parents, root, child, root, n + 1);
    }
  }

  lemma {:induction false} ClosedHasAll(parents: Parents, root: Pid, closed: set<Pid>, pid: Pid, n: nat)
    requires root in closed && forall child | child in parents && parents[child] in closed :: child in closed
    requires Climbs(parents, root, pid, root, n)
    ensures pid in closed
    decreases n
  {
    if n > 0 {
      ClosedHasAll(parents, root, closed, parents[pid], n - 1);
    }
  }

  // ---------------------------------------------------------------- the verified tree

  /** A process token: its text, and the creation time that `int` reads from it, if any. */
  datatype ProcessToken = NoToken | ProcessToken(text: nat, time: Option<int>)

  datatype ProcessRecord = ProcessRecord(pid: Pid, parentPid: Pid, measured: bool, token: ProcessToken, command: string)

  datatype Identity = Identity(pid: Pid, token: ProcessToken, command: string)

  datatype TreeError = DuplicatePids | RootIncomplete | Unverified | InvalidTime | ParentCycle | ParentMissing
                     | StaleParent | WorkerOutside

  type Table = map<Pid, ProcessRecord>

  /** The records by pid, later ones replacing earlier ones. */
  function Index(records: seq<ProcessRecord>): Table {
    if records == [] then map[]
    else Index(records[..|records| - 1])[records[|records| - 1].pid := records[|records| - 1]]
  }

  function Links(records: seq<ProcessRecord>): Parents {
    if records == [] then map[]
    else Links(records[..|records| - 1])[records[|records| - 1].pid := records[|records| - 1].parentPid]
  }

  ghost predicate PidsDiffer(records: seq<ProcessRecord>) {
    forall i, j | 0 <= i < j < |records| :: records[i].pid != records[j].pid
  }

  ghost predicate AreLinks(table: Table, parents: Parents) {
    && (forall pid | pid in table :: pid in parents && parents[pid] == table[pid].parentPid && table[pid].pid == pid)
    && (forall pid | pid in parents :: pid in table)
  }

  lemma {:induction false} IndexAndLinks(records: seq<ProcessRecord>)
    ensures AreLinks(Index(records), Links(records))
    ensures forall record | record in records :: record.pid in Index(records)
    ensures forall pid | pid in Index(records) :: Index(records)[pid] in records
  {
    if records != [] {
      var front, last := records[..|records| - 1], records[|records| - 1];
      IndexAndLinks(front);
      assert records == front + [last];
    }
  }

  lemma {:induction false} IndexIsExact(records: seq<ProcessRecord>, i: nat)
    requires PidsDiffer(records) && i < |records|
    ensures records[i].pid in Index(records) && Index(records)[records[i].pid] == records[i]
  {
    var n := |records| - 1;
    if i < n {
      IndexIsExact(records[..n], i);
    }
  }

  /** The table has each of the records, and no other. */
  ghost predicate HoldsExactly(table: Table, records: seq<ProcessRecord>) {
    && (forall i | 0 <= i < |records| :: records[i].pid in table && table[records[i].pid] == records[i])
    && (forall pid | pid in table :: table[pid] in records)
  }

  lemma IndexHoldsExactly(records: seq<ProcessRecord>)
    requires PidsDiffer(records)
    ensures HoldsExactly(Index(records), records) && AreLinks(Index(records), Links(records))
  {
    IndexAndLinks(records);
    forall i | 0 <= i < |records| ensures records[i].pid in Index(records) && Index(records)[records[i].pid] == records[i] {
      IndexIsExact(records, i);
    }
  }

  lemma NewPid(front: seq<ProcessRecord>, last: ProcessRecord)
    requires last.pid !in Index(front)
    ensures PidsDiffer(front + [last]) <==> PidsDiffer(front)
  {
    IndexAndLinks(front);
    var records := front + [last];
    if PidsDiffer(records) {
      forall i, j | 0 <= i < j < |front| ensures front[i].pid != front[j].pid {
        assert records[i].pid != records[j].pid;
      }
    } else {
      var i, j :| 0 <= i < j < |records| && records[i].pid == records[j].pid;
      assert front[i] in front;
    }
  }

  lemma RepeatedPid(front: seq<ProcessRecord>, last: ProcessRecord)
    requires last.pid in Index(front)
    ensures !PidsDiffer(front + [last])
  {
    IndexAndLinks(front);
    var i :| 0 <= i < |front| && front[i] == Index(front)[last.pid];
    assert (front + [last])[i].pid == (front + [last])[|front|].pid;
  }

  lemma {:induction false} IndexSize(records: seq<ProcessRecord>)
    ensures |Index(records)| <= |records|
    ensures |Index(records)| == |records| <==> PidsDiffer(records)
  {
    if records != [] {
      var front, last := records[..|records| - 1], records[|records| - 1];
      IndexSize(front);
      assert records == front + [last];
      if last.pid in Index(front) {
        RepeatedPid(front, last);
      } else {
        NewPid(front, last);
      }
    }
  }

  function CreationTime(record: ProcessRecord): Result<int, TreeError> {
    if !record.measured || record.token.NoToken? then Err(Unverified)
    else match record.token.time
      case None => Err(InvalidTime)
      case Some(time) => if time <= 0 then Err(InvalidTime) else Ok(time)
  }

  predicate LinkIsGood(table: Table, record: ProcessRecord) {
    && record.parentPid in table
    && CreationTime(record).Ok? && CreationTime(table[record.parentPid]).Ok?
    && CreationTime(record).value >= CreationTime(table[record.parentPid]).value
  }

  predicate RootIsGood(root: Identity, table: Table) {
    && root.pid in table && table[root.pid].measured && table[root.pid].token == root.token
    && CreationTime(table[root.pid]).Ok?
  }

  predicate InTree(table: Table, worker: Identity) {
    worker.pid in table && table[worker.pid].token == worker.token
  }

  ghost predicate LinksAreGood(root: Pid, table: Table) {
    forall pid | pid in table && pid != root :: LinkIsGood(table, table[pid])
  }

  ghost predicate TreeIsGood(root: Pid, table: Table, parents: Parents) {
    LinksAreGood(root, table) && forall pid | pid in table && pid != root :: Reaches(parents, root, pid)
  }

  ghost predicate NoneIsOutside(table: Table, workers: seq<Identity>, isCurrent: Identity -> bool) {
    forall worker | worker in workers :: InTree(table, worker) || !isCurrent(worker)
  }

  /** Exactly what makes a process tree safe to kill: one record per pid, the root is the workload, each
      other record is no older than its parent and its parent links reach the root, and no running
      worker is outside. */
  ghost predicate IsVerified(root: Identity, records: seq<ProcessRecord>, workers: seq<Identity>, isCurrent: Identity -> bool) {
    var table := Index(records);
    && PidsDiffer(records) && RootIsGood(root, table) && TreeIsGood(root.pid, table, Links(records))
    && NoneIsOutside(table, workers, isCurrent)
  }

  // ---------------------------------------------------------------- the verified tree, on its records

  predicate IsTimed(record: ProcessRecord) {
    record.measured && record.token.ProcessToken? && record.token.time.Some? && record.token.time.value > 0
  }

  /** A record of the process that started this one, and started no later. */
  predicate IsParentOf(parent: ProcessRecord, child: ProcessRecord) {
    && parent.pid == child.parentPid && IsTimed(parent) && IsTimed(child)
    && parent.token.time.value <= child.token.time.value
  }

  /** From a process to its parent, and so on. */
  ghost predicate IsChain(chain: seq<ProcessRecord>, records: seq<ProcessRecord>) {
    && (forall i | 0 <= i < |chain| :: chain[i] in records)
    && (forall i | 0 <= i < |chain| - 1 :: IsParentOf(chain[i + 1], chain[i]))
  }

  ghost predicate LeadsTo(records: seq<ProcessRecord>, record: ProcessRecord, root: Identity) {
    exists chain: seq<ProcessRecord> :: chain != [] && chain[0] == record && chain[|chain| - 1].pid == root.pid && IsChain(chain, records)
  }

  predicate IsRecordOf(record: ProcessRecord, identity: Identity) {
    record.pid == identity.pid && record.token == identity.token
  }

  ghost predicate AreRecorded(records: seq<ProcessRecord>, workers: seq<Identity>, isCurrent: Identity -> bool) {
    forall worker | worker in workers :: (exists record | record in records :: IsRecordOf(record, worker)) || !isCurrent(worker)
  }

  /** One record for each process, the root as it was found, and from every other record a chain of parents, none of them
      younger than its child, to the root; and no running worker without a record. */
  ghost predicate IsSound(root: Identity, records: seq<ProcessRecord>, workers: seq<Identity>, isCurrent: Identity -> bool) {
    && (forall i, j | 0 <= i < j < |records| :: records[i].pid != records[j].pid)
    && (exists record | record in records :: IsRecordOf(record, root) && IsTimed(record))
    && (forall record | record in records :: LeadsTo(records, record, root))
    && AreRecorded(records, workers, isCurrent)
  }

  lemma TimedIs(record: ProcessRecord)
    ensures IsTimed(record) <==> record.measured && CreationTime(record).Ok?
    ensures IsTimed(record) ==> CreationTime(record) == Ok(record.token.time.value)
  {
  }

  lemma InTreeIs(records: seq<ProcessRecord>, worker: Identity)
    requires HoldsExactly(Index(records), records) && AreLinks(Index(records), Links(records))
    ensures InTree(Index(records), worker) <==> exists record | record in records :: IsRecordOf(record, worker)
  {
    if InTree(Index(records), worker) {
      assert IsRecordOf(Index(records)[worker.pid], worker);
    }
  }

  lemma LinkIs(records: seq<ProcessRecord>, record: ProcessRecord)
    requires HoldsExactly(Index(records), records) && AreLinks(Index(records), Links(records)) && record in records
    ensures LinkIsGood(Index(records), record) <==> exists parent | parent in records :: IsParentOf(parent, record)
  {
    var table := Index(records);
    if record.parentPid in table {
      TimedIs(record);
      TimedIs(table[record.parentPid]);
    }
    if LinkIsGood(table, record) {
      assert IsParentOf(table[record.parentPid], record);
    }
  }

  lemma ChainBefore(records: seq<ProcessRecord>, record: ProcessRecord, rest: seq<ProcessRecord>)
    requires rest != [] && IsChain(rest, records) && record in records && IsParentOf(rest[0], record)
    ensures IsChain([record] + rest, records)
  {
    var chain := [record] + rest;
    forall i | 0 <= i < |chain| - 1 ensures IsParentOf(chain[i + 1], chain[i]) {
      assert i > 0 ==> IsParentOf(rest[i], rest[i - 1]);
    }
  }

  lemma {:induction false} ClimbsIsChain(records: seq<ProcessRecord>, record: ProcessRecord, root: Identity, n: nat)
    returns (chain: seq<ProcessRecord>)
    requires HoldsExactly(Index(records), records) && AreLinks(Index(records), Links(records)) && record in records
    requires LinksAreGood(root.pid, Index(records)) && Climbs(Links(records), root.pid, record.pid, root.pid, n)
    ensures chain != [] && chain[0] == record && chain[|chain| - 1].pid == root.pid && IsChain(chain, records)
    decreases n
  {
    chain := [record];
    if n > 0 {
      LinkIs(records, record);
      var parent :| parent in records && IsParentOf(parent, record);
      var rest := ClimbsIsChain(records, parent, root, n - 1);
      ChainBefore(records, record, rest);
      chain := [record] + rest;
      assert chain[|chain| - 1] == rest[|rest| - 1];
    }
  }

  lemma {:induction false} ChainClimbs(records: seq<ProcessRecord>, chain: seq<ProcessRecord>, root: Identity)
    requires HoldsExactly(Index(records), records) && AreLinks(Index(records), Links(records))
    requires chain != [] && chain[|chain| - 1].pid == root.pid && IsChain(chain, records)
    ensures Reaches(Links(records), root.pid, chain[0].pid)
  {
    var parents := Links(records);
    if chain[0].pid == root.pid {
      assert Climbs(parents, root.pid, root.pid, root.pid, 0);
    } else {
      assert IsParentOf(chain[1], chain[0]);
      ChainClimbs(records, chain[1..], root);
      assert chain[0] in records;
      ChildReaches(parents, root.pid, chain[0].pid);
    }
  }

  lemma ChainStarts(records: seq<ProcessRecord>, record: ProcessRecord, root: Identity)
    requires LeadsTo(records, record, root) && record.pid != root.pid
    ensures exists parent | parent in records :: IsParentOf(parent, record)
  {
    var chain: seq<ProcessRecord> :| chain != [] && chain[0] == record && chain[|chain| - 1].pid == root.pid && IsChain(chain, records);
    assert IsParentOf(chain[1], chain[0]) && chain[1] in records;
  }

  lemma TreeIsSound(root: Identity, records: seq<ProcessRecord>)
    requires HoldsExactly(Index(records), records) && AreLinks(Index(records), Links(records))
    ensures TreeIsGood(root.pid, Index(records), Links(records)) <==>
            forall record | record in records :: LeadsTo(records, record, root)
  {
    var table, parents := Index(records), Links(records);
    if TreeIsGood(root.pid, table, parents) {
      forall record | record in records ensures LeadsTo(records, record, root) {
        assert table[record.pid] == record;
        if record.pid == root.pid {
          assert Climbs(parents, root.pid, record.pid, root.pid, 0);
        }
        var n: nat :| Climbs(parents, root.pid, record.pid, root.pid, n);
        var chain := ClimbsIsChain(records, record, root, n);
      }
    }
    if forall record | record in records :: LeadsTo(records, record, root) {
      forall pid | pid in table && pid != root.pid ensures LinkIsGood(table, table[pid]) && Reaches(parents, root.pid, pid) {
        var record := table[pid];
        ChainStarts(records, record, root);
        LinkIs(records, record);
        var chain: seq<ProcessRecord> :| chain != [] && chain[0] == record && chain[|chain| - 1].pid == root.pid && IsChain(chain, records);
        ChainClimbs(records, chain, root);
      }
    }
  }

  lemma RootIsSound(root: Identity, records: seq<ProcessRecord>)
    requires HoldsExactly(Index(records), records) && AreLinks(Index(records), Links(records))
    ensures RootIsGood(root, Index(records)) <==>
            exists record | record in records :: IsRecordOf(record, root) && IsTimed(record)
  {
    var table := Index(records);
    if root.pid in table {
      TimedIs(table[root.pid]);
      if RootIsGood(root, table) {
        assert IsRecordOf(table[root.pid], root);
      }
    }
  }

  lemma WorkersAreSound(records: seq<ProcessRecord>, workers: seq<Identity>, isCurrent: Identity -> bool)
    requires HoldsExactly(Index(records), records) && AreLinks(Index(records), Links(records))
    ensures NoneIsOutside(Index(records), workers, isCurrent) <==> AreRecorded(records, workers, isCurrent)
  {
    forall worker | worker in workers
      ensures InTree(Index(records), worker) <==> exists record | record in records :: IsRecordOf(record, worker)
    {
      InTreeIs(records, worker);
    }
  }

  /** A tree is verified exactly if it is sound. */
  lemma VerifiedExactly(root: Identity, records: seq<ProcessRecord>, workers: seq<Identity>, isCurrent: Identity -> bool)
    ensures IsVerified(root, records, workers, isCurrent) <==> IsSound(root, records, workers, isCurrent)
  {
    if PidsDiffer(records) {
      IndexHoldsExactly(records);
      RootIsSound(root, records);
      TreeIsSound(root, records);
      WorkersAreSound(records, workers, isCurrent);
    }
  }

  // ---------------------------------------------------------------- the walk up

  /** Fewer than `depth` links lead from `pid` to each of `seen`. */
  ghost predicate WereBefore(parents: Parents, root: Pid, pid: Pid, seen: set<Pid>, depth: nat) {
    forall p | p in seen :: exists k: nat | k < depth :: Climbs(parents, root, pid, p, k)
  }

  /** A walk from `pid` stands at `cursor` after `depth` links; it was at each of `seen` before. */
  ghost predicate IsWalked(parents: Parents, root: Pid, pid: Pid, cursor: Pid, seen: set<Pid>, depth: nat) {
    Climbs(parents, root, pid, cursor, depth) && WereBefore(parents, root, pid, seen, depth)
  }

  lemma WalkedOn(parents: Parents, root: Pid, pid: Pid, cursor: Pid, seen: set<Pid>, depth: nat)
    requires IsWalked(parents, root, pid, cursor, seen, depth) && cursor != root && cursor in parents
    ensures IsWalked(parents, root, pid, parents[cursor], seen + {cursor}, depth + 1)
  {
    forall p | p in seen + {cursor} ensures exists k: nat | k < depth + 1 :: Climbs(parents, root, pid, p, k) {
      if p in seen {
        var k: nat :| k < depth && Climbs(parents, root, pid, p, k);
      }
    }
    OneMoreLink(parents, root, pid, cursor, depth);
  }

  /** Parent links that come back to a process never reach the root. */
  lemma TwiceIsNever(parents: Parents, root: Pid, pid: Pid, again: Pid, seen: set<Pid>, depth: nat)
    requires IsWalked(parents, root, pid, again, seen, depth) && again in seen
    ensures !Reaches(parents, root, pid)
  {
    if Reaches(parents, root, pid) {
      var n: nat :| Climbs(parents, root, pid, root, n);
      var k: nat :| k < depth && Climbs(parents, root, pid, again, k);
      AncestorIsHigher(parents, root, pid, again, n, depth);
      AncestorIsHigher(parents, root, pid, again, n, k);
      AncestorIsHigher(parents, root, again, root, n - depth, n - k);
    }
  }

  lemma BadLink(root: Pid, table: Table, parents: Parents, record: ProcessRecord)
    requires record.pid in table && table[record.pid] == record && record.pid != root
    ensures !LinkIsGood(table, record) ==> !TreeIsGood(root, table, parents)
  {
  }

  /** The walk from one record up to the root; its result is the depth. */
  method Walk(root: Pid, table: Table, ghost parents: Parents, record: ProcessRecord) returns (r: Result<nat, TreeError>)
    requires AreLinks(table, parents) && root in table && record.pid in table && table[record.pid] == record
    ensures r.Ok? ==> Climbs(parents, root, record.pid, root, r.value)
    ensures r.Ok? && record.pid != root ==> LinkIsGood(table, record)
    ensures r.Err? && record.pid != root ==> !TreeIsGood(root, table, parents)
    ensures r == Err(ParentCycle) ==> !Reaches(parents, root, record.pid)
  {
    var cursor, depth := record, 0;
    var seen: set<Pid> := {};
    while cursor.pid != root
      invariant seen <= table.Keys && cursor.pid in table && table[cursor.pid] == cursor
      invariant IsWalked(parents, root, record.pid, cursor.pid, seen, depth)
      invariant depth > 0 && record.pid != root ==> LinkIsGood(table, record)
      decreases |table.Keys - seen|
    {
      if cursor.pid in seen {
        TwiceIsNever(parents, root, record.pid, cursor.pid, seen, depth);
        return Err(ParentCycle);
      }
      FewerLeft(table.Keys, seen, cursor.pid);
      WalkedOn(parents, root, record.pid, cursor.pid, seen, depth);
      seen := seen + {cursor.pid};
      BadLink(root, table, parents, cursor);
      if cursor.parentPid !in table {
        return Err(ParentMissing);
      }
      var parent := table[cursor.parentPid];
      if CreationTime(cursor).Err? {
        return Err(CreationTime(cursor).error);
      }
      if CreationTime(parent).Err? {
        return Err(CreationTime(parent).error);
      }
      if CreationTime(cursor).value < CreationTime(parent).value {
        return Err(StaleParent);
      }
      cursor, depth := parent, depth + 1;
    }
    r := Ok(depth);
  }

  // ---------------------------------------------------------------- the kill list

  datatype Key = Key(pid: Pid, token: ProcessToken)

  function KeyOf(identity: Identity): Key { Key(identity.pid, identity.token) }

  type Identities = map<Key, Identity>

  function FromRecord(record: ProcessRecord): Identity {
    Identity(record.pid, record.token, if |record.command| > 2048 then record.command[..2048] else record.command)
  }

  /** A process as its record has it, with the first 2048 characters of its command. */
  predicate Describes(record: ProcessRecord, identity: Identity) {
    && IsRecordOf(record, identity) && identity.command <= record.command
    && |identity.command| == if |record.command| <= 2048 then |record.command| else 2048
  }

  /** The dictionary comprehension that opens the function. */
  method IndexByPid(records: seq<ProcessRecord>) returns (table: Table)
    ensures table == Index(records)
  {
    table := map[];
    for i := 0 to |records|
      invariant table == Index(records[..i])
    {
      assert records[..i + 1][..i] == records[..i];
      table := table[records[i].pid := records[i]];
    }
    assert records[..|records|] == records;
  }

  /** Every entry is filed under its own pid and token, and those are the ones its record has. */
  ghost predicate AreFiled(identities: Identities, table: Table) {
    forall key | key in identities :: KeyOf(identities[key]) == key && InTree(table, identities[key])
  }

  ghost predicate AreDescribed(identities: Identities, table: Table) {
    forall key | key in identities :: key.pid in table && Describes(table[key.pid], identities[key])
  }

  ghost predicate AreDepths(depths: map<Pid, nat>, parents: Parents, root: Pid) {
    forall pid | pid in depths :: Climbs(parents, root, pid, root, depths[pid])
  }

  /** What is known after some of the records: the depth of each, the identity of each but the root. */
  ghost predicate AreMeasured(done: seq<ProcessRecord>, depths: map<Pid, nat>, identities: Identities, root: Pid,
                              table: Table, parents: Parents)
  {
    && AreDepths(depths, parents, root) && AreFiled(identities, table) && AreDescribed(identities, table)
    && (forall pid | pid in depths :: pid in table)
    && (forall pid | pid in table :: pid in depths <==> pid == root || table[pid] in done)
    && (forall pid | pid in table ::
          Key(pid, table[pid].token) in identities <==> pid != root && table[pid] in done)
    && (forall record | record in done && record.pid != root :: LinkIsGood(table, record))
  }

  lemma MeasuredOneMore(done: seq<ProcessRecord>, depths: map<Pid, nat>, identities: Identities, root: Pid,
                        table: Table, parents: Parents, record: ProcessRecord, depth: nat)
    requires AreMeasured(done, depths, identities, root, table, parents)
    requires record.pid in table && table[record.pid] == record && AreLinks(table, parents)
    requires record.pid != root && Climbs(parents, root, record.pid, root, depth) && LinkIsGood(table, record)
    ensures AreMeasured(done + [record], depths[record.pid := depth],
                        identities[Key(record.pid, record.token) := FromRecord(record)], root, table, parents)
  {
    assert forall r :: r in done + [record] <==> r in done || r == record;
  }

  lemma MeasuredRoot(done: seq<ProcessRecord>, depths: map<Pid, nat>, identities: Identities, root: Pid,
                     table: Table, parents: Parents, record: ProcessRecord)
    requires AreMeasured(done, depths, identities, root, table, parents)
    requires record.pid in table && table[record.pid] == record && record.pid == root && AreLinks(table, parents)
    ensures AreMeasured(done + [record], depths, identities, root, table, parents)
  {
    assert forall r :: r in done + [record] <==> r in done || r == record;
  }

  lemma NothingMeasured(root: Pid, table: Table, parents: Parents)
    requires root in table
    ensures AreMeasured([], map[root := 0], map[], root, table, parents)
  {
  }

  /** The body of the loop over the records. */
  method MeasureOne(root: Pid, table: Table, ghost parents: Parents, ghost done: seq<ProcessRecord>, record: ProcessRecord,
                    depths: map<Pid, nat>, identities: Identities)
    returns (r: Result<(map<Pid, nat>, Identities), TreeError>)
    requires AreMeasured(done, depths, identities, root, table, parents) && AreLinks(table, parents)
    requires root in table && record.pid in table && table[record.pid] == record
    ensures r.Err? ==> !TreeIsGood(root, table, parents)
    ensures r.Ok? ==> AreMeasured(done + [record], r.value.0, r.value.1, root, table, parents)
  {
    if record.pid == root {
      MeasuredRoot(done, depths, identities, root, table, parents, record);
      return Ok((depths, identities));
    }
    var walked := Walk(root, table, parents, record);
    if walked.Err? {
      return Err(walked.error);
    }
    MeasuredOneMore(done, depths, identities, root, table, parents, record, walked.value);
    r := Ok((depths[record.pid := walked.value], identities[Key(record.pid, record.token) := FromRecord(record)]));
  }

  /** The loop over the records. */
  method MeasureTree(root: Pid, table: Table, ghost parents: Parents, records: seq<ProcessRecord>)
    returns (r: Result<(map<Pid, nat>, Identities), TreeError>)
    requires HoldsExactly(table, records) && AreLinks(table, parents) && root in table
    ensures r.Ok? <==> TreeIsGood(root, table, parents)
    ensures r.Ok? ==> r.value.0.Keys == table.Keys && AreMeasured(records, r.value.0, r.value.1, root, table, parents)
  {
    NothingMeasured(root, table, parents);
    var depths: map<Pid, nat>, identities: Identities := map[root := 0], map[];
    for i := 0 to |records|
      invariant AreMeasured(records[..i], depths, identities, root, table, parents)
    {
      assert records[..i + 1] == records[..i] + [records[i]];
      var one := MeasureOne(root, table, parents, records[..i], records[i], depths, identities);
      if one.Err? {
        return Err(one.error);
      }
      depths, identities := one.value.0, one.value.1;
    }
    assert records[..|records|] == records;
    MeasuredIsGood(root, table, parents, records, depths, identities);
    AllAreMeasured(root, table, parents, records, depths, identities);
    r := Ok((depths, identities));
  }

  lemma MeasuredReaches(root: Pid, table: Table, parents: Parents, records: seq<ProcessRecord>, depths: map<Pid, nat>,
                        identities: Identities, pid: Pid)
    requires HoldsExactly(table, records) && AreMeasured(records, depths, identities, root, table, parents)
    requires AreLinks(table, parents) && pid in table && pid != root
    ensures LinkIsGood(table, table[pid]) && Reaches(parents, root, pid)
  {
    assert Climbs(parents, root, pid, root, depths[pid]);
  }

  lemma AllAreMeasured(root: Pid, table: Table, parents: Parents, records: seq<ProcessRecord>, depths: map<Pid, nat>,
                       identities: Identities)
    requires HoldsExactly(table, records) && root in table && AreMeasured(records, depths, identities, root, table, parents)
    ensures depths.Keys == table.Keys
  {
    assert forall pid | pid in table :: pid in depths;
  }

  lemma MeasuredIsGood(root: Pid, table: Table, parents: Parents, records: seq<ProcessRecord>, depths: map<Pid, nat>,
                       identities: Identities)
    requires HoldsExactly(table, records) && AreMeasured(records, depths, identities, root, table, parents)
    requires AreLinks(table, parents)
    ensures TreeIsGood(root, table, parents)
  {
    forall pid | pid in table && pid != root ensures LinkIsGood(table, table[pid]) && Reaches(parents, root, pid) {
      MeasuredReaches(root, table, parents, records, depths, identities, pid);
    }
  }

  /** The identities measured, and those of the workers inside the tree. */
  ghost predicate AreJoined(table: Table, measured: Identities, workers: seq<Identity>, identities: Identities) {
    forall key :: key in identities <==>
      key in measured || exists worker | worker in workers :: InTree(table, worker) && KeyOf(worker) == key
  }

  /** No worker after it has its key. */
  ghost predicate IsNamedLast(workers: seq<Identity>, identity: Identity) {
    exists n | 0 <= n < |workers| ::
      workers[n] == identity && forall m | n < m < |workers| :: KeyOf(workers[m]) != KeyOf(identity)
  }

  ghost predicate IsUnnamed(workers: seq<Identity>, key: Key) {
    forall i | 0 <= i < |workers| :: KeyOf(workers[i]) != key
  }

  /** The identity of the last worker that has the key, or the one measured. */
  ghost predicate AreNamed(measured: Identities, workers: seq<Identity>, identities: Identities) {
    forall key | key in identities ::
      IsNamedLast(workers, identities[key])
      || (IsUnnamed(workers, key) && key in measured && identities[key] == measured[key])
  }

  lemma NamedStill(workers: seq<Identity>, identity: Identity, worker: Identity)
    requires KeyOf(worker) != KeyOf(identity)
    ensures IsNamedLast(workers, identity) ==> IsNamedLast(workers + [worker], identity)
    ensures IsUnnamed(workers, KeyOf(identity)) ==> IsUnnamed(workers + [worker], KeyOf(identity))
  {
    var more := workers + [worker];
    if IsNamedLast(workers, identity) {
      var n :| 0 <= n < |workers| && workers[n] == identity
               && forall m | n < m < |workers| :: KeyOf(workers[m]) != KeyOf(identity);
      assert more[n] == identity && forall m | n < m < |more| :: KeyOf(more[m]) != KeyOf(identity);
    }
  }

  lemma NamedNow(workers: seq<Identity>, worker: Identity)
    ensures IsNamedLast(workers + [worker], worker)
  {
    assert (workers + [worker])[|workers|] == worker;
  }

  lemma NamedOneMore(measured: Identities, workers: seq<Identity>, identities: Identities, worker: Identity, next: Identities)
    requires AreNamed(measured, workers, identities)
    requires forall key | key in identities :: KeyOf(identities[key]) == key
    requires next == identities[KeyOf(worker) := worker] || (next == identities && KeyOf(worker) !in identities)
    ensures AreNamed(measured, workers + [worker], next)
  {
    forall key | key in next
      ensures IsNamedLast(workers + [worker], next[key])
              || (IsUnnamed(workers + [worker], key) && key in measured && next[key] == measured[key])
    {
      if key == KeyOf(worker) {
        NamedNow(workers, worker);
      } else {
        NamedStill(workers, identities[key], worker);
      }
    }
  }

  /** The loop over the workers. */
  method AddWorkers(table: Table, measured: Identities, workers: seq<Identity>, isCurrent: Identity -> bool)
    returns (r: Result<Identities, TreeError>)
    requires AreFiled(measured, table)
    ensures r.Ok? <==> NoneIsOutside(table, workers, isCurrent)
    ensures r.Ok? ==> AreFiled(r.value, table) && AreJoined(table, measured, workers, r.value)
    ensures r.Ok? ==> AreNamed(measured, workers, r.value)
  {
    var identities := measured;
    for i := 0 to |workers|
      invariant NoneIsOutside(table, workers[..i], isCurrent)
      invariant AreFiled(identities, table) && AreJoined(table, measured, workers[..i], identities)
      invariant AreNamed(measured, workers[..i], identities)
    {
      var worker := workers[i];
      assert workers[..i + 1] == workers[..i] + [worker];
      NamedOneMore(measured, workers[..i], identities, worker,
                   if InTree(table, worker) then identities[KeyOf(worker) := worker] else identities);
      if InTree(table, worker) {
        identities := identities[KeyOf(worker) := worker];
      } else if isCurrent(worker) {
        return Err(WorkerOutside);
      }
    }
    assert workers[..|workers|] == workers;
    r := Ok(identities);
  }

  // ---------------------------------------------------------------- sorting

  /** Deeper first, then the larger pid: the reverse of the sort key. */
  predicate Precedes(a: Identity, b: Identity, depths: map<Pid, nat>)
    requires a.pid in depths && b.pid in depths
  {
    depths[a.pid] > depths[b.pid] || (depths[a.pid] == depths[b.pid] && a.pid > b.pid)
  }

  ghost predicate AreSorted(kills: seq<Identity>, depths: map<Pid, nat>) {
    && (forall i | 0 <= i < |kills| :: kills[i].pid in depths)
    && (forall i, j | 0 <= i < j < |kills| :: Precedes(kills[i], kills[j], depths))
  }

  function Insert(kills: seq<Identity>, identity: Identity, depths: map<Pid, nat>): seq<Identity>
    requires identity.pid in depths && forall i | 0 <= i < |kills| :: kills[i].pid in depths
  {
    if kills == [] || Precedes(identity, kills[0], depths) then [identity] + kills
    else [kills[0]] + Insert(kills[1..], identity, depths)
  }

  lemma {:induction false} InsertSorts(kills: seq<Identity>, identity: Identity, depths: map<Pid, nat>)
    requires AreSorted(kills, depths) && identity.pid in depths
    requires forall i | 0 <= i < |kills| :: kills[i].pid != identity.pid
    ensures AreSorted(Insert(kills, identity, depths), depths)
    ensures forall x :: x in Insert(kills, identity, depths) <==> x in kills || x == identity
  {
    if kills != [] && !Precedes(identity, kills[0], depths) {
      var rest := Insert(kills[1..], identity, depths);
      InsertSorts(kills[1..], identity, depths);
      assert kills == [kills[0]] + kills[1..];
      forall i | 0 <= i < |rest| ensures Precedes(kills[0], rest[i], depths) {
        assert rest[i] in kills[1..] || rest[i] == identity;
      }
    }
  }

  ghost predicate ListsExactly(kills: seq<Identity>, identities: Identities) {
    forall x :: x in kills <==> KeyOf(x) in identities && identities[KeyOf(x)] == x
  }

  /** `sorted(identities.values(), key=(depth, pid), reverse=True)`. */
  method SortByDepth(identities: Identities, table: Table, depths: map<Pid, nat>) returns (kills: seq<Identity>)
    requires AreFiled(identities, table) && depths.Keys == table.Keys
    ensures AreSorted(kills, depths)
    ensures ListsExactly(kills, identities)
  {
    kills := [];
    var left := identities.Keys;
    while left != {}
      invariant left <= identities.Keys && AreSorted(kills, depths)
      invariant forall x :: x in kills <==> KeyOf(x) in identities && KeyOf(x) !in left && identities[KeyOf(x)] == x
    {
      var key :| key in left;
      forall i | 0 <= i < |kills| ensures kills[i].pid != key.pid {
        assert kills[i] in kills;
        assert InTree(table, identities[KeyOf(kills[i])]) && InTree(table, identities[key]);
      }
      InsertSorts(kills, identities[key], depths);
      kills := Insert(kills, identities[key], depths);
      left := left - {key};
    }
  }

  // ---------------------------------------------------------------- the function

  /** What a worker says of itself, the last one that names the process; else what its record says. */
  ghost predicate IsIdentityIn(records: seq<ProcessRecord>, workers: seq<Identity>, identity: Identity) {
    && (exists record | record in records :: IsRecordOf(record, identity))
    && (|| IsNamedLast(workers, identity)
        || (IsUnnamed(workers, KeyOf(identity)) && exists record | record in records :: Describes(record, identity)))
  }

  /** A safe order to kill a tree in: each process once and before its ancestors, every process but the
      root, the root too only if a worker names it, and each with the identity that was verified. */
  ghost predicate IsKillOrder(root: Identity, records: seq<ProcessRecord>, workers: seq<Identity>, kills: seq<Identity>) {
    && (forall i, j | 0 <= i < j < |kills| :: kills[i].pid != kills[j].pid)
    && (forall i, j, n: nat | 0 <= i < j < |kills| :: !Climbs(Links(records), root.pid, kills[j].pid, kills[i].pid, n))
    && (forall i | 0 <= i < |kills| :: IsIdentityIn(records, workers, kills[i]))
    && (forall pid :: (exists i :: 0 <= i < |kills| && kills[i].pid == pid) <==>
          pid in Index(records) && (pid != root.pid || exists worker | worker in workers :: KeyOf(worker) == KeyOf(root)))
  }

  lemma SortedIsBottomUp(parents: Parents, root: Pid, depths: map<Pid, nat>, kills: seq<Identity>, i: nat, j: nat)
    requires AreDepths(depths, parents, root) && AreSorted(kills, depths) && i < j < |kills|
    ensures kills[i].pid != kills[j].pid
    ensures forall n: nat :: !Climbs(parents, root, kills[j].pid, kills[i].pid, n)
  {
    assert Precedes(kills[i], kills[j], depths);
    forall n: nat ensures !Climbs(parents, root, kills[j].pid, kills[i].pid, n) {
      if Climbs(parents, root, kills[j].pid, kills[i].pid, n) {
        AncestorIsHigher(parents, root, kills[j].pid, kills[i].pid, depths[kills[j].pid], n);
        AncestorIsHigher(parents, root, kills[i].pid, root, depths[kills[i].pid], depths[kills[j].pid] - n);
      }
    }
  }

  lemma ListedIsIn(records: seq<ProcessRecord>, workers: seq<Identity>, measured: Identities, identities: Identities, key: Key)
    requires AreFiled(identities, Index(records)) && AreDescribed(measured, Index(records))
    requires AreNamed(measured, workers, identities) && key in identities
    ensures IsIdentityIn(records, workers, identities[key])
  {
    IndexAndLinks(records);
    assert IsRecordOf(Index(records)[key.pid], identities[key]);
  }

  lemma SortedIsKillOrder(root: Identity, records: seq<ProcessRecord>, workers: seq<Identity>, depths: map<Pid, nat>,
                          measured: Identities, identities: Identities, kills: seq<Identity>)
    requires RootIsGood(root, Index(records)) && AreSorted(kills, depths) && AreFiled(identities, Index(records))
    requires AreMeasured(records, depths, measured, root.pid, Index(records), Links(records))
    requires AreJoined(Index(records), measured, workers, identities) && ListsExactly(kills, identities)
    requires AreNamed(measured, workers, identities)
    ensures IsKillOrder(root, records, workers, kills)
  {
    IndexAndLinks(records);
    var table := Index(records);
    forall i, j | 0 <= i < j < |kills|
      ensures kills[i].pid != kills[j].pid && forall n: nat :: !Climbs(Links(records), root.pid, kills[j].pid, kills[i].pid, n)
    {
      SortedIsBottomUp(Links(records), root.pid, depths, kills, i, j);
    }
    forall i | 0 <= i < |kills| ensures IsIdentityIn(records, workers, kills[i]) {
      assert kills[i] in kills;
      ListedIsIn(records, workers, measured, identities, KeyOf(kills[i]));
    }
    forall pid
      ensures (exists i :: 0 <= i < |kills| && kills[i].pid == pid) <==>
              pid in table && (pid != root.pid || exists worker | worker in workers :: KeyOf(worker) == KeyOf(root))
    {
      ListedExactly(root, table, workers, measured, identities, kills, pid);
    }
  }

  lemma ListedExactly(root: Identity, table: Table, workers: seq<Identity>, measured: Identities, identities: Identities,
                      kills: seq<Identity>, pid: Pid)
    requires RootIsGood(root, table) && AreFiled(identities, table) && AreFiled(measured, table)
    requires forall p | p in table :: Key(p, table[p].token) in measured <==> p != root.pid
    requires AreJoined(table, measured, workers, identities) && ListsExactly(kills, identities)
    ensures (exists i :: 0 <= i < |kills| && kills[i].pid == pid) <==>
            pid in table && (pid != root.pid || exists worker | worker in workers :: KeyOf(worker) == KeyOf(root))
  {
    if i :| 0 <= i < |kills| && kills[i].pid == pid {
      assert kills[i] in kills;
      assert InTree(table, identities[KeyOf(kills[i])]);
    }
    if pid in table && Key(pid, table[pid].token) in identities {
      var x := identities[Key(pid, table[pid].token)];
      assert x in kills;
    }
  }

  /** `_fallback_tree_identities`: a kill list exactly if the tree is verified, and then a safe one. */
  method FallbackTreeIdentities(root: Identity, records: seq<ProcessRecord>, workers: seq<Identity>,
                                isCurrent: Identity -> bool)
    returns (r: Result<seq<Identity>, TreeError>)
    ensures r.Ok? <==> IsSound(root, records, workers, isCurrent)
    ensures r.Ok? ==> IsKillOrder(root, records, workers, r.value)
  {
    var table := IndexByPid(records);
    IndexSize(records);
    VerifiedExactly(root, records, workers, isCurrent);
    if |table| != |records| {
      return Err(DuplicatePids);
    }
    if root.pid !in table || !table[root.pid].measured || table[root.pid].token != root.token {
      return Err(RootIncomplete);
    }
    if CreationTime(table[root.pid]).Err? {
      return Err(CreationTime(table[root.pid]).error);
    }
    IndexHoldsExactly(records);
    var tree := MeasureTree(root.pid, table, Links(records), records);
    if tree.Err? {
      return Err(tree.error);
    }
    var (depths, measured) := tree.value;
    var identities := AddWorkers(table, measured, workers, isCurrent);
    if identities.Err? {
      return Err(identities.error);
    }
    var kills := SortByDepth(identities.value, table, depths);
    SortedIsKillOrder(root, records, workers, depths, measured, identities.value, kills);
    r := Ok(kills);
  }
}

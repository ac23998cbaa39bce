/**
 * Runs of the replacement store: any calls, in any order, at any times
 * (jav_pilot/downloads/replacements.py).
 */
module ReplacementRuns {
  import opened Collections
  import CatalogCode
  import opened ReplacementRow
  import opened ReplacementStore

  const EMPTY := Store(map[], map[], 0)

  /** States, the calls between them, and the times of the calls. */
  datatype Run = Run(stores: seq<Store>, calls: seq<Call>, times: seq<Time>) {
    ghost predicate Valid() {
      && |stores| == |calls| + 1 && |times| == |calls|
      && stores[0] == EMPTY
      && forall i | 0 <= i < |calls| :: Steps(i)
    }

    ghost predicate Steps(i: nat)
      requires i < |calls| && |stores| == |calls| + 1 && |times| == |calls|
    {
      stores[i + 1] == After(stores[i], calls[i], times[i]).0
    }
  }

  lemma NextKeepsInv(run: Run, i: nat)
    requires run.Valid() && i < |run.calls| && StoreInv(run.stores[i])
    ensures StoreInv(run.stores[i + 1])
  {
    assert run.Steps(i);
    CallKeepsInv(run.stores[i], run.calls[i], run.times[i]);
  }

  /** Every state of every run satisfies the invariant of every row, and no source ever has two active
      rows. */
  lemma {:induction false} RunKeepsInv(run: Run, i: nat)
    requires run.Valid() && i < |run.stores|
    ensures StoreInv(run.stores[i])
  {
    if i > 0 {
      RunKeepsInv(run, i - 1);
      NextKeepsInv(run, i - 1);
    }
  }

  lemma RunStep(run: Run, i: nat)
    requires run.Valid() && i < |run.calls|
    ensures StoreInv(run.stores[i]) && StoreInv(run.stores[i + 1])
    ensures StepInOrder(run.stores[i], run.calls[i], run.times[i], run.stores[i + 1])
  {
    RunKeepsInv(run, i);
    assert run.Steps(i);
    CallKeepsInv(run.stores[i], run.calls[i], run.times[i]);
  }

  /** One step of a run, for a row that is there before and after. */
  lemma RowStep(run: Run, i: nat, id: Id)
    requires run.Valid() && i < |run.calls| && id in run.stores[i].rows && id in run.stores[i + 1].rows
    ensures RowInv(id, run.stores[i].rows[id], run.stores[i].issued)
    ensures RowInv(id, run.stores[i + 1].rows[id], run.stores[i + 1].issued)
    ensures Evolves(run.stores[i].rows[id], run.stores[i + 1].rows[id], run.times[i], run.stores[i].issued, AuthorityFor(run.calls[i], id))
  {
    RunStep(run, i);
  }

  // ---------------------------------------------------------------- what a status means

  /** In every state of every run: open, completed and expired rows hold no lease; submitting rows and rows
      with a created target hold the lease, the key and the target; discarding rows hold the lease and
      a disposition. */
  lemma StatusMeans(run: Run, i: nat, id: Id)
    requires run.Valid() && i < |run.stores| && id in run.stores[i].rows
    ensures var row := run.stores[i].rows[id];
            var s := row.submission;
            && (row.status.Open? || row.status.Completed? || row.status.Expired? ==> s.lease == NO_LEASE)
            && (row.status.Submitting? || row.status.ReplacementCreated? ==>
                  s.lease.token.Some? && s.lease.until.Some? && s.key.Some? && s.targetKind.Some? && s.targetId.Some?)
            && (row.status.Discarding? ==> s.lease.token.Some? && s.lease.until.Some? && row.disposition.Some?)
            && (row.discovery.lease.token.Some? ==> row.discovery.status.Running?)
  {
    RunKeepsInv(run, i);
    assert RowInv(id, run.stores[i].rows[id], run.stores[i].issued);
  }

  /** A running smart selection means an open or expired row that was searched for magnets and has some. */
  lemma SelectingMeans(run: Run, i: nat, id: Id)
    requires run.Valid() && i < |run.stores| && id in run.stores[i].rows && IsSelecting(run.stores[i].rows[id])
    ensures var row := run.stores[i].rows[id];
            && (row.status.Open? || row.status.Expired?)
            && row.discovery.mode.SmartMagnet? && row.discovery.status.Found? && row.discovery.magnet.status.Available?
  {
    RunKeepsInv(run, i);
    assert RowInv(id, run.stores[i].rows[id], run.stores[i].issued);
  }

  /** No source has two active rows at a time. */
  lemma OneActiveRow(run: Run, i: nat, a: Id, b: Id)
    requires run.Valid() && i < |run.stores| && a in run.stores[i].rows && b in run.stores[i].rows
    requires IsActive(run.stores[i].rows[a].status) && IsActive(run.stores[i].rows[b].status)
    requires run.stores[i].rows[a].source == run.stores[i].rows[b].source
    ensures a == b
  {
    RunKeepsInv(run, i);
    assert OnlyActive(run.stores[i].rows, a) && OnlyActive(run.stores[i].rows, b);
  }

  // ---------------------------------------------------------------- reopening the database

  predicate IsNormal(code: CatalogCode.Identity) {
    CatalogCode.Normalize(code.display, MAX_CODE_LENGTH) == Some(code)
  }

  /** A call about a code brings what some text normalizes to. */
  predicate IsNormalCall(call: Call) {
    call.CreateOrReuse? && call.code.Some? ==> IsNormal(call.code.value)
  }

  ghost predicate NormalRows(rows: map<Id, Row>) {
    forall id | id in rows :: IsNormal(rows[id].code)
  }

  ghost predicate NormalArchive(archive: map<string, Archived>) {
    forall key | key in archive :: IsNormal(CatalogCode.Identity(archive[key].code, key))
  }

  /** `_verify_schema`. */
  ghost predicate Verifies(s: Store) {
    (forall id | id in s.rows :: VerifiesRow(s.rows[id])) && NormalRows(s.rows) && NormalArchive(s.archive)
  }

  lemma ArchiveAfter(s: Store, call: Call, now: Time, after: Store)
    requires NormalRows(s.rows) && NormalArchive(s.archive) && ArchiveInOrder(s, call, now, after.archive)
    ensures NormalArchive(after.archive)
  {
    forall key | key in after.archive ensures IsNormal(CatalogCode.Identity(after.archive[key].code, key)) {
      if IsArchiving(s, call, now, key, after.archive[key]) {
        var code := s.rows[call.id].code;
        assert IsNormal(code) && code == CatalogCode.Identity(code.display, key);
      }
    }
  }

  /** Whatever a run has written passes the checks when the database is opened again. */
  lemma {:induction false} RunVerifies(run: Run, i: nat)
    requires run.Valid() && i < |run.stores|
    requires forall k | 0 <= k < |run.calls| :: IsNormalCall(run.calls[k])
    ensures Verifies(run.stores[i])
  {
    if i > 0 {
      RunVerifies(run, i - 1);
      RunStep(run, i - 1);
      ArchiveAfter(run.stores[i - 1], run.calls[i - 1], run.times[i - 1], run.stores[i]);
      forall id | id in run.stores[i].rows ensures VerifiesRow(run.stores[i].rows[id]) && IsNormal(run.stores[i].rows[id].code) {
        InvariantVerifies(id, run.stores[i].rows[id], run.stores[i].issued);
      }
    }
  }

  // ---------------------------------------------------------------- fencing

  datatype LeaseKind = OfSubmission | OfDiscovery

  function LeaseAt(s: Store, id: Id, kind: LeaseKind): Lease {
    if id !in s.rows then NO_LEASE
    else if kind.OfSubmission? then s.rows[id].submission.lease else s.rows[id].discovery.lease
  }

  /** Once a token has lost its lease, it never gets it back: not by any calls, expiry or restarts. */
  lemma {:induction false} StaleForever(run: Run, i: nat, j: nat,
                                        id: Id, kind: LeaseKind, t: Token)
    requires run.Valid() && i <= j < |run.stores|
    requires t < run.stores[i].issued && LeaseAt(run.stores[i], id, kind).token != Some(t)
    ensures t < run.stores[j].issued && LeaseAt(run.stores[j], id, kind).token != Some(t)
  {
    if i < j {
      StaleForever(run, i, j - 1, id, kind, t);
      NoOldToken(run, j - 1, id, kind, t);
    }
  }

  /** One step: a lease keeps its token, loses it, or gets one that was never used before. */
  lemma NoOldToken(run: Run, i: nat, id: Id, kind: LeaseKind, t: Token)
    requires run.Valid() && i < |run.calls|
    requires t < run.stores[i].issued && LeaseAt(run.stores[i], id, kind).token != Some(t)
    ensures t < run.stores[i + 1].issued && LeaseAt(run.stores[i + 1], id, kind).token != Some(t)
  {
    if id in run.stores[i].rows && id in run.stores[i + 1].rows {
      RowStep(run, i, id);
    }
    StepKeepsTokens(run, i, id);
  }

  lemma StepKeepsTokens(run: Run, i: nat, id: Id)
    requires run.Valid() && i < |run.calls|
    ensures run.stores[i].issued <= run.stores[i + 1].issued
    ensures id in run.stores[i + 1].rows && id !in run.stores[i].rows ==> IsCreation(run.calls[i], run.stores[i + 1].rows[id], id)
    ensures id in run.stores[i].rows && id !in run.stores[i + 1].rows ==>
              IsDisposal(run.stores[i], run.calls[i], run.times[i], run.stores[i + 1], id)
  {
    RunStep(run, i);
  }

  /** As long as a lease has not run out, its token is not used and nothing is restarted, nobody else
      gets it: it stays, or the row has expired for good. */
  lemma {:induction false} LeaseIsExclusive(run: Run, i: nat, j: nat,
                                            id: Id, kind: LeaseKind, t: Token, until: Time)
    requires run.Valid() && i <= j < |run.stores|
    requires LeaseAt(run.stores[i], id, kind) == Granted(t, until)
    requires forall k | i <= k < j ::
               run.times[k] < until && AuthorityFor(run.calls[k], id).token != Some(t) && !AuthorityFor(run.calls[k], id).restarts
    ensures id in run.stores[j].rows
    ensures LeaseAt(run.stores[j], id, kind) == Granted(t, until)
            || (run.stores[j].rows[id].status.Expired? && LeaseAt(run.stores[j], id, kind).token.None?)
  {
    if i < j {
      LeaseIsExclusive(run, i, j - 1, id, kind, t, until);
      LeaseStep(run, j - 1, id, kind, t, until);
    }
  }

  lemma LeaseStep(run: Run, i: nat, id: Id, kind: LeaseKind, t: Token, until: Time)
    requires run.Valid() && i < |run.calls| && id in run.stores[i].rows
    requires LeaseAt(run.stores[i], id, kind) == Granted(t, until)
             || (run.stores[i].rows[id].status.Expired? && LeaseAt(run.stores[i], id, kind).token.None?)
    requires run.times[i] < until
    requires AuthorityFor(run.calls[i], id).token != Some(t) && !AuthorityFor(run.calls[i], id).restarts
    ensures id in run.stores[i + 1].rows
    ensures LeaseAt(run.stores[i + 1], id, kind) == Granted(t, until)
            || (run.stores[i + 1].rows[id].status.Expired? && LeaseAt(run.stores[i + 1], id, kind).token.None?)
  {
    StepKeepsTokens(run, i, id);
    RunKeepsInv(run, i);
    assert RowInv(id, run.stores[i].rows[id], run.stores[i].issued);
    if id in run.stores[i + 1].rows {
      RowStep(run, i, id);
    }
  }

  /** The kind of lease a call presents a token for. */
  function KindOf(call: Call): LeaseKind {
    if call.FinishMagnet? || call.FinishWeb? then OfDiscovery else OfSubmission
  }

  /** A call with a token that does not hold the lease changes nothing at all. */
  lemma StaleTokenChangesNothing(s: Store, call: Call, now: Time)
    requires BringsToken(call)
    requires LeaseAt(s, call.id, KindOf(call)).token != AuthorityOf(call).token || AuthorityOf(call).token.None?
    ensures After(s, call, now).0 == s
    ensures After(s, call, now).1.Replied? ==>
              call.FinishCleanup? && call.removed && call.id in s.rows && s.rows[call.id].status.Completed?
  {
    if Objection(call).None? && call.id in s.rows {
      StaleTokenIsRefused(s.rows[call.id], call, now, s.issued);
      if !AnswerOf(s.rows[call.id], call, now, s.issued).Refused? {
        assert s.rows[call.id := s.rows[call.id]] == s.rows;
      }
    }
  }

  lemma StaleTokenIsRefused(row: Row, call: Call, now: Time, issued: Token)
    requires BringsToken(call) && Objection(call).None?
    requires AuthorityOf(call).token.None? || AuthorityOf(call).token !=
               if KindOf(call).OfDiscovery? then row.discovery.lease.token else row.submission.lease.token
    ensures var answer := AnswerOf(row, call, now, issued);
            if call.FinishCleanup? && call.removed && row.status.Completed? then answer == Done(row)
            else answer.Refused? && !answer.reply.Replied?
  {
  }

  /** While a smart selection runs, neither a submission nor a discovery nor a disposition can start. */
  lemma SelectionBlocksTheRest(s: Store, call: Call, now: Time)
    requires StoreInv(s) && (call.BeginSubmission? || call.QueueDiscovery? || call.BeginDisposition?)
    requires call.id in s.rows && IsSelecting(s.rows[call.id])
    ensures After(s, call, now).0 == s
    ensures After(s, call, now).1 in {Conflict, Nothing, Invalid}
  {
    var row := Expire(s.rows[call.id], now);
    assert RowInv(call.id, s.rows[call.id], s.issued);
    ExpireSucceeds(call.id, s.rows[call.id], now, s.issued, NOBODY);
    if Objection(call).None? {
      SelectingRowRefuses(call.id, row, call, now, s.issued);
    }
  }

  lemma SelectingRowRefuses(id: Id, row: Row, call: Call, now: Time, issued: Token)
    requires RowInv(id, row, issued) && IsSelecting(row)
    requires (call.BeginSubmission? || call.QueueDiscovery? || call.BeginDisposition?) && Objection(call).None?
    ensures AnswerOf(row, call, now, issued) in {Refused(Conflict), Refused(Nothing)}
  {
  }

  /** Only the selection begun last can record an outcome. */
  lemma OlderSelectionChangesNothing(s: Store, call: Call, now: Time)
    requires call.FinishSelection?
    requires call.id in s.rows ==> s.rows[call.id].selection.id != Some(call.selection)
    ensures After(s, call, now).0 == s && After(s, call, now).1 in {Conflict, Invalid}
  {
    if call.id in s.rows && Objection(call).None? {
      assert AnswerOf(s.rows[call.id], call, now, s.issued) == Refused(Conflict);
    }
  }

  // ---------------------------------------------------------------- lifetimes

  ghost predicate PresentThroughout(run: Run, i: nat, j: nat, id: Id)
    requires i <= j < |run.stores|
  {
    forall k | i <= k <= j :: id in run.stores[k].rows
  }

  /** Source, revision and code of a row never change; completed and expired are never left; the expiry
      time never moves back. */
  lemma {:induction false} RowOnlyAdvances(run: Run, i: nat, j: nat, id: Id)
    requires run.Valid() && i <= j < |run.stores| && PresentThroughout(run, i, j, id)
    ensures var first, last := run.stores[i].rows[id], run.stores[j].rows[id];
            && last.source == first.source && last.revision == first.revision && last.code == first.code
            && last.createdAt == first.createdAt && first.expiresAt <= last.expiresAt
            && (first.status.Completed? ==> last == first)
            && (first.status.Expired? ==> last.status.Expired? && last.submission == first.submission)
  {
    if i < j {
      RowOnlyAdvances(run, i, j - 1, id);
      RowStep(run, j - 1, id);
    }
  }

  predicate IsRelease(s: Store, call: Call, id: Id) {
    call.ReleaseSubmission? && call.id == id && LeaseAt(s, id, OfSubmission).token == Some(call.token)
  }

  /** From its first submission on, the key and the target of a row stay the same, unless the holder of
      the submission lease gives it back. */
  lemma {:induction false} TargetIsFixed(run: Run, i: nat, j: nat, id: Id)
    requires run.Valid() && i <= j < |run.stores| && PresentThroughout(run, i, j, id)
    requires run.stores[i].rows[id].submission.key.Some?
    requires forall k | i <= k < j :: !IsRelease(run.stores[k], run.calls[k], id)
    ensures SameTarget(run.stores[i].rows[id].submission, run.stores[j].rows[id].submission)
  {
    if i < j {
      TargetIsFixed(run, i, j - 1, id);
      RowStep(run, j - 1, id);
      assert !IsRelease(run.stores[j - 1], run.calls[j - 1], id);
    }
  }

  /** The call clears the disposition of `id` and its selection, or begins another selection. */
  predicate IsRechoice(call: Call, id: Id) {
    (call.QueueDiscovery? || call.BeginSelection?) && call.id == id
  }

  /** The disposition chosen first survives failed attempts and restarts, until a new discovery or
      selection starts over. */
  lemma {:induction false} DispositionIsKept(run: Run, i: nat, j: nat, id: Id)
    requires run.Valid() && i <= j < |run.stores| && PresentThroughout(run, i, j, id)
    requires run.stores[i].rows[id].disposition.Some?
    requires forall k | i <= k < j :: !IsRechoice(run.calls[k], id)
    ensures run.stores[j].rows[id].disposition == run.stores[i].rows[id].disposition
  {
    if i < j {
      DispositionIsKept(run, i, j - 1, id);
      RowStep(run, j - 1, id);
      assert !IsRechoice(run.calls[j - 1], id);
    }
  }

  lemma {:induction false} SelectionStays(run: Run, i: nat, j: nat, id: Id)
    requires run.Valid() && i <= j < |run.stores| && PresentThroughout(run, i, j, id)
    requires forall k | i <= k < j :: !IsRechoice(run.calls[k], id)
    ensures run.stores[j].rows[id].selection.id == run.stores[i].rows[id].selection.id
    decreases j
  {
    if i < j {
      assert PresentThroughout(run, i, j - 1, id);
      SelectionStays(run, i, j - 1, id);
      RowStep(run, j - 1, id);
      assert !IsRechoice(run.calls[j - 1], id);
    }
  }

  /** An outcome is not final: until the row is queued or a selection begins again, the selection begun
      last can record one whenever the row is open, in place of whatever it or a restart recorded. */
  lemma LastOutcomeWins(run: Run, i: nat, j: nat, id: Id, selection: Id, outcome: Outcome, cleanup: CleanupStatus, now: Time)
    requires run.Valid() && i <= j < |run.stores| && PresentThroughout(run, i, j, id)
    requires forall k | i <= k < j :: !IsRechoice(run.calls[k], id)
    requires run.stores[i].rows[id].selection.id == Some(selection) && run.stores[j].rows[id].status.Open?
    requires !outcome.SelectionRunning?
    ensures var s, row := run.stores[j], run.stores[j].rows[id];
            var recorded := Selection(Some(selection), Some(outcome), Some(cleanup), Some(now));
            After(s, FinishSelection(id, selection, row.revision, outcome, cleanup), now).0
              == s.(rows := s.rows[id := row.(selection := recorded, updatedAt := now)])
  {
    SelectionStays(run, i, j, id);
    RunKeepsInv(run, j);
    assert RowInv(id, run.stores[j].rows[id], run.stores[j].issued);
  }

  /** In every state of every run a call records an outcome exactly if the row is open, has the revision the
      call names, and the call names the selection begun last; it need not be running.  Any other call
      changes nothing. */
  lemma RecordsExactly(run: Run, i: nat, id: Id, selection: Id, revision: string, outcome: Outcome, cleanup: CleanupStatus, now: Time)
    requires run.Valid() && i < |run.stores|
    ensures var s := run.stores[i];
            var (after, reply) := After(s, FinishSelection(id, selection, revision, outcome, cleanup), now);
            && (reply.Replied? <==> && id in s.rows && s.rows[id].status.Open? && s.rows[id].revision == revision
                                    && s.rows[id].selection.id == Some(selection) && !outcome.SelectionRunning?)
            && (reply.Replied? ==> id in after.rows && after.rows[id].selection
                                     == Selection(Some(selection), Some(outcome), Some(cleanup), Some(now)))
            && (!reply.Replied? ==> after == s)
  {
    RunKeepsInv(run, i);
    CallRecordsExactly(run.stores[i], id, selection, revision, outcome, cleanup, now);
  }

  lemma CallRecordsExactly(s: Store, id: Id, selection: Id, revision: string, outcome: Outcome, cleanup: CleanupStatus, now: Time)
    requires StoreInv(s)
    ensures var (after, reply) := After(s, FinishSelection(id, selection, revision, outcome, cleanup), now);
            && (reply.Replied? <==> && id in s.rows && s.rows[id].status.Open? && s.rows[id].revision == revision
                                    && s.rows[id].selection.id == Some(selection) && !outcome.SelectionRunning?)
            && (reply.Replied? ==> id in after.rows && after.rows[id].selection
                                     == Selection(Some(selection), Some(outcome), Some(cleanup), Some(now)))
            && (!reply.Replied? ==> after == s)
  {
    if id in s.rows {
      assert RowInv(id, s.rows[id], s.issued);
    }
  }

  // ---------------------------------------------------------------- a run that records two outcomes

  lemma RunGoesOn(run: Run, call: Call, now: Time) returns (longer: Run)
    requires run.Valid()
    ensures longer.Valid() && longer.calls == run.calls + [call]
    ensures longer.stores == run.stores + [After(run.stores[|run.calls|], call, now).0]
  {
    longer := Run(run.stores + [After(run.stores[|run.calls|], call, now).0], run.calls + [call], run.times + [now]);
    forall i | 0 <= i < |longer.calls| ensures longer.Steps(i) {
      assert i < |run.calls| ==> run.Steps(i);
    }
  }

  lemma QueuedRow(source: Source, revision: string, code: CatalogCode.Identity, id: Id) returns (run: Run, row: Row)
    ensures run.Valid() && |run.calls| == 2 && run.stores[2] == Store(map[id := row], map[], 0)
    ensures row == Requeued(NewRow(source, revision, code, 0.0, DEFAULT_TTL), SmartMagnet, 0.0)
  {
    var made := NewRow(source, revision, code, 0.0, DEFAULT_TTL);
    run := RunGoesOn(Run([EMPTY], [], []), CreateOrReuse(source, revision, Some(code), DEFAULT_TTL, id), 0.0);
    assert ExpireAll(map[], 0.0) == map[];
    assert run.stores[1] == Store(map[id := made], map[], 0);
    run := RunGoesOn(run, QueueDiscovery(id, SmartMagnet), 0.0);
    row := Requeued(made, SmartMagnet, 0.0);
    assert ExpireAll(map[id := made], 0.0) == map[id := made];
    assert map[id := made][id := row] == map[id := row];
  }

  /** Every source comes to a row that a selection can begin for, with whatever magnets are found. */
  lemma SelectableIsReachable(source: Source, revision: string, code: CatalogCode.Identity, id: Id, magnet: Magnet)
    returns (run: Run)
    requires magnet.status.Available? && MagnetInv(magnet)
    ensures run.Valid() && id in run.stores[|run.calls|].rows && CanSelect(run.stores[|run.calls|].rows[id], revision)
  {
    var row;
    run, row := QueuedRow(source, revision, code, id);
    var claimed := DiscoveryClaimed(row, 0, DEFAULT_LEASE, 0.0);
    run := RunGoesOn(run, ClaimDiscovery(id, DEFAULT_LEASE), 0.0);
    assert map[id := row][id := claimed] == map[id := claimed];
    run := RunGoesOn(run, FinishMagnet(id, 0, magnet), 0.0);
  }

  /** From there a run records any outcome, and then any other in its place. */
  lemma OutcomeIsOverwritten(before: Run, id: Id, selection: Id, revision: string, first: Outcome, second: Outcome,
                             cleanup: CleanupStatus, now: Time)
    returns (run: Run)
    requires before.Valid() && id in before.stores[|before.calls|].rows && CanSelect(before.stores[|before.calls|].rows[id], revision)
    requires !first.SelectionRunning? && !second.SelectionRunning?
    ensures run.Valid() && |run.calls| == |before.calls| + 3
    ensures var n := |before.calls|;
            && run.calls == before.calls + [BeginSelection(id, selection, revision),
                                            FinishSelection(id, selection, revision, first, cleanup),
                                            FinishSelection(id, selection, revision, second, cleanup)]
            && id in run.stores[n + 2].rows && run.stores[n + 2].rows[id].selection.outcome == Some(first)
            && id in run.stores[n + 3].rows && run.stores[n + 3].rows[id].selection.outcome == Some(second)
  {
    run := RunGoesOn(before, BeginSelection(id, selection, revision), now);
    run := RunGoesOn(run, FinishSelection(id, selection, revision, first, cleanup), now);
    run := RunGoesOn(run, FinishSelection(id, selection, revision, second, cleanup), now);
  }

  // ---------------------------------------------------------------- leaving the table

  /** A row leaves the table only when the holder of its disposition lease reports the removal; and its
      code is in the archive then if that is its disposition. */
  lemma LeavesOnlyByDisposition(run: Run, i: nat, id: Id)
    requires run.Valid() && i < |run.calls|
    requires id in run.stores[i].rows && id !in run.stores[i + 1].rows
    ensures run.calls[i].FinishDisposition? && run.calls[i].id == id && run.calls[i].removed
    ensures var row := run.stores[i].rows[id];
            && row.status.Discarding? && row.submission.lease.token == Some(run.calls[i].token)
            && (row.disposition == Some(Archive) ==>
                  && row.code.key in run.stores[i + 1].archive
                  && run.stores[i + 1].archive[row.code.key] == Archived(row.code.display, run.times[i]))
            && (row.disposition != Some(Archive) ==> run.stores[i + 1].archive == run.stores[i].archive)
  {
    StepKeepsTokens(run, i, id);
  }
}

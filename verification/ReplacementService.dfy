/**
 * The store as an object over its two tables (jav_pilot/downloads/replacements.py).  Every method is
 * written statement by statement, with its rollbacks, computes the transition of its call and keeps the
 * invariant of the store.
 */
module ReplacementService {
  import opened Collections
  import CatalogCode
  import opened ReplacementRow
  import opened ReplacementStore

  class DownloadReplacementStore {
    var rows: map<Id, Row>
    var archive: map<string, Archived>
    var issued: Token

    ghost function View(): Store
      reads this
    {
      Store(rows, archive, issued)
    }

    ghost predicate Valid()
      reads this
    {
      StoreInv(View())
    }

    constructor ()
      ensures Valid() && View() == Store(map[], map[], 0)
    {
      rows, archive, issued := map[], map[], 0;
    }

    // -------------------------------------------------------------- statements

    /** An update of every row, as a statement over the whole table makes it. */
    method UpdateAll(f: Row -> Row)
      modifies this`rows
      ensures rows == MapRows(old(rows), f)
    {
      var todo := rows.Keys;
      while todo != {}
        invariant todo <= rows.Keys == old(rows).Keys
        invariant forall id | id in rows :: rows[id] == if id in todo then old(rows)[id] else f(old(rows)[id])
      {
        var id :| id in todo;
        rows := rows[id := f(rows[id])];
        todo := todo - {id};
      }
    }

    /** `_expire_locked`. */
    method ExpireLocked(now: Time)
      modifies this`rows
      ensures rows == ExpireAll(old(rows), now)
    {
      UpdateAll(row => Reopen(row, now));
      UpdateAll(row => Retire(row, now));
    }

    method NewToken() returns (token: Token)
      modifies this`issued
      ensures token == old(issued) && issued == old(issued) + 1
    {
      token := issued;
      issued := issued + 1;
    }

    /** The active row of a source; the index of active rows allows for one. */
    method FindActive(source: Source) returns (id: Option<Id>)
      requires OneActive(rows)
      ensures id == ActiveFor(rows, source)
    {
      var todo := rows.Keys;
      while todo != {}
        invariant todo <= rows.Keys
        invariant forall x | x in rows && x !in todo :: !IsActiveFor(rows[x], source)
      {
        var x :| x in todo;
        if IsActiveFor(rows[x], source) {
          assert OnlyActive(rows, x);
          return Some(x);
        }
        todo := todo - {x};
      }
      return None;
    }

    // -------------------------------------------------------------- creating and reading

    /** `create_or_reuse`; `code` is what the code of the call normalizes to. */
    method CreateOrReuse(source: Source, revision: string, code: Option<CatalogCode.Identity>, ttl: Time, newId: Id, now: Time)
      returns (reply: Reply)
      requires Valid()
      modifies this
      ensures Valid()
      ensures (View(), reply) == AfterCreate(old(View()), Call.CreateOrReuse(source, revision, code, ttl, newId), now)
    {
      if code.None? || !IsTtl(ttl) {
        return Invalid;
      }
      ghost var after := CreatedStore(View(), source, revision, code.value, ttl, newId, now);
      reply := CreateLocked(newId, NewRow(source, revision, code.value, now, now + ttl), now);
    }

    /** The transaction of `create_or_reuse`. */
    method CreateLocked(newId: Id, made: Row, now: Time) returns (reply: Reply)
      requires Valid()
      modifies this`rows
      ensures (View(), reply) == CreateOn(old(View()), ExpireAll(old(rows), now), newId, made, now)
    {
      var before := rows;
      ExpiryKeepsOneActive(View(), now);
      ExpireLocked(now);
      reply := CreateOrRollBack(before, newId, made, now);
    }

    /** The part of `create_or_reuse` after expiry; a refusal goes back to the rows `before`. */
    method CreateOrRollBack(before: map<Id, Row>, newId: Id, made: Row, now: Time) returns (reply: Reply)
      requires OneActive(rows)
      modifies this`rows
      ensures (View(), reply) == CreateOn(old(View()).(rows := before), old(rows), newId, made, now)
    {
      var active := FindActive(made.source);
      if active.None? {
        reply := InsertOrRollBack(before, newId, made);
        return;
      }
      var id := active.value;
      var row := rows[id];
      if row.code.key != made.code.key {
        rows := before;
        return Conflict;
      }
      if row.revision == made.revision {
        return Replied(row);
      }
      if !CanSupersede(row) {
        rows := before;
        return Conflict;
      }
      rows := rows[id := Superseded(row, now)];
      reply := InsertOrRollBack(before, newId, made);
    }

    method InsertOrRollBack(before: map<Id, Row>, newId: Id, made: Row) returns (reply: Reply)
      modifies this`rows
      ensures (View(), reply) == Inserted(old(View()).(rows := before), old(rows), newId, made)
    {
      if newId in rows {
        rows := before;
        return Conflict;
      }
      rows := rows[newId := made];
      reply := Replied(made);
    }

    /** Expiry that writes nothing unless some row is due. */
    method ExpireIfDue(now: Time)
      modifies this`rows
      ensures rows == ExpireAll(old(rows), now)
    {
      var due := exists x :: x in rows && IsDue(rows[x], now);
      if due {
        ExpireLocked(now);
      } else {
        assert ExpireAll(rows, now) == rows;
      }
    }

    /** `get`. */
    method Get(id: Id, now: Time) returns (reply: Reply)
      requires Valid()
      modifies this`rows
      ensures Valid()
      ensures (View(), reply) == After(old(View()), Call.Get(id), now)
    {
      StaysValid(View(), Call.Get(id), now);
      ExpireIfDue(now);
      if id !in rows {
        return Missing;
      }
      assert rows[id := rows[id]] == rows;
      reply := Replied(rows[id]);
    }

    /** `get_for_sources`, `count_no_sources` and `disposable_failure_snapshot` write nothing else. */
    method ReadAfterExpiry(now: Time)
      requires Valid()
      modifies this`rows
      ensures Valid()
      ensures (View(), Nothing) == After(old(View()), Call.ReadAfterExpiry, now)
    {
      StaysValid(View(), Call.ReadAfterExpiry, now);
      ExpireLocked(now);
    }

    // -------------------------------------------------------------- submission and cleanup

    /** `begin_submission`. */
    method BeginSubmission(id: Id, key: Id, code: Option<CatalogCode.Identity>, kind: TargetKind, target: string,
                           lease: Time, now: Time)
      returns (reply: Reply)
      requires Valid()
      modifies this
      ensures Valid()
      ensures (View(), reply) == After(old(View()), Call.BeginSubmission(id, key, code, kind, target, lease), now)
    {
      StaysValid(View(), Call.BeginSubmission(id, key, code, kind, target, lease), now);
      if key != id {
        return Conflict;
      }
      if code.None? || !IsLease(lease) {
        return Invalid;
      }
      reply := SubmitLocked(id, code.value.key, kind, target, now + lease, now);
    }

    /** The transaction of `begin_submission`. */
    method SubmitLocked(id: Id, codeKey: string, kind: TargetKind, target: string, until: Time, now: Time)
      returns (reply: Reply)
      modifies this
      ensures id !in old(rows) ==> View() == old(View()) && reply == Missing
      ensures id in old(rows) ==>
                var rows := ExpireAll(old(rows), now);
                (View(), reply) == Answered(old(View()), rows, id,
                  AnswerSubmission(rows[id], id, codeKey, kind, target, until, now, old(issued)), now)
    {
      var before := rows;
      ExpireLocked(now);
      if id !in rows {
        rows := before;
        return Missing;
      }
      reply := SubmitOrRollBack(before, id, codeKey, kind, target, until, now);
    }

    /** The part of `begin_submission` that has found its row. */
    method SubmitOrRollBack(before: map<Id, Row>, id: Id, codeKey: string, kind: TargetKind, target: string,
                            until: Time, now: Time)
      returns (reply: Reply)
      requires id in rows
      modifies this
      ensures archive == old(archive)
      ensures (View(), reply) == Answered(old(View()).(rows := before), old(rows), id,
                AnswerSubmission(old(rows)[id], id, codeKey, kind, target, until, now, old(issued)), now)
    {
      var row := rows[id];
      var s := row.submission;
      if row.status.Expired? || row.code.key != codeKey || (row.status.Open? && IsSelecting(row)) {
        rows := before;
        return Conflict;
      }
      if SameAsSource(row.source, kind, target) {
        rows := before;
        return Conflict;
      }
      if s.key.Some? && s.key != Some(id) {
        rows := before;
        return Conflict;
      }
      if s.targetKind.Some? && (s.targetKind != Some(kind) || s.targetId != Some(target)) {
        rows := before;
        return Conflict;
      }
      if row.status.Completed? {
        assert rows[id := row] == rows;
        return Started(Finished, row, None);
      }
      reply := ClaimOrRollBack(before, id, kind, target, until, now);
    }

    /** The grants of `begin_submission`: for the cleanup of a created replacement, or for submitting. */
    method ClaimOrRollBack(before: map<Id, Row>, id: Id, kind: TargetKind, target: string, until: Time, now: Time)
      returns (reply: Reply)
      requires id in rows && !rows[id].status.Completed? && !rows[id].status.Expired?
      modifies this
      ensures archive == old(archive)
      ensures var row := old(rows)[id];
              var over := LeaseOver(row.submission.lease, now);
              var token := old(issued);
              if (row.status.ReplacementCreated? || row.status.CleanupFailed?) && over then
                var next := CleanupClaimed(row, token, until, now);
                rows == old(rows)[id := next] && issued == token + 1 && reply == Started(Cleanup, next, Some(token))
              else if row.status.Open? || (row.status.Submitting? && over) then
                var next := Submitted(row, id, kind, target, token, until, now);
                rows == old(rows)[id := next] && issued == token + 1 && reply == Started(Submit, next, Some(token))
              else rows == before && issued == token && reply == Conflict
    {
      var row := rows[id];
      if row.status.ReplacementCreated? || row.status.CleanupFailed? {
        if !LeaseOver(row.submission.lease, now) {
          rows := before;
          return Conflict;
        }
        var token := NewToken();
        rows := rows[id := CleanupClaimed(row, token, until, now)];
        return Started(Cleanup, rows[id], Some(token));
      }
      if row.status.Submitting? && !LeaseOver(row.submission.lease, now) {
        rows := before;
        return Conflict;
      }
      if !row.status.Open? && !row.status.Submitting? {
        rows := before;
        return Conflict;
      }
      var token := NewToken();
      rows := rows[id := Submitted(row, id, kind, target, token, until, now)];
      reply := Started(Submit, rows[id], Some(token));
    }

    /** `mark_target_created`. */
    method MarkTargetCreated(id: Id, token: Token, now: Time) returns (reply: Reply)
      requires Valid()
      modifies this`rows
      ensures Valid()
      ensures (View(), reply) == After(old(View()), Call.MarkTargetCreated(id, token), now)
    {
      StaysValid(View(), Call.MarkTargetCreated(id, token), now);
      if id !in rows || !rows[id].status.Submitting? || rows[id].submission.lease.token != Some(token) {
        return Conflict;
      }
      rows := rows[id := TargetMarked(rows[id], now)];
      reply := Replied(rows[id]);
    }

    /** `release_submission`. */
    method ReleaseSubmission(id: Id, token: Token, now: Time) returns (reply: Reply)
      requires Valid()
      modifies this`rows
      ensures Valid()
      ensures (View(), reply) == After(old(View()), Call.ReleaseSubmission(id, token), now)
    {
      StaysValid(View(), Call.ReleaseSubmission(id, token), now);
      if id !in rows || !rows[id].status.Submitting? || rows[id].submission.lease.token != Some(token) {
        return Conflict;
      }
      rows := rows[id := SubmissionReleased(rows[id], now)];
      reply := Replied(rows[id]);
    }

    /** `finish_cleanup`. */
    method FinishCleanup(id: Id, held: Option<Token>, removed: bool, error: string, now: Time) returns (reply: Reply)
      requires Valid()
      modifies this`rows
      ensures Valid()
      ensures (View(), reply) == After(old(View()), Call.FinishCleanup(id, held, removed, error), now)
    {
      StaysValid(View(), Call.FinishCleanup(id, held, removed, error), now);
      if id !in rows {
        return Missing;
      }
      var row := rows[id];
      if row.status.Completed? && removed {
        assert rows[id := row] == rows;
        return Replied(row);
      }
      if held.None? {
        return Invalid;
      }
      if (!row.status.ReplacementCreated? && !row.status.CleanupFailed?) || row.submission.lease.token != held {
        return Conflict;
      }
      rows := rows[id := CleanupFinished(row, removed, if removed then None else Some(error), now)];
      reply := Replied(rows[id]);
    }

    // -------------------------------------------------------------- discovery

    /** `queue_discovery`. */
    method QueueDiscovery(id: Id, mode: Mode, now: Time) returns (reply: Reply)
      requires Valid()
      modifies this`rows
      ensures Valid()
      ensures (View(), reply) == After(old(View()), Call.QueueDiscovery(id, mode), now)
    {
      StaysValid(View(), Call.QueueDiscovery(id, mode), now);
      if mode.NoMode? {
        return Invalid;
      }
      reply := QueueLocked(id, mode, now);
    }

    /** The transaction of `queue_discovery`. */
    method QueueLocked(id: Id, mode: Mode, now: Time) returns (reply: Reply)
      modifies this`rows
      ensures id !in old(rows) ==> View() == old(View()) && reply == Missing
      ensures id in old(rows) ==>
                var rows := ExpireAll(old(rows), now);
                (View(), reply) == Answered(old(View()), rows, id, AnswerQueue(rows[id], mode, now), now)
    {
      var before := rows;
      ExpireLocked(now);
      if id !in rows {
        rows := before;
        return Missing;
      }
      reply := QueueOrRollBack(before, id, mode, now);
    }

    /** The part of `queue_discovery` that has found its row. */
    method QueueOrRollBack(before: map<Id, Row>, id: Id, mode: Mode, now: Time) returns (reply: Reply)
      requires id in rows
      modifies this`rows
      ensures (View(), reply) == Answered(old(View()).(rows := before), old(rows), id, AnswerQueue(old(rows)[id], mode, now), now)
    {
      var row := rows[id];
      if !row.status.Open? || IsSelecting(row) {
        rows := before;
        return Conflict;
      }
      if row.discovery.status.Queued? && row.discovery.mode == mode {
        assert rows[id := row] == rows;
        return Replied(row);
      }
      if row.discovery.status.Running? && !LeaseOver(row.discovery.lease, now) {
        if row.discovery.mode == mode {
          assert rows[id := row] == rows;
          return Replied(row);
        }
        rows := before;
        return Conflict;
      }
      rows := rows[id := Requeued(row, mode, now)];
      reply := Replied(rows[id]);
    }

    /** `claim_discovery`. */
    method ClaimDiscovery(id: Id, lease: Time, now: Time) returns (reply: Reply)
      requires Valid()
      modifies this
      ensures Valid()
      ensures (View(), reply) == After(old(View()), Call.ClaimDiscovery(id, lease), now)
    {
      StaysValid(View(), Call.ClaimDiscovery(id, lease), now);
      if !IsLease(lease) {
        return Invalid;
      }
      if id !in rows || !IsClaimable(rows[id], now) {
        return Nothing;
      }
      var token := NewToken();
      rows := rows[id := DiscoveryClaimed(rows[id], token, now + lease, now)];
      reply := Started(Submit, rows[id], Some(token));
    }

    /** `finish_magnet_discovery`. */
    method FinishMagnet(id: Id, token: Token, magnet: Magnet, now: Time) returns (reply: Reply)
      requires Valid()
      modifies this`rows
      ensures Valid()
      ensures (View(), reply) == After(old(View()), Call.FinishMagnet(id, token, magnet), now)
    {
      StaysValid(View(), Call.FinishMagnet(id, token, magnet), now);
      if magnet.count < 0 || magnet.count > MAX_MAGNET_COUNT {
        return Invalid;
      }
      if magnet.status.Available? && (magnet.count < 1 || magnet.snapshots == []) {
        return Invalid;
      }
      var clean := magnet;
      if !magnet.status.Available? {
        clean := magnet.(count := 0, snapshots := []);
      }
      if id !in rows || !IsMagnetMode(rows[id].discovery.mode) || !HoldsDiscovery(rows[id], token) {
        return Conflict;
      }
      rows := rows[id := MagnetFinished(rows[id], clean, now)];
      reply := Replied(rows[id]);
    }

    /** `finish_web_discovery`. */
    method FinishWeb(id: Id, token: Token, web: WebSearch, now: Time) returns (reply: Reply)
      requires Valid()
      modifies this`rows
      ensures Valid()
      ensures (View(), reply) == After(old(View()), Call.FinishWeb(id, token, web), now)
    {
      StaysValid(View(), Call.FinishWeb(id, token, web), now);
      if |web.providers| > MAX_WEB_PROVIDERS || (web.status.Available? && web.providers == []) {
        return Invalid;
      }
      var clean := web;
      if !web.status.Available? {
        clean := web.(providers := [], variant := None);
      }
      if id !in rows || !rows[id].discovery.mode.Web? || !HoldsDiscovery(rows[id], token) {
        return Conflict;
      }
      rows := rows[id := WebFinished(rows[id], clean, now)];
      reply := Replied(rows[id]);
    }

    // -------------------------------------------------------------- smart selection

    /** `begin_smart_selection`. */
    method BeginSelection(id: Id, selection: Id, revision: string, now: Time) returns (reply: Reply)
      requires Valid()
      modifies this`rows
      ensures Valid()
      ensures (View(), reply) == After(old(View()), Call.BeginSelection(id, selection, revision), now)
    {
      StaysValid(View(), Call.BeginSelection(id, selection, revision), now);
      if id !in rows || !CanSelect(rows[id], revision) {
        return Conflict;
      }
      rows := rows[id := SelectionBegun(rows[id], selection, now)];
      reply := Replied(rows[id]);
    }

    /** `finish_smart_selection`. */
    method FinishSelection(id: Id, selection: Id, revision: string, outcome: Outcome, cleanup: CleanupStatus, now: Time)
      returns (reply: Reply)
      requires Valid()
      modifies this`rows
      ensures Valid()
      ensures (View(), reply) == After(old(View()), Call.FinishSelection(id, selection, revision, outcome, cleanup), now)
    {
      StaysValid(View(), Call.FinishSelection(id, selection, revision, outcome, cleanup), now);
      if outcome.SelectionRunning? {
        return Invalid;
      }
      if id !in rows || !CanFinishSelection(rows[id], selection, revision) {
        return Conflict;
      }
      rows := rows[id := SelectionFinished(rows[id], outcome, cleanup, now)];
      reply := Replied(rows[id]);
    }

    // -------------------------------------------------------------- disposition

    /** `begin_disposition`. */
    method BeginDisposition(id: Id, disposition: Disposition, now: Time) returns (reply: Reply)
      requires Valid()
      modifies this
      ensures Valid()
      ensures (View(), reply) == After(old(View()), Call.BeginDisposition(id, disposition), now)
    {
      StaysValid(View(), Call.BeginDisposition(id, disposition), now);
      var before := rows;
      ExpireLocked(now);
      if id !in rows {
        rows := before;
        return Nothing;
      }
      reply := DisposeOrRollBack(before, id, disposition, now);
    }

    /** The part of `begin_disposition` that has found its row. */
    method DisposeOrRollBack(before: map<Id, Row>, id: Id, disposition: Disposition, now: Time) returns (reply: Reply)
      requires id in rows
      modifies this
      ensures archive == old(archive)
      ensures (View(), reply) == Answered(old(View()).(rows := before), old(rows), id,
                AnswerDisposition(old(rows)[id], disposition, now, old(issued)), now)
    {
      if !IsDisposable(rows[id]) {
        rows := before;
        return Nothing;
      }
      var token := NewToken();
      rows := rows[id := DispositionBegun(rows[id], disposition, token, now)];
      reply := Started(Submit, rows[id], Some(token));
    }

    /** `finish_disposition`. */
    method FinishDisposition(id: Id, token: Token, removed: bool, error: string, now: Time) returns (reply: Reply)
      requires Valid()
      modifies this`rows, this`archive
      ensures Valid()
      ensures (View(), reply) == After(old(View()), Call.FinishDisposition(id, token, removed, error), now)
    {
      StaysValid(View(), Call.FinishDisposition(id, token, removed, error), now);
      if id !in rows || !rows[id].status.Discarding? || rows[id].submission.lease.token != Some(token) {
        return Conflict;
      }
      var row := rows[id];
      if !removed {
        rows := rows[id := DispositionFailed(row, error, now)];
        return Replied(row.(status := Open, submission := row.submission.(cleanupError := Some(error))));
      }
      if row.disposition == Some(Archive) {
        archive := archive[row.code.key := Archived(row.code.display, now)];
      }
      rows := rows - {id};
      reply := Replied(row.(status := Discarded, submission := row.submission.(cleanupError := None)));
    }

    /** `delete_failed_archive`. */
    method DeleteArchived(code: Option<CatalogCode.Identity>, now: Time) returns (reply: Reply)
      requires Valid()
      modifies this`archive
      ensures Valid()
      ensures (View(), reply) == After(old(View()), Call.DeleteArchived(code), now)
    {
      StaysValid(View(), Call.DeleteArchived(code), now);
      if code.None? {
        return Invalid;
      }
      archive := archive - {code.value.key};
      reply := Nothing;
    }

    // -------------------------------------------------------------- restart

    /** `recover_discoveries`. */
    method RecoverDiscoveries(now: Time)
      requires Valid()
      modifies this`rows
      ensures Valid()
      ensures (View(), Nothing) == After(old(View()), Call.RecoverDiscoveries, now)
    {
      StaysValid(View(), Call.RecoverDiscoveries, now);
      UpdateAll(row => DiscoveryInterrupted(row, now));
    }

    /** `recover_interrupted_dispositions`. */
    method RecoverDispositions(now: Time)
      requires Valid()
      modifies this`rows
      ensures Valid()
      ensures (View(), Nothing) == After(old(View()), Call.RecoverDispositions, now)
    {
      StaysValid(View(), Call.RecoverDispositions, now);
      UpdateAll(row => DispositionInterrupted(row, now));
    }

    /** `recover_interrupted_smart_selections`. */
    method RecoverSelections(now: Time)
      requires Valid()
      modifies this`rows
      ensures Valid()
      ensures (View(), Nothing) == After(old(View()), Call.RecoverSelections, now)
    {
      StaysValid(View(), Call.RecoverSelections, now);
      UpdateAll(row => SelectionInterrupted(row, now));
    }
  }

  lemma StaysValid(s: Store, call: Call, now: Time)
    requires StoreInv(s)
    ensures StoreInv(After(s, call, now).0)
  {
    CallKeepsInv(s, call, now);
  }

  lemma CreatedStore(s: Store, source: Source, revision: string, code: CatalogCode.Identity, ttl: Time, newId: Id, now: Time)
    returns (after: Store)
    requires StoreInv(s) && IsTtl(ttl)
    ensures after == CreateOn(s, ExpireAll(s.rows, now), newId, NewRow(source, revision, code, now, now + ttl), now).0
    ensures StoreInv(after)
  {
    var call := Call.CreateOrReuse(source, revision, Some(code), ttl, newId);
    after := After(s, call, now).0;
    CreationIsCreateOn(s, call, now);
    StaysValid(s, call, now);
  }

  lemma CreationIsCreateOn(s: Store, call: Call, now: Time)
    requires call.CreateOrReuse? && call.code.Some? && IsTtl(call.ttl)
    ensures After(s, call, now)
            == CreateOn(s, ExpireAll(s.rows, now), call.newId,
                        NewRow(call.source, call.revision, call.code.value, now, now + call.ttl), now)
  {
  }

  predicate IsDue(row: Row, now: Time) {
    || (row.status.Submitting? && Lapsed(row.submission.lease, now))
    || ((row.status.Open? || row.status.Submitting? || row.status.ReplacementCreated? || row.status.CleanupFailed?)
        && row.expiresAt <= now)
  }
}

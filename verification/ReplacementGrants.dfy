/**
 * When the download replacement store grants what it is asked for, and what a row is then, on the columns of
 * the table and in every state a run can reach (jav_pilot/downloads/replacements.py:89-96, 129-1239).
 */
module ReplacementGrants {
  import opened Collections
  import CatalogCode
  import opened ReplacementRow
  import opened ReplacementStore
  import opened ReplacementRuns

  // ---------------------------------------------------------------- what a row is at a time

  /** A submission whose lease has run out is open again, and whatever is due and can expire has expired. */
  function StatusAt(row: Row, now: Time): Status {
    if row.expiresAt <= now && row.status in {Open, Submitting, ReplacementCreated, CleanupFailed} then Expired
    else if row.status == Submitting && row.submission.lease.until.Some? && row.submission.lease.until.value <= now then Open
    else row.status
  }

  /** With its status a row loses the lease it had. */
  function RowAt(row: Row, now: Time): Row {
    if StatusAt(row, now) == row.status then row
    else row.(status := StatusAt(row, now), submission := row.submission.(lease := Lease(None, None)), updatedAt := now)
  }

  lemma ExpireIsRowAt(row: Row, now: Time)
    ensures Expire(row, now) == RowAt(row, now)
  {
  }

  /** The table as `_expire_locked` leaves it. */
  ghost predicate IsTableAt(before: map<Id, Row>, after: map<Id, Row>, now: Time) {
    after.Keys == before.Keys && forall id | id in before :: after[id] == RowAt(before[id], now)
  }

  /** Reading after expiry expires exactly what is due, and changes nothing else. */
  lemma ExpiresExactly(s: Store, now: Time)
    ensures var (after, reply) := After(s, ReadAfterExpiry, now);
            IsTableAt(s.rows, after.rows, now) && after.archive == s.archive && after.issued == s.issued
  {
    forall id | id in s.rows {
      ExpireIsRowAt(s.rows[id], now);
    }
  }

  /** The row a call finds: some calls look after expiry first. */
  function FoundRow(s: Store, call: Call, id: Id, now: Time): Row
    requires id in s.rows
  {
    if Expires(call) then RowAt(s.rows[id], now) else s.rows[id]
  }

  /** One row is `row` now; the others are as the call finds them. */
  ghost predicate IsUpdated(s: Store, after: Store, call: Call, id: Id, row: Row, now: Time) {
    && after.rows.Keys == s.rows.Keys && id in s.rows && after.rows[id] == row
    && (forall o | o in s.rows && o != id :: after.rows[o] == FoundRow(s, call, o, now))
    && after.archive == s.archive
  }

  /** One row is gone; the others are as the call finds them. */
  ghost predicate IsRemoved(s: Store, after: Store, call: Call, id: Id, now: Time) {
    && after.rows.Keys == s.rows.Keys - {id}
    && (forall o | o in after.rows :: after.rows[o] == FoundRow(s, call, o, now))
    && after.issued == s.issued
  }

  lemma TableAfterExpiry(s: Store, now: Time)
    ensures IsTableAt(s.rows, ExpireAll(s.rows, now), now)
  {
    forall id | id in s.rows {
      ExpireIsRowAt(s.rows[id], now);
    }
  }

  /** What the answer about the row makes of the store. */
  ghost predicate IsAnswered(s: Store, call: Call, id: Id, answer: Answer, now: Time, after: Store, reply: Reply) {
    match answer
    case Refused(r) => after == s && reply == r
    case Updated(row, r) => IsUpdated(s, after, call, id, row, now) && reply == r && after.issued == IssuedAfter(s.issued, r)
    case Removed(r) =>
      && id in s.rows && IsRemoved(s, after, call, id, now) && reply == r
      && after.archive == ArchivedAs(s.archive, FoundRow(s, call, id, now), now)
  }

  lemma RowCall(s: Store, call: Call, now: Time)
    requires IsRowCall(call) && Objection(call).None? && call.id in s.rows
    ensures var (after, reply) := After(s, call, now);
            IsAnswered(s, call, call.id, AnswerOf(FoundRow(s, call, call.id, now), call, now, s.issued), now, after, reply)
  {
    if Expires(call) {
      TableAfterExpiry(s, now);
    }
    CallOnRow(s, call, now, if Expires(call) then ExpireAll(s.rows, now) else s.rows);
  }

  lemma CallOnRow(s: Store, call: Call, now: Time, rows: map<Id, Row>)
    requires IsRowCall(call) && Objection(call).None? && call.id in s.rows
    requires rows == if Expires(call) then ExpireAll(s.rows, now) else s.rows
    requires Expires(call) ==> IsTableAt(s.rows, rows, now)
    ensures var answer := AnswerOf(FoundRow(s, call, call.id, now), call, now, s.issued);
            After(s, call, now) == Answered(s, rows, call.id, answer, now)
            && IsAnswered(s, call, call.id, answer, now, After(s, call, now).0, After(s, call, now).1)
  {
  }

  lemma NotAnswered(s: Store, call: Call, now: Time)
    requires IsRowCall(call) && !call.Get? && (Objection(call).Some? || call.id !in s.rows)
    ensures After(s, call, now) == (s, if Objection(call).Some? then Objection(call).value else ReplyWithoutRow(call))
  {
  }

  /** A call that is about a row, and what it makes of it. */
  ghost predicate Makes(s: Store, call: Call, id: Id, row: Row, reply: Reply, now: Time, result: (Store, Reply)) {
    && IsUpdated(s, result.0, call, id, row, now) && result.1 == reply
    && result.0.issued == (if reply.Started? && reply.grant.Some? then s.issued + 1 else s.issued)
  }

  ghost predicate FollowsAnswer(s: Store, call: Call, row: Row, now: Time, result: (Store, Reply))
    requires IsRowCall(call) && Objection(call).None?
  {
    match AnswerOf(row, call, now, s.issued)
    case Refused(reply) => result == (s, reply)
    case Updated(after, reply) => Makes(s, call, call.id, after, reply, now, result)
    case Removed(_) => false
  }

  lemma UpdatedMakes(s: Store, call: Call, now: Time)
    requires IsRowCall(call) && !call.Get? && !call.FinishDisposition?
    ensures if Objection(call).Some? || call.id !in s.rows then IsRefused(s, After(s, call, now))
            else FollowsAnswer(s, call, FoundRow(s, call, call.id, now), now, After(s, call, now))
  {
    if Objection(call).None? && call.id in s.rows {
      RowCall(s, call, now);
    } else {
      NotAnswered(s, call, now);
    }
  }

  /** The call is refused, and nothing changes. */
  predicate IsRefused(s: Store, result: (Store, Reply)) {
    result.0 == s && !result.1.Replied? && !result.1.Started?
  }

  lemma RowInOrder(s: Store, call: Call, id: Id, now: Time)
    requires StoreInv(s) && id in s.rows
    ensures RowInv(id, FoundRow(s, call, id, now), s.issued)
  {
    assert RowInv(id, s.rows[id], s.issued);
    ExpireSucceeds(id, s.rows[id], now, s.issued, NOBODY);
    ExpireIsRowAt(s.rows[id], now);
  }

  // ---------------------------------------------------------------- submissions

  predicate IsItself(source: Source, kind: TargetKind, target: string) {
    (source == Source(QbSource, target) && kind == QbTarget) || (source == Source(WebJobSource, target) && kind == WebJobTarget)
  }

  /** The target is not the failed download itself, nor another one than the row has already. */
  predicate CanTarget(row: Row, kind: TargetKind, target: string) {
    && !IsItself(row.source, kind, target)
    && (row.submission.targetKind.Some? ==> row.submission.targetKind == Some(kind) && row.submission.targetId == Some(target))
  }

  lemma SubmissionAnswer(row: Row, id: Id, codeKey: string, kind: TargetKind, target: string, until: Time, now: Time, token: Token)
    requires RowInv(id, row, token) && (row.status == Submitting ==> row.submission.lease.until.Some? && row.submission.lease.until.value > now)
    ensures var answer := AnswerSubmission(row, id, codeKey, kind, target, until, now, token);
            if row.code.key != codeKey || !CanTarget(row, kind, target) then answer == Refused(Conflict)
            else if row.status == Open && row.selection.outcome != Some(SelectionRunning) then
              var held := row.(status := Submitting, updatedAt := now,
                               submission := Submission(Some(id), Some(kind), Some(target), Lease(Some(token), Some(until)), None));
              answer == Updated(held, Started(Submit, held, Some(token)))
            else if row.status in {ReplacementCreated, CleanupFailed}
                    && (row.submission.lease.until.Some? ==> row.submission.lease.until.value <= now) then
              var held := row.(submission := row.submission.(lease := Lease(Some(token), Some(until))), updatedAt := now);
              answer == Updated(held, Started(Cleanup, held, Some(token)))
            else if row.status == Completed then answer == Updated(row, Started(Finished, row, None))
            else answer == Refused(Conflict)
  {
  }

  /** What a submission that names the row and its code comes to: an open row is taken, unless a smart selection
      runs; a created replacement is cleaned up after once its lease is over; a completed one is reported; and
      everything else is refused. */
  ghost predicate SubmissionComesTo(s: Store, call: Call, row: Row, now: Time, result: (Store, Reply))
    requires call.BeginSubmission?
  {
    var granted := Lease(Some(s.issued), Some(now + call.lease));
    if !CanTarget(row, call.targetKind, call.targetId) then IsRefused(s, result)
    else if row.status == Open && row.selection.outcome != Some(SelectionRunning) then
      var held := row.(status := Submitting, updatedAt := now,
                       submission := Submission(Some(call.id), Some(call.targetKind), Some(call.targetId), granted, None));
      Makes(s, call, call.id, held, Started(Submit, held, Some(s.issued)), now, result)
    else if row.status in {ReplacementCreated, CleanupFailed}
            && (row.submission.lease.until.Some? ==> row.submission.lease.until.value <= now) then
      var held := row.(submission := row.submission.(lease := granted), updatedAt := now);
      Makes(s, call, call.id, held, Started(Cleanup, held, Some(s.issued)), now, result)
    else if row.status == Completed then Makes(s, call, call.id, row, Started(Finished, row, None), now, result)
    else IsRefused(s, result)
  }

  lemma SubmissionFollows(s: Store, call: Call, row: Row, now: Time, result: (Store, Reply))
    requires call.BeginSubmission? && Objection(call).None? && RowInv(call.id, row, s.issued)
    requires row.status == Submitting ==> row.submission.lease.until.Some? && row.submission.lease.until.value > now
    requires FollowsAnswer(s, call, row, now, result)
    ensures if row.code.key == call.code.value.key then SubmissionComesTo(s, call, row, now, result) else IsRefused(s, result)
  {
    SubmissionAnswer(row, call.id, call.code.value.key, call.targetKind, call.targetId, now + call.lease, now, s.issued);
  }

  lemma SubmissionOnRow(s: Store, call: Call, now: Time, result: (Store, Reply))
    requires StoreInv(s) && call.BeginSubmission? && Objection(call).None? && call.id in s.rows
    requires FollowsAnswer(s, call, RowAt(s.rows[call.id], now), now, result)
    ensures if s.rows[call.id].code.key == call.code.value.key
            then SubmissionComesTo(s, call, RowAt(s.rows[call.id], now), now, result) else IsRefused(s, result)
  {
    RowInOrder(s, call, call.id, now);
    SubmissionFollows(s, call, RowAt(s.rows[call.id], now), now, result);
  }

  /** `begin_submission`: the key has to be the id of the row, and the code the one of the row. */
  lemma SubmissionExactly(s: Store, id: Id, key: Id, code: Option<CatalogCode.Identity>, kind: TargetKind, target: string,
                          lease: Time, now: Time)
    requires StoreInv(s)
    ensures var call := BeginSubmission(id, key, code, kind, target, lease);
            var result := After(s, call, now);
            if key == id && code.Some? && 1.0 <= lease <= 300.0 && id in s.rows && s.rows[id].code.key == code.value.key
            then SubmissionComesTo(s, call, RowAt(s.rows[id], now), now, result)
            else IsRefused(s, result)
  {
    var call := BeginSubmission(id, key, code, kind, target, lease);
    UpdatedMakes(s, call, now);
    if Objection(call).None? && id in s.rows {
      SubmissionOnRow(s, call, now, After(s, call, now));
    }
  }

  /** `mark_target_created` and `release_submission` are for the holder of the lease of a submission. */
  lemma MarkExactly(s: Store, id: Id, token: Token, now: Time)
    ensures var call := MarkTargetCreated(id, token);
            var result := After(s, call, now);
            if id in s.rows && s.rows[id].status == Submitting && s.rows[id].submission.lease.token == Some(token) then
              var marked := s.rows[id].(status := ReplacementCreated, updatedAt := now);
              Makes(s, call, id, marked, Replied(marked), now, result)
            else IsRefused(s, result)
  {
    UpdatedMakes(s, MarkTargetCreated(id, token), now);
  }

  lemma ReleaseExactly(s: Store, id: Id, token: Token, now: Time)
    ensures var call := ReleaseSubmission(id, token);
            var result := After(s, call, now);
            if id in s.rows && s.rows[id].status == Submitting && s.rows[id].submission.lease.token == Some(token) then
              var open := s.rows[id].(status := Open, submission := Submission(None, None, None, Lease(None, None), None), updatedAt := now);
              Makes(s, call, id, open, Replied(open), now, result)
            else IsRefused(s, result)
  {
    UpdatedMakes(s, ReleaseSubmission(id, token), now);
  }

  // ---------------------------------------------------------------- discoveries and selections

  predicate IsLive(lease: Lease, now: Time) {
    lease.until.Some? && lease.until.value > now
  }

  function Queue(row: Row, mode: Mode, now: Time): Row {
    var d := row.discovery;
    row.(discovery := Discovery(mode, DiscoveryStatus.Queued,
                                if mode == Web then d.magnet else Magnet(Pending, 0, [], None),
                                if mode == Web then WebSearch(Pending, [], None, None) else d.web,
                                None, None, Lease(None, None)),
         selection := Selection(None, None, None, None), disposition := None, updatedAt := now)
  }

  /** What a request for a discovery comes to: an open row for which no smart selection runs is queued for the mode;
      one that is queued or searched for that mode already stays as it is, and one that is searched for another mode
      is refused, and so is everything else. */
  ghost predicate QueueComesTo(s: Store, call: Call, row: Row, now: Time, result: (Store, Reply))
    requires call.QueueDiscovery?
  {
    var searched := row.discovery.status == DiscoveryStatus.Running && IsLive(row.discovery.lease, now);
    if row.status != Open || row.selection.outcome == Some(SelectionRunning) then IsRefused(s, result)
    else if row.discovery.mode == call.mode && (row.discovery.status == DiscoveryStatus.Queued || searched) then
      Makes(s, call, call.id, row, Replied(row), now, result)
    else if searched then IsRefused(s, result)
    else Makes(s, call, call.id, Queue(row, call.mode, now), Replied(Queue(row, call.mode, now)), now, result)
  }

  lemma QueueFollows(s: Store, call: Call, row: Row, now: Time, result: (Store, Reply))
    requires call.QueueDiscovery? && Objection(call).None? && FollowsAnswer(s, call, row, now, result)
    ensures QueueComesTo(s, call, row, now, result)
  {
  }

  /** `queue_discovery`. */
  lemma QueueExactly(s: Store, id: Id, mode: Mode, now: Time)
    ensures var call := QueueDiscovery(id, mode);
            var result := After(s, call, now);
            if mode != NoMode && id in s.rows then QueueComesTo(s, call, RowAt(s.rows[id], now), now, result) else IsRefused(s, result)
  {
    var call := QueueDiscovery(id, mode);
    UpdatedMakes(s, call, now);
    if mode != NoMode && id in s.rows {
      QueueFollows(s, call, RowAt(s.rows[id], now), now, After(s, call, now));
    }
  }

  /** `begin_smart_selection`: an open row of this revision, searched for a smart magnet, with magnets found. */
  lemma SelectionExactly(s: Store, id: Id, selection: Id, revision: string, now: Time)
    ensures var call := BeginSelection(id, selection, revision);
            var result := After(s, call, now);
            if && id in s.rows && s.rows[id].status == Open && s.rows[id].revision == revision
               && s.rows[id].discovery.mode == SmartMagnet && s.rows[id].discovery.status == DiscoveryStatus.Found
               && s.rows[id].discovery.magnet.status == Available
            then
              var begun := s.rows[id].(selection := Selection(Some(selection), Some(SelectionRunning), Some(CleanupPending), None),
                                       disposition := None, updatedAt := now);
              Makes(s, call, id, begun, Replied(begun), now, result)
            else IsRefused(s, result)
  {
    UpdatedMakes(s, BeginSelection(id, selection, revision), now);
  }

  /** `claim_discovery`: an open row that is queued, or that is searched and whose lease has run out. */
  lemma ClaimExactly(s: Store, id: Id, lease: Time, now: Time)
    ensures var call := ClaimDiscovery(id, lease);
            var result := After(s, call, now);
            if && 1.0 <= lease <= 300.0 && id in s.rows && s.rows[id].status == Open
               && var d := s.rows[id].discovery;
                  || d.status == DiscoveryStatus.Queued
                  || (d.status == DiscoveryStatus.Running && d.lease.until.Some? && d.lease.until.value <= now)
            then
              var row := s.rows[id];
              var held := row.(discovery := row.discovery.(status := DiscoveryStatus.Running, startedAt := Some(now), finishedAt := None,
                                                           lease := Lease(Some(s.issued), Some(now + lease))),
                               updatedAt := now);
              Makes(s, call, id, held, Started(Submit, held, Some(s.issued)), now, result)
            else IsRefused(s, result)
  {
    UpdatedMakes(s, ClaimDiscovery(id, lease), now);
  }

  function Result(status: ChannelStatus): DiscoveryStatus {
    if status == Available then DiscoveryStatus.Found else if status == Absent then NotFound else Inconclusive
  }

  /** `finish_magnet_discovery`: only the holder of the lease, for an open row searched for magnets.  What is not
      available has no count and no magnets. */
  lemma MagnetExactly(s: Store, id: Id, token: Token, magnet: Magnet, now: Time)
    ensures var call := FinishMagnet(id, token, magnet);
            var result := After(s, call, now);
            if && 0 <= magnet.count <= 999 && (magnet.status == Available ==> magnet.count >= 1 && magnet.snapshots != [])
               && id in s.rows && s.rows[id].status == Open && s.rows[id].discovery.status == DiscoveryStatus.Running
               && s.rows[id].discovery.mode in {SmartMagnet, ManualMagnet} && s.rows[id].discovery.lease.token == Some(token)
            then
              var row := s.rows[id];
              var kept := if magnet.status == Available then magnet else Magnet(magnet.status, 0, [], magnet.error);
              var done := row.(discovery := row.discovery.(status := Result(magnet.status), magnet := kept, finishedAt := Some(now),
                                                           lease := Lease(None, None)),
                               updatedAt := now);
              Makes(s, call, id, done, Replied(done), now, result)
            else IsRefused(s, result)
  {
    UpdatedMakes(s, FinishMagnet(id, token, magnet), now);
  }

  /** `finish_web_discovery`, for an open row searched on the web. */
  lemma WebExactly(s: Store, id: Id, token: Token, web: WebSearch, now: Time)
    ensures var call := FinishWeb(id, token, web);
            var result := After(s, call, now);
            if && |web.providers| <= 3 && (web.status == Available ==> web.providers != [])
               && id in s.rows && s.rows[id].status == Open && s.rows[id].discovery.status == DiscoveryStatus.Running
               && s.rows[id].discovery.mode == Web && s.rows[id].discovery.lease.token == Some(token)
            then
              var row := s.rows[id];
              var kept := if web.status == Available then web else WebSearch(web.status, [], None, web.error);
              var done := row.(discovery := row.discovery.(status := Result(web.status), web := kept, finishedAt := Some(now),
                                                           lease := Lease(None, None)),
                               updatedAt := now);
              Makes(s, call, id, done, Replied(done), now, result)
            else IsRefused(s, result)
  {
    UpdatedMakes(s, FinishWeb(id, token, web), now);
  }

  // ---------------------------------------------------------------- dispositions and cleanups

  function Later(a: Time, b: Time): Time { if a >= b then a else b }

  /** The failures: neither channel has anything, or the smart selection for a web download has found nothing, or
      nothing clear, and has cleaned up after itself. */
  predicate HasFailed(row: Row) {
    || (row.discovery.magnet.status == Absent && row.discovery.web.status == Absent)
    || (&& row.source.kind in {WebJobSource, WebIntentSource} && row.discovery.mode == SmartMagnet
        && row.selection.outcome in {Some(NothingFound), Some(Unclear)}
        && row.selection.cleanup in {Some(Complete), Some(NotRequired)})
  }

  /** What a request for a disposition comes to: exactly the open rows that have failed are held for it, under a fresh
      lease and with the first choice, and live on for long enough. */
  ghost predicate DispositionComesTo(s: Store, call: Call, row: Row, now: Time, result: (Store, Reply))
    requires call.BeginDisposition?
  {
    if row.status == Open && HasFailed(row) then
      var held := row.(status := Discarding,
                       disposition := if row.disposition.Some? then row.disposition else Some(call.disposition),
                       submission := row.submission.(lease := Lease(Some(s.issued), Some(now + 60.0))),
                       expiresAt := Later(row.expiresAt, now + 604800.0), updatedAt := now);
      Makes(s, call, call.id, held, Started(Submit, held, Some(s.issued)), now, result)
    else IsRefused(s, result)
  }

  lemma DispositionFollows(s: Store, call: Call, row: Row, now: Time, result: (Store, Reply))
    requires call.BeginDisposition? && FollowsAnswer(s, call, row, now, result)
    ensures DispositionComesTo(s, call, row, now, result)
  {
  }

  /** `begin_disposition`. */
  lemma DispositionExactly(s: Store, id: Id, disposition: Disposition, now: Time)
    ensures var call := BeginDisposition(id, disposition);
            var result := After(s, call, now);
            if id in s.rows then DispositionComesTo(s, call, RowAt(s.rows[id], now), now, result) else IsRefused(s, result)
  {
    var call := BeginDisposition(id, disposition);
    UpdatedMakes(s, call, now);
    if id in s.rows {
      DispositionFollows(s, call, RowAt(s.rows[id], now), now, After(s, call, now));
    }
  }

  /** `finish_disposition` is for the holder of the lease: the row goes, with its code into the archive if that was
      chosen, or it is open again with the error. */
  lemma DisposedExactly(s: Store, id: Id, token: Token, removed: bool, error: string, now: Time)
    ensures var call := FinishDisposition(id, token, removed, error);
            var result := After(s, call, now);
            var (after, reply) := result;
            if id in s.rows && s.rows[id].status == Discarding && s.rows[id].submission.lease.token == Some(token) then
              var row := s.rows[id];
              && reply.Replied? && after.issued == s.issued
              && if removed then
                   && IsRemoved(s, after, call, id, now) && reply.row.status == Discarded
                   && after.archive == (if row.disposition == Some(Archive)
                                        then s.archive[row.code.key := Archived(row.code.display, now)] else s.archive)
                 else
                   IsUpdated(s, after, call, id,
                             row.(status := Open, expiresAt := Later(row.expiresAt, now + 604800.0), updatedAt := now,
                                  submission := row.submission.(cleanupError := Some(error), lease := Lease(None, None))), now)
            else IsRefused(s, result)
  {
    var call := FinishDisposition(id, token, removed, error);
    if id in s.rows {
      RowCall(s, call, now);
    } else {
      NotAnswered(s, call, now);
    }
  }

  /** `finish_cleanup` is for the holder of the lease of a created replacement, and changes nothing for a row that is
      completed already. */
  lemma CleanupExactly(s: Store, id: Id, held: Option<Token>, removed: bool, error: string, now: Time)
    ensures var call := FinishCleanup(id, held, removed, error);
            var result := After(s, call, now);
            if id in s.rows && s.rows[id].status == Completed && removed then
              Makes(s, call, id, s.rows[id], Replied(s.rows[id]), now, result)
            else if id in s.rows && s.rows[id].status in {ReplacementCreated, CleanupFailed}
                    && held.Some? && s.rows[id].submission.lease.token == held then
              var row := s.rows[id];
              var done := row.(status := if removed then Completed else CleanupFailed, updatedAt := now,
                               submission := row.submission.(cleanupError := if removed then None else Some(error),
                                                             lease := Lease(None, None)));
              Makes(s, call, id, done, Replied(done), now, result)
            else IsRefused(s, result)
  {
    UpdatedMakes(s, FinishCleanup(id, held, removed, error), now);
  }

  // ---------------------------------------------------------------- creating

  predicate IsActiveAt(row: Row, source: Source, now: Time) {
    row.source == source && StatusAt(row, now) in {Open, Submitting, ReplacementCreated, CleanupFailed, Discarding}
  }

  function Fresh(source: Source, revision: string, code: CatalogCode.Identity, now: Time, expiresAt: Time): Row {
    Row(source, revision, code, Open, Submission(None, None, None, Lease(None, None), None),
        Discovery(NoMode, DiscoveryStatus.Idle, Magnet(Pending, 0, [], None), WebSearch(Pending, [], None, None), None, None,
                  Lease(None, None)),
        Selection(None, None, None, None), None, now, now, expiresAt)
  }

  /** The table after expiry has one more row. */
  ghost predicate IsInserted(s: Store, id: Id, row: Row, now: Time, except: set<Id>, after: Store) {
    && after.rows.Keys == s.rows.Keys + {id} && id !in s.rows && after.rows[id] == row
    && (forall o | o in s.rows && o !in except :: after.rows[o] == RowAt(s.rows[o], now))
    && after.archive == s.archive && after.issued == s.issued
  }

  /** What a request for a row comes to when the row `id` of the source is active: it is handed out again for the same
      revision; it makes way for a new revision if it is open and nothing was ever submitted for it; otherwise, and for
      another code, the request is refused. */
  ghost predicate ReuseComesTo(s: Store, id: Id, made: Row, newId: Id, now: Time, result: (Store, Reply))
    requires id in s.rows
  {
    var row := RowAt(s.rows[id], now);
    if row.code.key != made.code.key then IsRefused(s, result)
    else if row.revision == made.revision then
      IsTableAt(s.rows, result.0.rows, now) && result == (s.(rows := result.0.rows), Replied(row))
    else if row.status == Open && row.submission.key.None? && newId !in s.rows then
      && IsInserted(s, newId, made, now, {id}, result.0) && result.1 == Replied(made)
      && result.0.rows[id] == row.(status := Expired, submission := row.submission.(lease := Lease(None, None)),
                                   discovery := row.discovery.(lease := Lease(None, None)), updatedAt := now)
    else IsRefused(s, result)
  }

  lemma ReuseFollows(s: Store, rows: map<Id, Row>, id: Id, made: Row, newId: Id, now: Time)
    requires IsTableAt(s.rows, rows, now) && id in s.rows && RowInv(id, rows[id], s.issued)
    ensures ReuseComesTo(s, id, made, newId, now, Reused(s, rows, id, newId, made, now))
  {
  }

  lemma ActiveIsUnique(s: Store, rows: map<Id, Row>, source: Source, id: Id, now: Time)
    requires OneActive(s.rows) && IsTableAt(s.rows, rows, now) && id in s.rows && IsActiveAt(s.rows[id], source, now)
    ensures ActiveFor(rows, source) == Some(id)
  {
    assert IsActiveFor(rows[id], source);
    var other := ActiveFor(rows, source).value;
    assert OnlyActive(s.rows, id) && IsActive(s.rows[id].status) && IsActive(s.rows[other].status);
  }

  lemma NothingActive(s: Store, rows: map<Id, Row>, source: Source, now: Time)
    requires IsTableAt(s.rows, rows, now) && forall id | id in s.rows :: !IsActiveAt(s.rows[id], source, now)
    ensures ActiveFor(rows, source) == None
  {
  }

  lemma TableInOrder(s: Store, rows: map<Id, Row>, id: Id, now: Time)
    requires StoreInv(s) && rows == ExpireAll(s.rows, now) && id in s.rows
    ensures RowInv(id, rows[id], s.issued)
  {
    assert RowInv(id, s.rows[id], s.issued);
    ExpireSucceeds(id, s.rows[id], now, s.issued, NOBODY);
  }

  lemma InsertFollows(s: Store, rows: map<Id, Row>, made: Row, newId: Id, now: Time)
    requires IsTableAt(s.rows, rows, now)
    ensures var result := Inserted(s, rows, newId, made);
            if newId in s.rows then IsRefused(s, result)
            else IsInserted(s, newId, made, now, {}, result.0) && result.1 == Replied(made)
  {
  }

  /** What a request for a row comes to: the active row of the source decides, and if there is none a fresh one is
      inserted under an id that is new. */
  ghost predicate CreateComesTo(s: Store, made: Row, newId: Id, now: Time, result: (Store, Reply)) {
    && (forall id | id in s.rows && IsActiveAt(s.rows[id], made.source, now) :: ReuseComesTo(s, id, made, newId, now, result))
    && ((forall id | id in s.rows :: !IsActiveAt(s.rows[id], made.source, now)) ==>
          if newId in s.rows then IsRefused(s, result)
          else IsInserted(s, newId, made, now, {}, result.0) && result.1 == Replied(made))
  }

  lemma ActiveDecides(s: Store, rows: map<Id, Row>, id: Id, made: Row, newId: Id, now: Time)
    requires StoreInv(s) && rows == ExpireAll(s.rows, now) && IsTableAt(s.rows, rows, now)
    requires id in s.rows && IsActiveAt(s.rows[id], made.source, now)
    ensures ReuseComesTo(s, id, made, newId, now, CreateOn(s, rows, newId, made, now))
  {
    ActiveIsUnique(s, rows, made.source, id, now);
    TableInOrder(s, rows, id, now);
    ReuseFollows(s, rows, id, made, newId, now);
  }

  lemma CreateFollows(s: Store, made: Row, newId: Id, now: Time)
    requires StoreInv(s)
    ensures CreateComesTo(s, made, newId, now, CreateOn(s, ExpireAll(s.rows, now), newId, made, now))
  {
    var rows := ExpireAll(s.rows, now);
    TableAfterExpiry(s, now);
    forall id | id in s.rows && IsActiveAt(s.rows[id], made.source, now)
      ensures ReuseComesTo(s, id, made, newId, now, CreateOn(s, rows, newId, made, now))
    {
      ActiveDecides(s, rows, id, made, newId, now);
    }
    if forall id | id in s.rows :: !IsActiveAt(s.rows[id], made.source, now) {
      NothingActive(s, rows, made.source, now);
      InsertFollows(s, rows, made, newId, now);
    }
  }

  lemma CreateIs(s: Store, source: Source, revision: string, code: CatalogCode.Identity, ttl: Time, newId: Id, now: Time)
    requires IsTtl(ttl)
    ensures After(s, CreateOrReuse(source, revision, Some(code), ttl, newId), now)
            == CreateOn(s, ExpireAll(s.rows, now), newId, Fresh(source, revision, code, now, now + ttl), now)
  {
  }

  /** `create_or_reuse`. */
  lemma CreateExactly(s: Store, source: Source, revision: string, code: Option<CatalogCode.Identity>, ttl: Time, newId: Id, now: Time)
    requires StoreInv(s)
    ensures var result := After(s, CreateOrReuse(source, revision, code, ttl, newId), now);
            if code.None? || ttl < 60.0 || ttl > 2592000.0 then result == (s, Invalid)
            else CreateComesTo(s, Fresh(source, revision, code.value, now, now + ttl), newId, now, result)
  {
    if code.Some? && IsTtl(ttl) {
      CreateIs(s, source, revision, code.value, ttl, newId, now);
      CreateFollows(s, Fresh(source, revision, code.value, now, now + ttl), newId, now);
    }
  }

  // ---------------------------------------------------------------- reading, restarting, the archive

  lemma GetExactly(s: Store, id: Id, now: Time)
    ensures var (after, reply) := After(s, Get(id), now);
            && IsTableAt(s.rows, after.rows, now) && after.archive == s.archive && after.issued == s.issued
            && reply == (if id in s.rows then Replied(RowAt(s.rows[id], now)) else Missing)
  {
    TableAfterExpiry(s, now);
    assert id in s.rows ==> ExpireAll(s.rows, now)[id := ExpireAll(s.rows, now)[id]] == ExpireAll(s.rows, now);
  }

  lemma DiscoveriesRecover(s: Store, now: Time)
    ensures var after := After(s, RecoverDiscoveries, now).0;
            after.rows.Keys == s.rows.Keys && forall id | id in s.rows ::
              var row := s.rows[id];
              after.rows[id] == if row.status == Open && row.discovery.status == DiscoveryStatus.Running
                                then row.(discovery := row.discovery.(status := DiscoveryStatus.Queued, lease := Lease(None, None)),
                                          updatedAt := now)
                                else row
  {
  }

  lemma DispositionsRecover(s: Store, now: Time)
    ensures var after := After(s, RecoverDispositions, now).0;
            after.rows.Keys == s.rows.Keys && forall id | id in s.rows ::
              var row := s.rows[id];
              after.rows[id] == if row.status == Discarding
                                then row.(status := Open, submission := row.submission.(lease := Lease(None, None)),
                                          expiresAt := Later(row.expiresAt, now + 604800.0), updatedAt := now)
                                else row
  {
  }

  lemma SelectionsRecover(s: Store, now: Time)
    ensures var after := After(s, RecoverSelections, now).0;
            after.rows.Keys == s.rows.Keys && forall id | id in s.rows ::
              var row := s.rows[id];
              after.rows[id] == if row.selection.outcome == Some(SelectionRunning)
                                then row.(selection := Selection(row.selection.id, Some(Failed), Some(Unknown), Some(now)),
                                          updatedAt := now)
                                else row
  {
  }

  /** A restart queues the running discoveries of open rows again, ends running selections as failed with their cleanup
      unknown, and opens the rows that were being discarded, which live on for long enough. */
  lemma RestartExactly(s: Store, now: Time)
    ensures var after := After(s, RecoverDiscoveries, now).0;
            after.rows.Keys == s.rows.Keys && forall id | id in s.rows ::
              var row := s.rows[id];
              after.rows[id] == if row.status == Open && row.discovery.status == DiscoveryStatus.Running
                                then row.(discovery := row.discovery.(status := DiscoveryStatus.Queued, lease := Lease(None, None)),
                                          updatedAt := now)
                                else row
    ensures var after := After(s, RecoverDispositions, now).0;
            after.rows.Keys == s.rows.Keys && forall id | id in s.rows ::
              var row := s.rows[id];
              after.rows[id] == if row.status == Discarding
                                then row.(status := Open, submission := row.submission.(lease := Lease(None, None)),
                                          expiresAt := Later(row.expiresAt, now + 604800.0), updatedAt := now)
                                else row
    ensures var after := After(s, RecoverSelections, now).0;
            after.rows.Keys == s.rows.Keys && forall id | id in s.rows ::
              var row := s.rows[id];
              after.rows[id] == if row.selection.outcome == Some(SelectionRunning)
                                then row.(selection := Selection(row.selection.id, Some(Failed), Some(Unknown), Some(now)),
                                          updatedAt := now)
                                else row
  {
    DiscoveriesRecover(s, now);
    DispositionsRecover(s, now);
    SelectionsRecover(s, now);
  }

  /** Deleting an archived code removes that one. */
  lemma DeleteArchivedExactly(s: Store, code: Option<CatalogCode.Identity>, now: Time)
    ensures var result := After(s, DeleteArchived(code), now);
            if code.None? then result == (s, Invalid)
            else && result.0.rows == s.rows && result.0.issued == s.issued
                 && result.0.archive.Keys == s.archive.Keys - {code.value.key}
                 && forall k | k in result.0.archive :: result.0.archive[k] == s.archive[k]
  {
  }
}

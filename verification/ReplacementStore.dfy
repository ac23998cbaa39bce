/**
 * The download replacement store (jav_pilot/downloads/replacements.py) as a transition function:
 * every method is one transaction at a time `now`, and a refused call changes nothing.
 */
module ReplacementStore {
  import opened Collections
  import CatalogCode
  import opened ReplacementRow

  datatype Archived = Archived(code: string, at: Time)

  /** The two tables, and the number of lease tokens handed out so far. */
  datatype Store = Store(rows: map<Id, Row>, archive: map<string, Archived>, issued: Token)

  const MAX_CODE_LENGTH: nat := 40

  /** `code` is what the code in a call normalizes to, if it does. */
  datatype Call =
    | CreateOrReuse(source: Source, revision: string, code: Option<CatalogCode.Identity>, ttl: Time, newId: Id)
    | Get(id: Id)
    | BeginSubmission(id: Id, key: Id, code: Option<CatalogCode.Identity>, targetKind: TargetKind, targetId: string, lease: Time)
    | MarkTargetCreated(id: Id, token: Token)
    | ReleaseSubmission(id: Id, token: Token)
    | QueueDiscovery(id: Id, mode: Mode)
    | BeginSelection(id: Id, selection: Id, revision: string)
    | FinishSelection(id: Id, selection: Id, revision: string, outcome: Outcome, cleanup: CleanupStatus)
    | ClaimDiscovery(id: Id, lease: Time)
    | FinishMagnet(id: Id, token: Token, magnet: Magnet)
    | FinishWeb(id: Id, token: Token, web: WebSearch)
    | BeginDisposition(id: Id, disposition: Disposition)
    | FinishDisposition(id: Id, token: Token, removed: bool, error: string)
    | FinishCleanup(id: Id, held: Option<Token>, removed: bool, error: string)
    | ReadAfterExpiry
    | RecoverDiscoveries
    | RecoverDispositions
    | RecoverSelections
    | DeleteArchived(code: Option<CatalogCode.Identity>)

  datatype Phase = Submit | Cleanup | Finished

  datatype Reply =
    | Replied(row: Row)
    | Started(phase: Phase, row: Row, grant: Option<Token>)
    | Nothing
    | Missing
    | Conflict
    | Invalid

  // ---------------------------------------------------------------- calls about one row

  predicate IsRowCall(call: Call) {
    !call.CreateOrReuse? && !call.ReadAfterExpiry? && !call.RecoverDiscoveries? && !call.RecoverDispositions?
    && !call.RecoverSelections? && !call.DeleteArchived?
  }

  /** The calls that run `_expire_locked` first. */
  predicate Expires(call: Call) {
    call.Get? || call.BeginSubmission? || call.QueueDiscovery? || call.BeginDisposition?
  }

  predicate IsLease(duration: Time) { 1.0 <= duration <= 300.0 }

  function CleanMagnet(m: Magnet): Magnet {
    if m.status.Available? then m else Magnet(m.status, 0, [], m.error)
  }

  function CleanWeb(w: WebSearch): WebSearch {
    if w.status.Available? then w else WebSearch(w.status, [], None, w.error)
  }

  /** The tests a call makes before it opens a transaction. */
  function Objection(call: Call): Option<Reply> {
    match call
    case BeginSubmission(id, key, code, _, _, lease) =>
      if key != id then Some(Conflict)
      else if code.None? || !IsLease(lease) then Some(Invalid)
      else None
    case QueueDiscovery(_, mode) => if mode.NoMode? then Some(Invalid) else None
    case FinishSelection(_, _, _, outcome, _) => if outcome.SelectionRunning? then Some(Invalid) else None
    case ClaimDiscovery(_, lease) => if IsLease(lease) then None else Some(Invalid)
    case FinishMagnet(_, _, m) =>
      if 0 <= m.count <= MAX_MAGNET_COUNT && (m.status.Available? ==> m.count >= 1 && m.snapshots != [])
      then None else Some(Invalid)
    case FinishWeb(_, _, w) =>
      if |w.providers| <= MAX_WEB_PROVIDERS && (w.status.Available? ==> w.providers != []) then None else Some(Invalid)
    case _ => None
  }

  datatype Answer = Refused(reply: Reply) | Updated(row: Row, reply: Reply) | Removed(reply: Reply)

  function Done(row: Row): Answer { Updated(row, Replied(row)) }

  function Grant(row: Row, phase: Phase, token: Token): Answer { Updated(row, Started(phase, row, Some(token))) }

  /** What a call does to its row, once expiry has been looked after. */
  function AnswerOf(row: Row, call: Call, now: Time, token: Token): Answer
    requires IsRowCall(call) && Objection(call).None?
  {
    match call
    case Get(_) => Done(row)
    case BeginSubmission(id, _, code, kind, target, lease) =>
      AnswerSubmission(row, id, code.value.key, kind, target, now + lease, now, token)
    case MarkTargetCreated(_, t) => AnswerMark(row, t, now)
    case ReleaseSubmission(_, t) => AnswerRelease(row, t, now)
    case QueueDiscovery(_, mode) => AnswerQueue(row, mode, now)
    case BeginSelection(_, selection, revision) =>
      if CanSelect(row, revision) then Done(SelectionBegun(row, selection, now)) else Refused(Conflict)
    case FinishSelection(_, selection, revision, outcome, cleanup) =>
      if CanFinishSelection(row, selection, revision) then Done(SelectionFinished(row, outcome, cleanup, now))
      else Refused(Conflict)
    case ClaimDiscovery(_, lease) => AnswerClaim(row, now + lease, now, token)
    case FinishMagnet(_, t, magnet) => AnswerMagnet(row, t, CleanMagnet(magnet), now)
    case FinishWeb(_, t, web) => AnswerWeb(row, t, CleanWeb(web), now)
    case BeginDisposition(_, disposition) => AnswerDisposition(row, disposition, now, token)
    case FinishDisposition(_, t, removed, error) => AnswerDisposed(row, t, removed, error, now)
    case FinishCleanup(_, held, removed, error) => AnswerCleanup(row, held, removed, error, now)
  }

  /** `begin_submission`. */
  function AnswerSubmission(row: Row, id: Id, codeKey: string, kind: TargetKind, target: string, until: Time, now: Time,
                            token: Token): Answer
  {
    var s := row.submission;
    if row.status.Expired? || row.code.key != codeKey then Refused(Conflict)
    else if row.status.Open? && IsSelecting(row) then Refused(Conflict)
    else if SameAsSource(row.source, kind, target) then Refused(Conflict)
    else if s.key.Some? && s.key != Some(id) then Refused(Conflict)
    else if s.targetKind.Some? && (s.targetKind != Some(kind) || s.targetId != Some(target)) then Refused(Conflict)
    else
      match row.status
      case Completed => Updated(row, Started(Finished, row, None))
      case ReplacementCreated =>
        if LeaseOver(s.lease, now) then Grant(CleanupClaimed(row, token, until, now), Cleanup, token) else Refused(Conflict)
      case CleanupFailed =>
        if LeaseOver(s.lease, now) then Grant(CleanupClaimed(row, token, until, now), Cleanup, token) else Refused(Conflict)
      case Submitting =>
        if LeaseOver(s.lease, now) then Grant(Submitted(row, id, kind, target, token, until, now), Submit, token)
        else Refused(Conflict)
      case Open => Grant(Submitted(row, id, kind, target, token, until, now), Submit, token)
      case _ => Refused(Conflict)
  }

  /** `mark_target_created`. */
  function AnswerMark(row: Row, t: Token, now: Time): Answer {
    if row.status.Submitting? && row.submission.lease.token == Some(t) then Done(TargetMarked(row, now))
    else Refused(Conflict)
  }

  /** `release_submission`. */
  function AnswerRelease(row: Row, t: Token, now: Time): Answer {
    if row.status.Submitting? && row.submission.lease.token == Some(t) then Done(SubmissionReleased(row, now))
    else Refused(Conflict)
  }

  /** `queue_discovery`. */
  function AnswerQueue(row: Row, mode: Mode, now: Time): Answer {
    var d := row.discovery;
    if !row.status.Open? || IsSelecting(row) then Refused(Conflict)
    else if d.mode == mode && (d.status.Queued? || (d.status.Running? && !LeaseOver(d.lease, now))) then Done(row)
    else if d.status.Running? && !LeaseOver(d.lease, now) then Refused(Conflict)
    else Done(Requeued(row, mode, now))
  }

  /** `claim_discovery`. */
  function AnswerClaim(row: Row, until: Time, now: Time, token: Token): Answer {
    if IsClaimable(row, now) then Grant(DiscoveryClaimed(row, token, until, now), Submit, token) else Refused(Nothing)
  }

  predicate HoldsDiscovery(row: Row, t: Token) {
    row.status.Open? && row.discovery.status.Running? && row.discovery.lease.token == Some(t)
  }

  /** `finish_magnet_discovery`. */
  function AnswerMagnet(row: Row, t: Token, magnet: Magnet, now: Time): Answer {
    if IsMagnetMode(row.discovery.mode) && HoldsDiscovery(row, t) then Done(MagnetFinished(row, magnet, now))
    else Refused(Conflict)
  }

  /** `finish_web_discovery`. */
  function AnswerWeb(row: Row, t: Token, web: WebSearch, now: Time): Answer {
    if row.discovery.mode.Web? && HoldsDiscovery(row, t) then Done(WebFinished(row, web, now)) else Refused(Conflict)
  }

  /** `begin_disposition`. */
  function AnswerDisposition(row: Row, disposition: Disposition, now: Time, token: Token): Answer {
    if IsDisposable(row) then Grant(DispositionBegun(row, disposition, token, now), Submit, token) else Refused(Nothing)
  }

  /** `finish_disposition`; its reply is made from the row before the update. */
  function AnswerDisposed(row: Row, t: Token, removed: bool, error: string, now: Time): Answer {
    if !row.status.Discarding? || row.submission.lease.token != Some(t) then Refused(Conflict)
    else if removed then Removed(Replied(row.(status := Discarded, submission := row.submission.(cleanupError := None))))
    else Updated(DispositionFailed(row, error, now),
                 Replied(row.(status := Open, submission := row.submission.(cleanupError := Some(error)))))
  }

  /** `finish_cleanup`. */
  function AnswerCleanup(row: Row, held: Option<Token>, removed: bool, error: string, now: Time): Answer {
    if row.status.Completed? && removed then Done(row)
    else if held.None? then Refused(Invalid)
    else if (row.status.ReplacementCreated? || row.status.CleanupFailed?) && row.submission.lease.token == held
    then Done(CleanupFinished(row, removed, if removed then None else Some(error), now))
    else Refused(Conflict)
  }

  // ---------------------------------------------------------------- the store

  /** Every row updated the same way. */
  ghost function MapRows(rows: map<Id, Row>, f: Row -> Row): (r: map<Id, Row>)
    ensures r.Keys == rows.Keys
    ensures forall id | id in rows :: r[id] == f(rows[id])
  {
    MapOf(rows.Keys, (id: Id) requires id in rows => f(rows[id]))
  }

  ghost function ExpireAll(rows: map<Id, Row>, now: Time): (r: map<Id, Row>)
    ensures r.Keys == rows.Keys
    ensures forall id | id in rows :: r[id] == Expire(rows[id], now)
  {
    MapRows(rows, (row: Row) => Expire(row, now))
  }

  predicate IsActiveFor(row: Row, source: Source) {
    IsActive(row.status) && row.source == source
  }

  ghost function ActiveFor(rows: map<Id, Row>, source: Source): (r: Option<Id>)
    ensures match r
            case Some(id) => id in rows && IsActiveFor(rows[id], source)
            case None => forall id | id in rows :: !IsActiveFor(rows[id], source)
  {
    if id :| id in rows && IsActiveFor(rows[id], source) then Some(id) else None
  }

  predicate IsTtl(ttl: Time) { 60.0 <= ttl <= 2592000.0 }

  ghost function AfterCreate(s: Store, call: Call, now: Time): (Store, Reply)
    requires call.CreateOrReuse?
  {
    match call.code
    case None => (s, Invalid)
    case Some(code) =>
      if !IsTtl(call.ttl) then (s, Invalid)
      else
        var rows := ExpireAll(s.rows, now);
        var made := NewRow(call.source, call.revision, code, now, now + call.ttl);
        CreateOn(s, rows, call.newId, made, now)
  }

  ghost function CreateOn(s: Store, rows: map<Id, Row>, newId: Id, made: Row, now: Time): (Store, Reply) {
    match ActiveFor(rows, made.source)
    case None => Inserted(s, rows, newId, made)
    case Some(id) => Reused(s, rows, id, newId, made, now)
  }

  /** The source has an active row: it is handed out again, or makes way if its revision is outdated and
      nothing has been done with it. */
  function Reused(s: Store, rows: map<Id, Row>, id: Id, newId: Id, made: Row, now: Time): (Store, Reply)
    requires id in rows
  {
    var row := rows[id];
    if row.code.key != made.code.key then (s, Conflict)
    else if row.revision == made.revision then (s.(rows := rows), Replied(row))
    else if !CanSupersede(row) then (s, Conflict)
    else Inserted(s, rows[id := Superseded(row, now)], newId, made)
  }

  function Inserted(s: Store, rows: map<Id, Row>, id: Id, row: Row): (Store, Reply) {
    if id in rows then (s, Conflict) else (s.(rows := rows[id := row]), Replied(row))
  }

  ghost function AfterRowCall(s: Store, call: Call, now: Time): (Store, Reply)
    requires IsRowCall(call)
  {
    if Objection(call).Some? then (s, Objection(call).value)
    else
      var rows := if Expires(call) then ExpireAll(s.rows, now) else s.rows;
      if call.id !in rows then (if call.Get? then s.(rows := rows) else s, ReplyWithoutRow(call))
      else Answered(s, rows, call.id, AnswerOf(rows[call.id], call, now, s.issued), now)
  }

  function ReplyWithoutRow(call: Call): Reply {
    if call.Get? || call.BeginSubmission? || call.QueueDiscovery? || call.FinishCleanup? then Missing
    else if call.ClaimDiscovery? || call.BeginDisposition? then Nothing
    else Conflict
  }

  function Answered(s: Store, rows: map<Id, Row>, id: Id, answer: Answer, now: Time): (Store, Reply)
    requires id in rows
  {
    match answer
    case Refused(reply) => (s, reply)
    case Updated(row, reply) => (Store(rows[id := row], s.archive, IssuedAfter(s.issued, reply)), reply)
    case Removed(reply) => (Store(rows - {id}, ArchivedAs(s.archive, rows[id], now), s.issued), reply)
  }

  function IssuedAfter(issued: Token, reply: Reply): Token {
    if reply.Started? && reply.grant.Some? then issued + 1 else issued
  }

  /** A row that is discarded for good leaves its code in the archive if that is its disposition. */
  function ArchivedAs(archive: map<string, Archived>, row: Row, now: Time): map<string, Archived> {
    if row.disposition == Some(Archive) then archive[row.code.key := Archived(row.code.display, now)] else archive
  }

  ghost function After(s: Store, call: Call, now: Time): (Store, Reply) {
    match call
    case CreateOrReuse(_, _, _, _, _) => AfterCreate(s, call, now)
    case ReadAfterExpiry => (s.(rows := ExpireAll(s.rows, now)), Nothing)
    case RecoverDiscoveries => (s.(rows := MapRows(s.rows, (row: Row) => DiscoveryInterrupted(row, now))), Nothing)
    case RecoverDispositions => (s.(rows := MapRows(s.rows, (row: Row) => DispositionInterrupted(row, now))), Nothing)
    case RecoverSelections => (s.(rows := MapRows(s.rows, (row: Row) => SelectionInterrupted(row, now))), Nothing)
    case DeleteArchived(code) =>
      if code.None? then (s, Invalid) else (s.(archive := s.archive - {code.value.key}), Nothing)
    case _ => AfterRowCall(s, call, now)
  }

  // ---------------------------------------------------------------- the invariant

  /** At most one active row for a source (a partial unique index). */
  ghost predicate OneActive(rows: map<Id, Row>) {
    forall id {:trigger OnlyActive(rows, id)} | id in rows && IsActive(rows[id].status) :: OnlyActive(rows, id)
  }

  ghost predicate OnlyActive(rows: map<Id, Row>, id: Id)
    requires id in rows
  {
    forall other | other in rows && IsActiveFor(rows[other], rows[id].source) :: other == id
  }

  ghost predicate RowsInv(rows: map<Id, Row>, issued: Token) {
    (forall id | id in rows :: RowInv(id, rows[id], issued)) && OneActive(rows)
  }

  ghost predicate StoreInv(s: Store) {
    RowsInv(s.rows, s.issued)
  }

  // ---------------------------------------------------------------- every answer is in order

  /** What a call brings along. */
  function AuthorityOf(call: Call): Authority {
    match call
    case MarkTargetCreated(_, t) => NOBODY.(token := Some(t))
    case ReleaseSubmission(_, t) => NOBODY.(token := Some(t), releases := true)
    case FinishMagnet(_, t, _) => NOBODY.(token := Some(t))
    case FinishWeb(_, t, _) => NOBODY.(token := Some(t))
    case FinishDisposition(_, t, _, _) => NOBODY.(token := Some(t))
    case FinishCleanup(_, held, _, _) => NOBODY.(token := held)
    case QueueDiscovery(_, _) => NOBODY.(rechooses := true)
    case BeginSelection(_, _, _) => NOBODY.(rechooses := true)
    case FinishSelection(_, selection, _, _, _) => NOBODY.(selection := Some(selection))
    case RecoverDiscoveries => NOBODY.(restarts := true)
    case RecoverDispositions => NOBODY.(restarts := true)
    case RecoverSelections => NOBODY.(restarts := true)
    case _ => NOBODY
  }

  /** What a call brings along for the row `id`: nothing if it names another row. */
  function AuthorityFor(call: Call, id: Id): Authority {
    if IsRowCall(call) && call.id != id then NOBODY else AuthorityOf(call)
  }

  /** The row an answer leaves is a proper successor, and only the holder of the lease removes a row. */
  ghost predicate InOrder(id: Id, row: Row, answer: Answer, now: Time, issued: Token, actor: Authority) {
    match answer
    case Refused(_) => true
    case Updated(next, reply) => Succeeds(id, row, next, now, issued, IssuedAfter(issued, reply), actor)
    case Removed(_) => row.status.Discarding? && actor.token.Some? && actor.token == row.submission.lease.token
  }

  lemma SubmissionInOrder(id: Id, row: Row, codeKey: string, kind: TargetKind, target: string, until: Time, now: Time,
                          token: Token, actor: Authority)
    requires RowInv(id, row, token) && !(row.status.Submitting? && LeaseOver(row.submission.lease, now))
    ensures InOrder(id, row, AnswerSubmission(row, id, codeKey, kind, target, until, now, token), now, token, actor)
  {
    match AnswerSubmission(row, id, codeKey, kind, target, until, now, token)
    case Refused(_) =>
    case Updated(next, reply) =>
      match row.status {
        case Completed => StaysPut(id, row, now, token, token, actor);
        case Open => SubmittedSucceeds(id, row, kind, target, token, until, now, actor);
        case _ => CleanupClaimedSucceeds(id, row, token, until, now, actor);
      }
  }

  lemma QueueInOrder(id: Id, row: Row, mode: Mode, now: Time, issued: Token, actor: Authority)
    requires RowInv(id, row, issued) && !mode.NoMode? && actor.rechooses
    ensures InOrder(id, row, AnswerQueue(row, mode, now), now, issued, actor)
  {
    StaysPut(id, row, now, issued, issued, actor);
    if row.status.Open? && LeaseOver(row.discovery.lease, now) {
      RequeuedSucceeds(id, row, mode, now, issued, actor);
    }
  }

  lemma DisposedInOrder(id: Id, row: Row, t: Token, removed: bool, error: string, now: Time, issued: Token, actor: Authority)
    requires RowInv(id, row, issued) && actor.token == Some(t)
    ensures InOrder(id, row, AnswerDisposed(row, t, removed, error, now), now, issued, actor)
  {
    if row.status.Discarding? && row.submission.lease.token == Some(t) {
      DispositionFailedSucceeds(id, row, error, now, issued, actor);
    }
  }

  lemma CleanupInOrder(id: Id, row: Row, held: Option<Token>, removed: bool, error: string, now: Time, issued: Token,
                       actor: Authority)
    requires RowInv(id, row, issued) && actor.token == held
    ensures InOrder(id, row, AnswerCleanup(row, held, removed, error, now), now, issued, actor)
  {
    StaysPut(id, row, now, issued, issued, actor);
    if (row.status.ReplacementCreated? || row.status.CleanupFailed?) && held.Some? && row.submission.lease.token == held {
      CleanupFinishedSucceeds(id, row, removed, if removed then None else Some(error), now, issued, actor);
    }
  }

  lemma ClaimInOrder(id: Id, row: Row, until: Time, now: Time, token: Token, actor: Authority)
    requires RowInv(id, row, token)
    ensures InOrder(id, row, AnswerClaim(row, until, now, token), now, token, actor)
  {
    if IsClaimable(row, now) {
      DiscoveryClaimedSucceeds(id, row, token, until, now, actor);
    }
  }

  lemma DispositionInOrder(id: Id, row: Row, disposition: Disposition, now: Time, token: Token, actor: Authority)
    requires RowInv(id, row, token)
    ensures InOrder(id, row, AnswerDisposition(row, disposition, now, token), now, token, actor)
  {
    if IsDisposable(row) {
      DispositionBegunSucceeds(id, row, disposition, token, now, actor);
    }
  }

  lemma MagnetInOrder(id: Id, row: Row, t: Token, magnet: Magnet, now: Time, issued: Token, actor: Authority)
    requires RowInv(id, row, issued) && MagnetInv(magnet) && actor.token == Some(t)
    ensures InOrder(id, row, AnswerMagnet(row, t, magnet, now), now, issued, actor)
  {
    if IsMagnetMode(row.discovery.mode) && HoldsDiscovery(row, t) {
      MagnetFinishedSucceeds(id, row, magnet, now, issued, actor);
    }
  }

  lemma WebInOrder(id: Id, row: Row, t: Token, web: WebSearch, now: Time, issued: Token, actor: Authority)
    requires RowInv(id, row, issued) && WebInv(web) && actor.token == Some(t)
    ensures InOrder(id, row, AnswerWeb(row, t, web, now), now, issued, actor)
  {
    if row.discovery.mode.Web? && HoldsDiscovery(row, t) {
      WebFinishedSucceeds(id, row, web, now, issued, actor);
    }
  }

  /** After `_expire_locked`, no submission lease has run out. */
  lemma NoLapsedSubmission(id: Id, row: Row, now: Time, issued: Token)
    requires RowInv(id, row, issued)
    ensures var e := Expire(row, now); !(e.status.Submitting? && LeaseOver(e.submission.lease, now))
  {
  }

  predicate BringsToken(call: Call) {
    call.MarkTargetCreated? || call.ReleaseSubmission? || call.FinishMagnet? || call.FinishWeb?
    || call.FinishDisposition? || call.FinishCleanup?
  }

  lemma TokenAnswersAreInOrder(row: Row, call: Call, now: Time, issued: Token)
    requires BringsToken(call) && Objection(call).None? && RowInv(call.id, row, issued)
    ensures InOrder(call.id, row, AnswerOf(row, call, now, issued), now, issued, AuthorityOf(call))
  {
    var actor := AuthorityOf(call);
    match call
    case MarkTargetCreated(id, t) =>
      if row.status.Submitting? { TargetMarkedSucceeds(id, row, now, issued, actor); }
    case ReleaseSubmission(id, t) =>
      if row.status.Submitting? && row.submission.lease.token == Some(t) {
        SubmissionReleasedSucceeds(id, row, now, issued, actor);
      }
    case FinishMagnet(id, t, magnet) => MagnetInOrder(id, row, t, CleanMagnet(magnet), now, issued, actor);
    case FinishWeb(id, t, web) => WebInOrder(id, row, t, CleanWeb(web), now, issued, actor);
    case FinishDisposition(id, t, removed, error) => DisposedInOrder(id, row, t, removed, error, now, issued, actor);
    case FinishCleanup(id, held, removed, error) => CleanupInOrder(id, row, held, removed, error, now, issued, actor);
    case _ =>
  }

  lemma SelectionAnswersAreInOrder(row: Row, call: Call, now: Time, issued: Token)
    requires call.QueueDiscovery? || call.BeginSelection? || call.FinishSelection? || call.Get?
    requires Objection(call).None? && RowInv(call.id, row, issued)
    ensures InOrder(call.id, row, AnswerOf(row, call, now, issued), now, issued, AuthorityOf(call))
  {
    var actor := AuthorityOf(call);
    match call
    case Get(id) => StaysPut(id, row, now, issued, issued, actor);
    case QueueDiscovery(id, mode) => QueueInOrder(id, row, mode, now, issued, actor);
    case BeginSelection(id, selection, revision) =>
      if CanSelect(row, revision) { SelectionBegunSucceeds(id, row, selection, revision, now, issued, actor); }
    case FinishSelection(id, selection, revision, outcome, cleanup) =>
      if CanFinishSelection(row, selection, revision) {
        SelectionFinishedSucceeds(id, row, selection, revision, outcome, cleanup, now, issued, actor);
      }
    case _ =>
  }

  lemma GrantAnswersAreInOrder(row: Row, call: Call, now: Time, issued: Token)
    requires call.ClaimDiscovery? || call.BeginDisposition?
    requires Objection(call).None? && RowInv(call.id, row, issued)
    ensures InOrder(call.id, row, AnswerOf(row, call, now, issued), now, issued, AuthorityOf(call))
  {
    if call.ClaimDiscovery? {
      ClaimInOrder(call.id, row, now + call.lease, now, issued, NOBODY);
    } else {
      DispositionInOrder(call.id, row, call.disposition, now, issued, NOBODY);
    }
  }

  lemma SubmissionAnswersAreInOrder(row: Row, call: Call, now: Time, issued: Token)
    requires call.BeginSubmission?
    requires Objection(call).None? && RowInv(call.id, row, issued)
    requires !(row.status.Submitting? && LeaseOver(row.submission.lease, now))
    ensures InOrder(call.id, row, AnswerOf(row, call, now, issued), now, issued, AuthorityOf(call))
  {
    SubmissionInOrder(call.id, row, call.code.value.key, call.targetKind, call.targetId, now + call.lease, now, issued, NOBODY);
  }

  /** Every answer to a call about one row is in order. */
  lemma AnswersAreInOrder(row: Row, call: Call, now: Time, issued: Token)
    requires IsRowCall(call) && Objection(call).None? && RowInv(call.id, row, issued)
    requires !(row.status.Submitting? && LeaseOver(row.submission.lease, now)) || !call.BeginSubmission?
    ensures InOrder(call.id, row, AnswerOf(row, call, now, issued), now, issued, AuthorityOf(call))
  {
    if BringsToken(call) {
      TokenAnswersAreInOrder(row, call, now, issued);
    } else if call.BeginSubmission? {
      SubmissionAnswersAreInOrder(row, call, now, issued);
    } else if call.ClaimDiscovery? || call.BeginDisposition? {
      GrantAnswersAreInOrder(row, call, now, issued);
    } else {
      SelectionAnswersAreInOrder(row, call, now, issued);
    }
  }

  // ---------------------------------------------------------------- every call keeps the invariant

  /** What holds between two states of the store: rows change properly, and a row goes only with its
      disposition, by the holder of its lease. */
  ghost predicate StepInOrder(s: Store, call: Call, now: Time, after: Store) {
    && s.issued <= after.issued
    && (forall id | id in s.rows && id in after.rows ::
          Succeeds(id, s.rows[id], after.rows[id], now, s.issued, after.issued, AuthorityFor(call, id)))
    && (forall id | id in s.rows && id !in after.rows :: IsDisposal(s, call, now, after, id))
    && (forall id | id in after.rows && id !in s.rows :: IsCreation(call, after.rows[id], id))
    && ArchiveInOrder(s, call, now, after.archive)
  }

  /** The archive gains an entry only through a disposition and loses one only on request. */
  ghost predicate ArchiveInOrder(s: Store, call: Call, now: Time, archive: map<string, Archived>) {
    && (forall key | key in archive ::
          (key in s.archive && archive[key] == s.archive[key]) || IsArchiving(s, call, now, key, archive[key]))
    && (call.DeleteArchived? || s.archive.Keys <= archive.Keys)
  }

  predicate IsArchiving(s: Store, call: Call, now: Time, key: string, entry: Archived) {
    && call.FinishDisposition? && call.removed && call.id in s.rows
    && s.rows[call.id].disposition == Some(Archive)
    && s.rows[call.id].code.key == key && entry == Archived(s.rows[call.id].code.display, now)
  }

  /** A row that was not there before has just been created and holds no lease. */
  predicate IsCreation(call: Call, row: Row, id: Id) {
    && call.CreateOrReuse? && call.newId == id && call.code == Some(row.code)
    && row.submission.lease == NO_LEASE && row.discovery.lease == NO_LEASE
    && row.submission.key.None? && row.disposition.None?
  }

  ghost predicate IsDisposal(s: Store, call: Call, now: Time, after: Store, id: Id)
    requires id in s.rows
  {
    var row := s.rows[id];
    && call.FinishDisposition? && call.id == id && call.removed
    && row.status.Discarding? && row.submission.lease.token == Some(call.token)
    && after.archive == (if row.disposition == Some(Archive)
                         then s.archive[row.code.key := Archived(row.code.display, now)] else s.archive)
  }

  ghost predicate CallInOrder(s: Store, call: Call, now: Time, after: Store) {
    StepInOrder(s, call, now, after) && StoreInv(after)
  }

  lemma ExpireAllInOrder(s: Store, call: Call, now: Time)
    requires StoreInv(s)
    ensures CallInOrder(s, call, now, s.(rows := ExpireAll(s.rows, now)))
  {
    forall id | id in s.rows {
      ExpireSucceeds(id, s.rows[id], now, s.issued, AuthorityFor(call, id));
    }
    InOrderKeepsRows(s, call, now, s.(rows := ExpireAll(s.rows, now)));
  }

  lemma ExpiryKeepsOneActive(s: Store, now: Time)
    requires StoreInv(s)
    ensures OneActive(ExpireAll(s.rows, now))
  {
    ExpireAllInOrder(s, ReadAfterExpiry, now);
  }

  /** Replacing one row by a proper successor. */
  lemma PutInOrder(s: Store, call: Call, now: Time, rows: map<Id, Row>, id: Id, next: Row, more: Token)
    requires StoreInv(s) && s.issued <= more && rows.Keys == s.rows.Keys && id in rows
    requires rows == s.rows || rows == ExpireAll(s.rows, now)
    requires Succeeds(id, rows[id], next, now, s.issued, more, AuthorityFor(call, id))
    ensures StepInOrder(s, call, now, Store(rows[id := next], s.archive, more))
  {
    forall x | x in s.rows
      ensures Succeeds(x, s.rows[x], rows[id := next][x], now, s.issued, more, AuthorityFor(call, x))
    {
      BaseOrNext(s, call, now, rows, id, next, more, x);
    }
  }

  lemma BaseOrNext(s: Store, call: Call, now: Time, rows: map<Id, Row>, id: Id, next: Row, more: Token, x: Id)
    requires StoreInv(s) && s.issued <= more && rows.Keys == s.rows.Keys && id in rows && x in rows
    requires rows == s.rows || rows == ExpireAll(s.rows, now)
    requires Succeeds(id, rows[id], next, now, s.issued, more, AuthorityFor(call, id))
    ensures Succeeds(x, s.rows[x], rows[id := next][x], now, s.issued, more, AuthorityFor(call, x))
  {
    AfterBaseSucceeds(x, s.rows[x], rows[x], rows[id := next][x], now, s.issued, more, AuthorityFor(call, x));
  }

  lemma AfterBaseSucceeds(id: Id, row: Row, base: Row, next: Row, now: Time, issued: Token, more: Token, actor: Authority)
    requires RowInv(id, row, issued) && issued <= more
    requires base == row || base == Expire(row, now)
    requires next == base || Succeeds(id, base, next, now, issued, more, actor)
    ensures Succeeds(id, row, next, now, issued, more, actor)
  {
    if base == row {
      StaysPut(id, row, now, issued, more, actor);
    } else {
      ExpireSucceeds(id, row, now, issued, actor);
      StaysPut(id, base, now, issued, more, actor);
      AfterExpirySucceeds(id, row, next, now, issued, more, actor);
    }
  }

  /** Proper successors are rows of the store, and no source gains an active row. */
  lemma InOrderKeepsRows(s: Store, call: Call, now: Time, after: Store)
    requires StoreInv(s) && StepInOrder(s, call, now, after) && after.rows.Keys <= s.rows.Keys
    ensures RowsInv(after.rows, after.issued)
  {
    forall id | id in after.rows && IsActive(after.rows[id].status) ensures OnlyActive(after.rows, id) {
      assert OnlyActive(s.rows, id);
    }
  }

  lemma RemovalInOrder(s: Store, call: Call, now: Time)
    requires StoreInv(s) && call.FinishDisposition? && call.removed && call.id in s.rows
    requires s.rows[call.id].status.Discarding? && s.rows[call.id].submission.lease.token == Some(call.token)
    ensures CallInOrder(s, call, now, Store(s.rows - {call.id}, ArchivedAs(s.archive, s.rows[call.id], now), s.issued))
  {
    var after := Store(s.rows - {call.id}, ArchivedAs(s.archive, s.rows[call.id], now), s.issued);
    forall x | x in s.rows {
      StaysPut(x, s.rows[x], now, s.issued, s.issued, AuthorityFor(call, x));
    }
    InOrderKeepsRows(s, call, now, after);
  }

  lemma AnsweredInOrder(s: Store, call: Call, now: Time, rows: map<Id, Row>, answer: Answer)
    requires StoreInv(s) && IsRowCall(call) && call.id in s.rows
    requires rows == s.rows || rows == ExpireAll(s.rows, now)
    requires InOrder(call.id, rows[call.id], answer, now, s.issued, AuthorityOf(call))
    requires answer.Removed? ==> rows == s.rows && call.FinishDisposition? && call.removed
    ensures CallInOrder(s, call, now, Answered(s, rows, call.id, answer, now).0)
  {
    match answer
    case Refused(_) => NothingHappens(s, call, now);
    case Updated(next, reply) =>
      var more := IssuedAfter(s.issued, reply);
      PutInOrder(s, call, now, rows, call.id, next, more);
      InOrderKeepsRows(s, call, now, Store(rows[call.id := next], s.archive, more));
    case Removed(_) => RemovalInOrder(s, call, now);
  }

  lemma RowCallInOrder(s: Store, call: Call, now: Time)
    requires StoreInv(s) && IsRowCall(call)
    ensures CallInOrder(s, call, now, AfterRowCall(s, call, now).0)
  {
    if Objection(call).Some? || (call.id !in s.rows && !call.Get?) {
      NothingHappens(s, call, now);
    } else if call.id !in s.rows {
      ExpireAllInOrder(s, call, now);
    } else {
      FoundRowInOrder(s, call, now, if Expires(call) then ExpireAll(s.rows, now) else s.rows);
    }
  }

  lemma FoundRowInOrder(s: Store, call: Call, now: Time, rows: map<Id, Row>)
    requires StoreInv(s) && IsRowCall(call) && Objection(call).None? && call.id in s.rows
    requires rows == if Expires(call) then ExpireAll(s.rows, now) else s.rows
    ensures CallInOrder(s, call, now, Answered(s, rows, call.id, AnswerOf(rows[call.id], call, now, s.issued), now).0)
  {
    ExpiredRowInOrder(s, call, now, rows);
    OnlyDisposalRemoves(rows[call.id], call, now, s.issued);
    AnsweredInOrder(s, call, now, rows, AnswerOf(rows[call.id], call, now, s.issued));
  }

  lemma OnlyDisposalRemoves(row: Row, call: Call, now: Time, issued: Token)
    requires IsRowCall(call) && Objection(call).None?
    ensures AnswerOf(row, call, now, issued).Removed? ==> call.FinishDisposition? && call.removed
  {
  }

  lemma ExpiredRowInOrder(s: Store, call: Call, now: Time, rows: map<Id, Row>)
    requires StoreInv(s) && IsRowCall(call) && Objection(call).None? && call.id in s.rows
    requires rows == if Expires(call) then ExpireAll(s.rows, now) else s.rows
    ensures InOrder(call.id, rows[call.id], AnswerOf(rows[call.id], call, now, s.issued), now, s.issued, AuthorityOf(call))
  {
    ExpireSucceeds(call.id, s.rows[call.id], now, s.issued, NOBODY);
    NoLapsedSubmission(call.id, s.rows[call.id], now, s.issued);
    AnswersAreInOrder(rows[call.id], call, now, s.issued);
  }

  lemma NothingHappens(s: Store, call: Call, now: Time)
    requires StoreInv(s)
    ensures StepInOrder(s, call, now, s)
  {
    forall id | id in s.rows {
      StaysPut(id, s.rows[id], now, s.issued, s.issued, AuthorityFor(call, id));
    }
  }

  lemma CreateInOrder(s: Store, call: Call, now: Time)
    requires StoreInv(s) && call.CreateOrReuse? && call.code.Some? && IsTtl(call.ttl)
    ensures CallInOrder(s, call, now, AfterCreate(s, call, now).0)
  {
    var made := MakesRow(s, call, now);
    CreateOnInOrder(s, call, now, made);
  }

  lemma MakesRow(s: Store, call: Call, now: Time) returns (made: Row)
    requires call.CreateOrReuse? && call.code.Some? && IsTtl(call.ttl)
    ensures made == NewRow(call.source, call.revision, call.code.value, now, now + call.ttl)
    ensures RowInv(call.newId, made, s.issued) && made.source == call.source && IsCreation(call, made, call.newId)
    ensures AfterCreate(s, call, now) == CreateOn(s, ExpireAll(s.rows, now), call.newId, made, now)
  {
    made := NewRow(call.source, call.revision, call.code.value, now, now + call.ttl);
  }

  lemma CreateOnInOrder(s: Store, call: Call, now: Time, made: Row)
    requires StoreInv(s) && call.CreateOrReuse?
    requires RowInv(call.newId, made, s.issued) && made.source == call.source && IsCreation(call, made, call.newId)
    ensures CallInOrder(s, call, now, CreateOn(s, ExpireAll(s.rows, now), call.newId, made, now).0)
  {
    match ActiveFor(ExpireAll(s.rows, now), made.source)
    case None =>
      ExpireAllInOrder(s, call, now);
      InsertInOrder(s, call, now, ExpireAll(s.rows, now), made);
    case Some(id) => ReuseInOrder(s, call, now, id, made);
  }

  lemma SupersedingInOrder(s: Store, call: Call, now: Time, rows: map<Id, Row>, id: Id, made: Row)
    requires StoreInv(s) && call.CreateOrReuse? && id in s.rows && rows == ExpireAll(s.rows, now)
    requires CanSupersede(rows[id]) && IsActiveFor(rows[id], call.source)
    requires RowInv(call.newId, made, s.issued) && made.source == call.source && IsCreation(call, made, call.newId)
    ensures CallInOrder(s, call, now, Inserted(s, rows[id := Superseded(rows[id], now)], call.newId, made).0)
  {
    SupersedeInOrder(s, call, now, id);
    InsertInOrder(s, call, now, rows[id := Superseded(rows[id], now)], made);
  }

  lemma ReuseInOrder(s: Store, call: Call, now: Time, id: Id, made: Row)
    requires StoreInv(s) && call.CreateOrReuse? && id in s.rows
    requires IsActiveFor(ExpireAll(s.rows, now)[id], call.source)
    requires RowInv(call.newId, made, s.issued) && made.source == call.source && IsCreation(call, made, call.newId)
    ensures CallInOrder(s, call, now, Reused(s, ExpireAll(s.rows, now), id, call.newId, made, now).0)
  {
    var rows := ExpireAll(s.rows, now);
    if rows[id].code.key == made.code.key && rows[id].revision == made.revision {
      ExpireAllInOrder(s, call, now);
    } else if rows[id].code.key != made.code.key || !CanSupersede(rows[id]) {
      NothingHappens(s, call, now);
    } else {
      SupersedingInOrder(s, call, now, rows, id, made);
    }
  }

  lemma SourceIsFree(rows: map<Id, Row>, id: Id, next: Row)
    requires OneActive(rows) && id in rows && IsActive(rows[id].status) && !IsActive(next.status)
    ensures forall x | x in rows :: !IsActiveFor(rows[id := next][x], rows[id].source)
  {
    assert OnlyActive(rows, id);
  }

  /** Superseding the active row of a source leaves the source without one. */
  lemma SupersedeInOrder(s: Store, call: Call, now: Time, id: Id)
    requires StoreInv(s) && id in s.rows
    requires var row := ExpireAll(s.rows, now)[id]; CanSupersede(row) && IsActive(row.status)
    ensures var rows := ExpireAll(s.rows, now);
            var next := rows[id := Superseded(rows[id], now)];
            && CallInOrder(s, call, now, s.(rows := next))
            && forall x | x in next :: !IsActiveFor(next[x], rows[id].source)
  {
    var rows := ExpireAll(s.rows, now);
    ExpireAllInOrder(s, call, now);
    SupersededSucceeds(id, rows[id], now, s.issued, AuthorityOf(call));
    PutInOrder(s, call, now, rows, id, Superseded(rows[id], now), s.issued);
    InOrderKeepsRows(s, call, now, s.(rows := rows[id := Superseded(rows[id], now)]));
    SourceIsFree(rows, id, Superseded(rows[id], now));
  }

  /** A new row for a source that has no active one. */
  lemma InsertInOrder(s: Store, call: Call, now: Time, rows: map<Id, Row>, made: Row)
    requires StoreInv(s) && CallInOrder(s, call, now, s.(rows := rows)) && rows.Keys == s.rows.Keys
    requires call.CreateOrReuse?
    requires RowInv(call.newId, made, s.issued) && made.source == call.source && IsCreation(call, made, call.newId)
    requires forall id | id in rows :: !IsActiveFor(rows[id], call.source)
    ensures CallInOrder(s, call, now, Inserted(s, rows, call.newId, made).0)
  {
    NothingHappens(s, call, now);
    if call.newId !in rows {
      InsertedRows(rows, s.issued, call.newId, made);
    }
  }

  lemma InsertedRows(rows: map<Id, Row>, issued: Token, id: Id, made: Row)
    requires RowsInv(rows, issued) && id !in rows && RowInv(id, made, issued)
    requires forall x | x in rows :: !IsActiveFor(rows[x], made.source)
    ensures RowsInv(rows[id := made], issued)
  {
    forall x | x in rows && IsActive(rows[x].status) ensures OnlyActive(rows[id := made], x) {
      assert OnlyActive(rows, x);
      assert !IsActiveFor(rows[x], made.source);
    }
    assert OnlyActive(rows[id := made], id);
  }

  /** Rows that all change in order, one by one. */
  lemma MapInOrder(s: Store, call: Call, now: Time, rows: map<Id, Row>)
    requires StoreInv(s) && rows.Keys == s.rows.Keys
    requires forall id | id in rows :: Succeeds(id, s.rows[id], rows[id], now, s.issued, s.issued, AuthorityFor(call, id))
    ensures CallInOrder(s, call, now, s.(rows := rows))
  {
    InOrderKeepsRows(s, call, now, s.(rows := rows));
  }

  lemma RecoverDiscoveriesInOrder(s: Store, now: Time)
    requires StoreInv(s)
    ensures CallInOrder(s, RecoverDiscoveries, now, After(s, RecoverDiscoveries, now).0)
  {
    forall id | id in s.rows {
      DiscoveryInterruptedSucceeds(id, s.rows[id], now, s.issued, AuthorityFor(RecoverDiscoveries, id));
    }
    MapInOrder(s, RecoverDiscoveries, now, After(s, RecoverDiscoveries, now).0.rows);
  }

  lemma RecoverDispositionsInOrder(s: Store, now: Time)
    requires StoreInv(s)
    ensures CallInOrder(s, RecoverDispositions, now, After(s, RecoverDispositions, now).0)
  {
    forall id | id in s.rows {
      DispositionInterruptedSucceeds(id, s.rows[id], now, s.issued, AuthorityFor(RecoverDispositions, id));
    }
    MapInOrder(s, RecoverDispositions, now, After(s, RecoverDispositions, now).0.rows);
  }

  lemma RecoverSelectionsInOrder(s: Store, now: Time)
    requires StoreInv(s)
    ensures CallInOrder(s, RecoverSelections, now, After(s, RecoverSelections, now).0)
  {
    forall id | id in s.rows {
      SelectionInterruptedSucceeds(id, s.rows[id], now, s.issued, AuthorityFor(RecoverSelections, id));
    }
    MapInOrder(s, RecoverSelections, now, After(s, RecoverSelections, now).0.rows);
  }

  /** Every call keeps the invariant and changes rows only in order. */
  lemma CallKeepsInv(s: Store, call: Call, now: Time)
    requires StoreInv(s)
    ensures StoreInv(After(s, call, now).0)
    ensures StepInOrder(s, call, now, After(s, call, now).0)
  {
    if call.CreateOrReuse? && (call.code.None? || !IsTtl(call.ttl)) {
      NothingHappens(s, call, now);
    } else if call.CreateOrReuse? {
      CreateInOrder(s, call, now);
    } else if call.ReadAfterExpiry? {
      ExpireAllInOrder(s, call, now);
    } else if IsRowCall(call) {
      RowCallInOrder(s, call, now);
    } else if call.DeleteArchived? {
      NothingHappens(s, call, now);
    } else if call.RecoverDiscoveries? {
      RecoverDiscoveriesInOrder(s, now);
    } else if call.RecoverDispositions? {
      RecoverDispositionsInOrder(s, now);
    } else {
      RecoverSelectionsInOrder(s, now);
    }
  }
}

/**
 * One row of the download replacement table (jav_pilot/downloads/replacements.py): its columns, the
 * updates the statements of the store make to it, and the invariant they keep.
 *
 * Nullable columns stay separate options, because what ties them to each other is what is proved.
 * The hash of an idempotency key is the key; lease tokens are drawn from a counter.
 */
module ReplacementRow {
  import opened Collections
  import CatalogCode

  type Id = string
  type Token = nat
  type Time = real

  const DEFAULT_TTL: Time := 604800.0
  const DEFAULT_LEASE: Time := 60.0
  const MAX_WEB_PROVIDERS: nat := 3
  const MAX_MAGNET_COUNT := 999

  datatype SourceKind = QbSource | WebJobSource | WebIntentSource
  datatype TargetKind = QbTarget | WebJobTarget
  datatype Status = Open | Submitting | ReplacementCreated | Completed | CleanupFailed | Discarding | Discarded | Expired
  datatype DiscoveryStatus = Idle | Queued | Running | Found | NotFound | Inconclusive
  datatype ChannelStatus = Pending | Available | Absent | Unavailable
  datatype Mode = NoMode | SmartMagnet | Web | ManualMagnet
  datatype Outcome = SelectionRunning | Selected | NothingFound | Unclear | Cancelled | Failed
  datatype CleanupStatus = CleanupPending | Complete | NotRequired | Incomplete | Unknown
  datatype Disposition = Archive | Delete

  datatype Source = Source(kind: SourceKind, id: string)

  /** The two columns of a lease. */
  datatype Lease = Lease(token: Option<Token>, until: Option<Time>)

  const NO_LEASE := Lease(None, None)

  datatype Submission = Submission(
    key: Option<Id>,
    targetKind: Option<TargetKind>,
    targetId: Option<string>,
    lease: Lease,
    cleanupError: Option<string>)

  datatype Magnet = Magnet(status: ChannelStatus, count: int, snapshots: seq<string>, error: Option<string>)

  datatype WebSearch = WebSearch(status: ChannelStatus, providers: seq<string>, variant: Option<string>, error: Option<string>)

  datatype Discovery = Discovery(
    mode: Mode,
    status: DiscoveryStatus,
    magnet: Magnet,
    web: WebSearch,
    startedAt: Option<Time>,
    finishedAt: Option<Time>,
    lease: Lease)

  datatype Selection = Selection(
    id: Option<Id>,
    outcome: Option<Outcome>,
    cleanup: Option<CleanupStatus>,
    finishedAt: Option<Time>)

  const NO_SELECTION := Selection(None, None, None, None)

  datatype Row = Row(
    source: Source,
    revision: string,
    code: CatalogCode.Identity,
    status: Status,
    submission: Submission,
    discovery: Discovery,
    selection: Selection,
    disposition: Option<Disposition>,
    createdAt: Time,
    updatedAt: Time,
    expiresAt: Time)

  predicate IsActive(status: Status) {
    status.Open? || status.Submitting? || status.ReplacementCreated? || status.CleanupFailed? || status.Discarding?
  }

  function Max(a: Time, b: Time): Time { if a < b then b else a }

  predicate Lapsed(lease: Lease, now: Time) {
    lease.until.Some? && lease.until.value <= now
  }

  function Granted(token: Token, until: Time): Lease { Lease(Some(token), Some(until)) }

  predicate SameAsSource(source: Source, kind: TargetKind, id: string) {
    source.id == id && ((source.kind.QbSource? && kind.QbTarget?) || (source.kind.WebJobSource? && kind.WebJobTarget?))
  }

  predicate IsMagnetMode(mode: Mode) { mode.SmartMagnet? || mode.ManualMagnet? }

  predicate IsSelecting(row: Row) { row.selection.outcome == Some(SelectionRunning) }

  /** `_channel_discovery_status`. */
  function Overall(status: ChannelStatus): DiscoveryStatus {
    match status
    case Available => Found
    case Absent => NotFound
    case _ => Inconclusive
  }

  /** The status of the channel a mode searches. */
  function Channel(d: Discovery): ChannelStatus {
    if d.mode.Web? then d.web.status else d.magnet.status
  }

  /** `_DISPOSABLE_FAILURE_WHERE`. */
  predicate IsDisposable(row: Row) {
    && row.status.Open?
    && ((row.discovery.magnet.status.Absent? && row.discovery.web.status.Absent?)
        || (&& (row.source.kind.WebJobSource? || row.source.kind.WebIntentSource?)
            && row.discovery.mode.SmartMagnet?
            && (row.selection.outcome == Some(NothingFound) || row.selection.outcome == Some(Unclear))
            && (row.selection.cleanup == Some(Complete) || row.selection.cleanup == Some(NotRequired))))
  }

  predicate IsClaimable(row: Row, now: Time) {
    && row.status.Open?
    && (row.discovery.status.Queued? || (row.discovery.status.Running? && Lapsed(row.discovery.lease, now)))
  }

  // ---------------------------------------------------------------- updates

  function NewRow(source: Source, revision: string, code: CatalogCode.Identity, now: Time, expiresAt: Time): Row {
    Row(source, revision, code, Open,
        Submission(None, None, None, NO_LEASE, None),
        Discovery(NoMode, Idle, Magnet(Pending, 0, [], None), WebSearch(Pending, [], None, None), None, None, NO_LEASE),
        NO_SELECTION, None, now, now, expiresAt)
  }

  function Released(row: Row, status: Status, now: Time): Row {
    row.(status := status, submission := row.submission.(lease := NO_LEASE), updatedAt := now)
  }

  /** The first statement of `_expire_locked`: a submission whose lease has run out is open again. */
  function Reopen(row: Row, now: Time): Row {
    if row.status.Submitting? && Lapsed(row.submission.lease, now) && row.expiresAt > now
    then Released(row, Open, now) else row
  }

  /** The second statement: whatever can expire and is due expires. */
  function Retire(row: Row, now: Time): Row {
    if (row.status.Open? || row.status.Submitting? || row.status.ReplacementCreated? || row.status.CleanupFailed?)
       && row.expiresAt <= now
    then Released(row, Expired, now) else row
  }

  /** `_expire_locked`, on one row. */
  function Expire(row: Row, now: Time): Row {
    Retire(Reopen(row, now), now)
  }

  function Superseded(row: Row, now: Time): Row {
    Released(row, Expired, now).(discovery := row.discovery.(lease := NO_LEASE))
  }

  predicate CanSupersede(row: Row) {
    && row.status.Open?
    && row.submission.key.None? && row.submission.targetKind.None? && row.submission.targetId.None?
    && row.submission.lease == NO_LEASE
  }

  function Submitted(row: Row, id: Id, kind: TargetKind, target: string, token: Token, until: Time, now: Time): Row {
    row.(status := Submitting,
         submission := Submission(Some(id), Some(kind), Some(target), Granted(token, until), None),
         updatedAt := now)
  }

  function CleanupClaimed(row: Row, token: Token, until: Time, now: Time): Row {
    row.(submission := row.submission.(lease := Granted(token, until)), updatedAt := now)
  }

  function TargetMarked(row: Row, now: Time): Row {
    row.(status := ReplacementCreated, updatedAt := now)
  }

  function SubmissionReleased(row: Row, now: Time): Row {
    row.(status := Open, submission := Submission(None, None, None, NO_LEASE, None), updatedAt := now)
  }

  function Requeued(row: Row, mode: Mode, now: Time): Row {
    var d := if IsMagnetMode(mode) then row.discovery.(magnet := Magnet(Pending, 0, [], None))
             else row.discovery.(web := WebSearch(Pending, [], None, None));
    row.(discovery := d.(mode := mode, status := Queued, startedAt := None, finishedAt := None, lease := NO_LEASE),
         selection := NO_SELECTION, disposition := None, updatedAt := now)
  }

  predicate CanSelect(row: Row, revision: string) {
    && row.status.Open? && row.revision == revision
    && row.discovery.mode.SmartMagnet? && row.discovery.status.Found? && row.discovery.magnet.status.Available?
  }

  function SelectionBegun(row: Row, selection: Id, now: Time): Row {
    row.(selection := Selection(Some(selection), Some(SelectionRunning), Some(CleanupPending), None),
         disposition := None, updatedAt := now)
  }

  predicate CanFinishSelection(row: Row, selection: Id, revision: string) {
    row.status.Open? && row.revision == revision && row.discovery.mode.SmartMagnet? && row.selection.id == Some(selection)
  }

  function SelectionFinished(row: Row, outcome: Outcome, cleanup: CleanupStatus, now: Time): Row {
    row.(selection := row.selection.(outcome := Some(outcome), cleanup := Some(cleanup), finishedAt := Some(now)),
         updatedAt := now)
  }

  function SelectionInterrupted(row: Row, now: Time): Row {
    if IsSelecting(row) then SelectionFinished(row, Failed, Unknown, now) else row
  }

  function DiscoveryInterrupted(row: Row, now: Time): Row {
    if row.status.Open? && row.discovery.status.Running?
    then row.(discovery := row.discovery.(status := Queued, lease := NO_LEASE), updatedAt := now) else row
  }

  function DiscoveryClaimed(row: Row, token: Token, until: Time, now: Time): Row {
    row.(discovery := row.discovery.(status := Running, startedAt := Some(now), finishedAt := None,
                                     lease := Granted(token, until)),
         updatedAt := now)
  }

  function MagnetFinished(row: Row, magnet: Magnet, now: Time): Row {
    row.(discovery := row.discovery.(status := Overall(magnet.status), magnet := magnet, finishedAt := Some(now),
                                     lease := NO_LEASE),
         updatedAt := now)
  }

  function WebFinished(row: Row, web: WebSearch, now: Time): Row {
    row.(discovery := row.discovery.(status := Overall(web.status), web := web, finishedAt := Some(now),
                                     lease := NO_LEASE),
         updatedAt := now)
  }

  function DispositionBegun(row: Row, disposition: Disposition, token: Token, now: Time): Row {
    row.(status := Discarding,
         disposition := if row.disposition.Some? then row.disposition else Some(disposition),
         submission := row.submission.(lease := Granted(token, now + DEFAULT_LEASE)),
         expiresAt := Max(row.expiresAt, now + DEFAULT_TTL), updatedAt := now)
  }

  function DispositionFailed(row: Row, error: string, now: Time): Row {
    row.(status := Open, submission := row.submission.(cleanupError := Some(error), lease := NO_LEASE),
         expiresAt := Max(row.expiresAt, now + DEFAULT_TTL), updatedAt := now)
  }

  function DispositionInterrupted(row: Row, now: Time): Row {
    if row.status.Discarding?
    then row.(status := Open, submission := row.submission.(lease := NO_LEASE),
              expiresAt := Max(row.expiresAt, now + DEFAULT_TTL), updatedAt := now)
    else row
  }

  function CleanupFinished(row: Row, removed: bool, error: Option<string>, now: Time): Row {
    row.(status := if removed then Completed else CleanupFailed,
         submission := row.submission.(cleanupError := error, lease := NO_LEASE), updatedAt := now)
  }

  // ---------------------------------------------------------------- the invariant

  predicate LeaseWhole(lease: Lease, issued: Token) {
    (lease.token.None? <==> lease.until.None?) && (lease.token.Some? ==> lease.token.value < issued)
  }

  predicate SubmissionInv(id: Id, row: Row, issued: Token) {
    var s := row.submission;
    && LeaseWhole(s.lease, issued)
    && (s.key.None? <==> s.targetKind.None?)
    && (s.targetKind.None? <==> s.targetId.None?)
    && (s.key.Some? ==> s.key.value == id && !SameAsSource(row.source, s.targetKind.value, s.targetId.value))
    && (row.status.Open? || row.status.Completed? || row.status.Expired? ==> s.lease == NO_LEASE)
    && (row.status.Submitting? || row.status.ReplacementCreated? ==> s.lease.token.Some? && s.key.Some?)
    && (row.status.CleanupFailed? || row.status.Completed? ==> s.key.Some?)
    && (row.status.Discarding? ==> s.lease.token.Some? && row.disposition.Some?)
    && !row.status.Discarded?
  }

  predicate MagnetInv(m: Magnet) {
    && 0 <= m.count <= MAX_MAGNET_COUNT
    && (if m.status.Available? then m.count >= 1 && m.snapshots != [] else m.count == 0 && m.snapshots == [])
  }

  predicate WebInv(w: WebSearch) {
    && |w.providers| <= MAX_WEB_PROVIDERS
    && (if w.status.Available? then w.providers != [] else w.providers == [] && w.variant == None)
  }

  predicate DiscoveryInv(row: Row, issued: Token) {
    var d := row.discovery;
    && LeaseWhole(d.lease, issued)
    && MagnetInv(d.magnet) && WebInv(d.web)
    && (d.lease.token.Some? ==> d.status.Running?)
    && (d.status.Running? && !row.status.Expired? ==> d.lease.token.Some?)
    && (row.status.Discarding? ==> !d.status.Queued? && !d.status.Running?)
    && (d.status.Idle? <==> d.mode.NoMode?)
    && (d.status.Queued? || d.status.Running? ==> Channel(d).Pending?)
    && (d.status.Found? || d.status.NotFound? || d.status.Inconclusive? ==> d.status == Overall(Channel(d)))
  }

  predicate SelectionInv(row: Row) {
    var s := row.selection;
    && (s.id.None? <==> s.outcome.None?)
    && (s.outcome.None? <==> s.cleanup.None?)
    && (s.finishedAt.Some? <==> s.outcome.Some? && !IsSelecting(row))
    && (s.id.Some? ==> row.discovery.mode.SmartMagnet? && row.discovery.status.Found? && row.discovery.magnet.status.Available?)
    && (IsSelecting(row) ==> row.status.Open? || row.status.Expired?)
  }

  /** What every row satisfies between any two calls; all lease tokens are below `issued`. */
  predicate RowInv(id: Id, row: Row, issued: Token) {
    SubmissionInv(id, row, issued) && DiscoveryInv(row, issued) && SelectionInv(row)
  }

  // ---------------------------------------------------------------- reopening the database

  /** The checks `_verify_schema` makes on the columns of a row; the kinds and statuses are enumerations
      here. */
  predicate VerifiesRow(row: Row) {
    var s, d, sel := row.submission, row.discovery, row.selection;
    && (s.key.None? <==> s.targetKind.None?)
    && (s.targetKind.None? <==> s.targetId.None?)
    && (s.lease.token.None? <==> s.lease.until.None?)
    && (sel.id.None? <==> sel.outcome.None?)
    && (sel.outcome.None? <==> sel.cleanup.None?)
    && !(IsSelecting(row) && sel.finishedAt.Some?)
    && !(sel.outcome.Some? && !IsSelecting(row) && sel.finishedAt.None?)
    && !((d.status.Queued? || d.status.Running?) && d.mode.NoMode?)
    && d.magnet.count >= 0
    && (d.lease.token.None? <==> d.lease.until.None?)
  }

  /** Whatever the store has written passes when the database is opened again. */
  lemma InvariantVerifies(id: Id, row: Row, issued: Token)
    requires RowInv(id, row, issued)
    ensures VerifiesRow(row)
  {
  }

  /** The checks on reopening are weaker than what the store keeps: a completed row that still holds a
      lease passes them. */
  lemma VerificationIsWeaker(row: Row, id: Id, issued: Token)
    requires RowInv(id, row, issued)
    ensures var odd := row.(status := Completed, submission := row.submission.(lease := Granted(issued, 0.0)));
            VerifiesRow(odd) && forall more :: !RowInv(id, odd, more)
  {
  }

  // ---------------------------------------------------------------- how a row may change

  /** What a call brings along: a lease token, a selection identifier, or the right to start over. */
  datatype Authority = Authority(
    token: Option<Token>,
    selection: Option<Id>,
    releases: bool,
    rechooses: bool,
    restarts: bool)

  const NOBODY := Authority(None, None, false, false, false)

  predicate LeaseOver(lease: Lease, now: Time) {
    lease.until.None? || lease.until.value <= now
  }

  /** A new lease takes a fresh token and finds none that has not run out; and a lease that has not
      run out goes away only with its token, through a restart, or because the row has expired. */
  predicate LeaseEvolves(before: Lease, after: Lease, now: Time, issued: Token, actor: Authority, expired: bool) {
    && (after.token.Some? ==> after == before || (after.token == Some(issued) && LeaseOver(before, now)))
    && (before.token.Some? && after != before && !LeaseOver(before, now) ==>
          actor.token == before.token || actor.restarts || expired)
  }

  predicate SameTarget(before: Submission, after: Submission) {
    after.key == before.key && after.targetKind == before.targetKind && after.targetId == before.targetId
  }

  /** Only the selection begun last records an outcome. */
  predicate SelectionEvolves(before: Selection, after: Selection, actor: Authority) {
    || after == before
    || actor.rechooses
    || (actor.selection.Some? && actor.selection == before.id == after.id)
    || (actor.restarts && before.outcome == Some(SelectionRunning) && after.id == before.id && after.outcome == Some(Failed))
  }

  /** What holds between a row and what any one call makes of it. */
  predicate Evolves(before: Row, after: Row, now: Time, issued: Token, actor: Authority) {
    && after.source == before.source && after.revision == before.revision
    && after.code == before.code && after.createdAt == before.createdAt
    && (before.status.Completed? ==> after == before)
    && (before.status.Expired? ==> after == before.(selection := after.selection, updatedAt := after.updatedAt))
    && (IsActive(after.status) ==> IsActive(before.status))
    && before.expiresAt <= after.expiresAt
    && (before.submission.key.Some? ==>
          || SameTarget(before.submission, after.submission)
          || (actor.releases && actor.token.Some? && actor.token == before.submission.lease.token))
    && (before.disposition.Some? ==> after.disposition == before.disposition || actor.rechooses)
    && LeaseEvolves(before.submission.lease, after.submission.lease, now, issued, actor, after.status.Expired?)
    && LeaseEvolves(before.discovery.lease, after.discovery.lease, now, issued, actor, after.status.Expired?)
    && SelectionEvolves(before.selection, after.selection, actor)
  }

  /** `after` is a row of the store and a proper successor of `before`. */
  predicate Succeeds(id: Id, before: Row, after: Row, now: Time, issued: Token, more: Token, actor: Authority) {
    RowInv(id, after, more) && Evolves(before, after, now, issued, actor)
  }

  lemma ExpireSucceeds(id: Id, row: Row, now: Time, issued: Token, actor: Authority)
    requires RowInv(id, row, issued)
    ensures Succeeds(id, row, Expire(row, now), now, issued, issued, actor)
  {
  }

  lemma StaysPut(id: Id, row: Row, now: Time, issued: Token, more: Token, actor: Authority)
    requires RowInv(id, row, issued) && issued <= more
    ensures Succeeds(id, row, row, now, issued, more, actor)
  {
  }

  /** What follows an expiry follows the row before it. */
  lemma AfterExpirySucceeds(id: Id, row: Row, after: Row, now: Time, issued: Token, more: Token, actor: Authority)
    requires RowInv(id, row, issued) && Succeeds(id, Expire(row, now), after, now, issued, more, actor)
    ensures Succeeds(id, row, after, now, issued, more, actor)
  {
  }

  lemma SupersededSucceeds(id: Id, row: Row, now: Time, issued: Token, actor: Authority)
    requires RowInv(id, row, issued) && CanSupersede(row)
    ensures Succeeds(id, row, Superseded(row, now), now, issued, issued, actor)
  {
  }

  lemma SubmittedSucceeds(id: Id, row: Row, kind: TargetKind, target: string, token: Token, until: Time, now: Time, actor: Authority)
    requires RowInv(id, row, token) && row.status.Open? && !IsSelecting(row) && !SameAsSource(row.source, kind, target)
    requires row.submission.key.Some? ==> row.submission.targetKind == Some(kind) && row.submission.targetId == Some(target)
    ensures Succeeds(id, row, Submitted(row, id, kind, target, token, until, now), now, token, token + 1, actor)
  {
  }

  lemma CleanupClaimedSucceeds(id: Id, row: Row, token: Token, until: Time, now: Time, actor: Authority)
    requires RowInv(id, row, token) && (row.status.ReplacementCreated? || row.status.CleanupFailed?)
    requires LeaseOver(row.submission.lease, now)
    ensures Succeeds(id, row, CleanupClaimed(row, token, until, now), now, token, token + 1, actor)
  {
  }

  lemma TargetMarkedSucceeds(id: Id, row: Row, now: Time, issued: Token, actor: Authority)
    requires RowInv(id, row, issued) && row.status.Submitting?
    ensures Succeeds(id, row, TargetMarked(row, now), now, issued, issued, actor)
  {
  }

  lemma SubmissionReleasedSucceeds(id: Id, row: Row, now: Time, issued: Token, actor: Authority)
    requires RowInv(id, row, issued) && row.status.Submitting?
    requires actor.releases && actor.token.Some? && actor.token == row.submission.lease.token
    ensures Succeeds(id, row, SubmissionReleased(row, now), now, issued, issued, actor)
  {
  }

  lemma RequeuedSucceeds(id: Id, row: Row, mode: Mode, now: Time, issued: Token, actor: Authority)
    requires RowInv(id, row, issued) && row.status.Open? && !mode.NoMode?
    requires LeaseOver(row.discovery.lease, now) && actor.rechooses
    ensures Succeeds(id, row, Requeued(row, mode, now), now, issued, issued, actor)
  {
  }

  lemma SelectionBegunSucceeds(id: Id, row: Row, selection: Id, revision: string, now: Time, issued: Token, actor: Authority)
    requires RowInv(id, row, issued) && CanSelect(row, revision) && actor.rechooses
    ensures Succeeds(id, row, SelectionBegun(row, selection, now), now, issued, issued, actor)
  {
  }

  lemma SelectionFinishedSucceeds(id: Id, row: Row, selection: Id, revision: string, outcome: Outcome, cleanup: CleanupStatus,
                                  now: Time, issued: Token, actor: Authority)
    requires RowInv(id, row, issued) && CanFinishSelection(row, selection, revision) && !outcome.SelectionRunning?
    requires actor.selection == Some(selection)
    ensures Succeeds(id, row, SelectionFinished(row, outcome, cleanup, now), now, issued, issued, actor)
  {
  }

  lemma DiscoveryClaimedSucceeds(id: Id, row: Row, token: Token, until: Time, now: Time, actor: Authority)
    requires RowInv(id, row, token) && IsClaimable(row, now)
    ensures Succeeds(id, row, DiscoveryClaimed(row, token, until, now), now, token, token + 1, actor)
  {
  }

  lemma MagnetFinishedSucceeds(id: Id, row: Row, magnet: Magnet, now: Time, issued: Token, actor: Authority)
    requires RowInv(id, row, issued) && row.status.Open? && row.discovery.status.Running?
    requires IsMagnetMode(row.discovery.mode) && MagnetInv(magnet) && actor.token == row.discovery.lease.token
    ensures Succeeds(id, row, MagnetFinished(row, magnet, now), now, issued, issued, actor)
  {
  }

  lemma WebFinishedSucceeds(id: Id, row: Row, web: WebSearch, now: Time, issued: Token, actor: Authority)
    requires RowInv(id, row, issued) && row.status.Open? && row.discovery.status.Running?
    requires row.discovery.mode.Web? && WebInv(web) && actor.token == row.discovery.lease.token
    ensures Succeeds(id, row, WebFinished(row, web, now), now, issued, issued, actor)
  {
  }

  lemma DispositionBegunSucceeds(id: Id, row: Row, disposition: Disposition, token: Token, now: Time, actor: Authority)
    requires RowInv(id, row, token) && IsDisposable(row)
    ensures Succeeds(id, row, DispositionBegun(row, disposition, token, now), now, token, token + 1, actor)
  {
  }

  lemma DispositionFailedSucceeds(id: Id, row: Row, error: string, now: Time, issued: Token, actor: Authority)
    requires RowInv(id, row, issued) && row.status.Discarding? && actor.token == row.submission.lease.token
    ensures Succeeds(id, row, DispositionFailed(row, error, now), now, issued, issued, actor)
  {
  }

  lemma CleanupFinishedSucceeds(id: Id, row: Row, removed: bool, error: Option<string>, now: Time, issued: Token, actor: Authority)
    requires RowInv(id, row, issued) && (row.status.ReplacementCreated? || row.status.CleanupFailed?)
    requires actor.token.Some? && actor.token == row.submission.lease.token && row.submission.key.Some?
    ensures Succeeds(id, row, CleanupFinished(row, removed, error, now), now, issued, issued, actor)
  {
  }

  lemma DiscoveryInterruptedSucceeds(id: Id, row: Row, now: Time, issued: Token, actor: Authority)
    requires RowInv(id, row, issued) && actor.restarts
    ensures Succeeds(id, row, DiscoveryInterrupted(row, now), now, issued, issued, actor)
  {
  }

  lemma DispositionInterruptedSucceeds(id: Id, row: Row, now: Time, issued: Token, actor: Authority)
    requires RowInv(id, row, issued) && actor.restarts
    ensures Succeeds(id, row, DispositionInterrupted(row, now), now, issued, issued, actor)
  {
  }

  lemma SelectionInterruptedSucceeds(id: Id, row: Row, now: Time, issued: Token, actor: Authority)
    requires RowInv(id, row, issued) && actor.restarts
    ensures Succeeds(id, row, SelectionInterrupted(row, now), now, issued, issued, actor)
  {
  }
}

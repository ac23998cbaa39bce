/** The records of the search continuation registry and what each call does to them
    (jav_pilot/api/registries.py, SearchContinuationRegistry). */
module Continuations {
  import opened Collections
  import opened OrderedDict

  type Token = nat
  type LeaseId = nat
  type Time = real

  /** A continuation: the request it is bound to, the result limit it stopped at, whether a source
      failed, how many works it holds, and everything else in it. */
  datatype Envelope = Envelope(binding: nat, limit: int, hasErrors: bool, works: nat, content: nat) {
    /** `_continuation_request_matches`: the same binding, and a limit that can bring new results. */
    predicate Matches(requested: nat, wanted: Option<int>) {
      && binding == requested
      && wanted.Some?
      && (wanted.value > limit || (wanted.value == limit && hasErrors && works < limit))
    }
  }

  datatype Snapshot = Snapshot(hasBase: bool, hasDone: bool, content: nat) {
    predicate Replayable() { hasBase && hasDone }
  }

  datatype Status = Ready | Inflight | Completed

  datatype Record = Record(envelope: Envelope, status: Status, expiresAt: Time, target: Option<int>,
                           lease: Option<LeaseId>, leaseExpires: Option<Time>, snapshot: Option<Snapshot>)
  {
    /** When the record lapses.  A claimed record goes by its lease; a lease time of zero counts as none. */
    function Deadline(): Time {
      if status == Inflight && leaseExpires.Some? && leaseExpires.value != 0.0 then leaseExpires.value else expiresAt
    }

    predicate HeldBy(holder: LeaseId) {
      status == Inflight && lease == Some(holder)
    }

    predicate WellFormed(nextLease: nat) {
      match status
      case Ready => target.None? && lease.None? && leaseExpires.None? && snapshot.None?
      case Inflight => target.Some? && lease.Some? && lease.value < nextLease && leaseExpires.Some? && snapshot.None?
      case Completed => target.Some? && lease.None? && leaseExpires.None? && snapshot.Some? && snapshot.value.Replayable()
    }
  }

  function ReadyRecord(envelope: Envelope, expiresAt: Time): Record {
    Record(envelope, Ready, expiresAt, None, None, None, None)
  }

  function CompletedRecord(envelope: Envelope, expiresAt: Time, limit: int, snapshot: Snapshot): Record {
    Record(envelope, Completed, expiresAt, Some(limit), None, None, Some(snapshot))
  }

  type Records = Dict<Token, Record>

  datatype Registry = Registry(records: Records, nextLease: nat) {
    function At(token: Token): Option<Record> { Lookup(records, token) }
  }

  datatype Limits = Limits(maxItems: nat, ttl: Time)

  datatype Call =
    | Inspect(token: Token, binding: nat, wanted: Option<int>)
    | Begin(token: Token, binding: nat, wanted: Option<int>)
    | Remember(token: Token, envelope: Envelope)
    | Commit(token: Token, lease: LeaseId, envelope: Envelope, limit: int, snapshot: Snapshot,
             next: Option<Token>, nextEnvelope: Option<Envelope>)
    | Abort(token: Token, lease: LeaseId, envelope: Envelope)
    | Contains(token: Token)
    | Renew(token: Token, lease: LeaseId)
    | ExportReady(token: Token)
    | Clear

  datatype Reply =
    | Invalid
    | Available(envelope: Envelope)
    | Busy(envelope: Envelope)
    | Claimed(envelope: Envelope, lease: LeaseId)
    | Replay(envelope: Envelope, snapshot: Snapshot)
    | Answer(ok: bool)
    | Exported(exported: Option<Envelope>)
    | Done

  // ---------------------------------------------------------------- purge and eviction

  function Lives(now: Time): (Token, Record) -> bool {
    (token: Token, record: Record) => record.Deadline() > now
  }

  function Purged(records: Records, now: Time): Records {
    Keep(records, Lives(now))
  }

  predicate Evictable(token: Token, record: Record, spared: set<Token>) {
    record.status != Inflight && token !in spared
  }

  /** The oldest evictable record. */
  function FirstEvictable(records: Records, spared: set<Token>): (r: Option<Token>)
    ensures r.Some? ==> Has(records, r.value)
  {
    match records
    case Empty => None
    case Newer(older, token, record) =>
      var first := FirstEvictable(older, spared);
      if first.Some? then first else if Evictable(token, record, spared) then Some(token) else None
  }

  /** Drops the oldest evictable record, and again, until the registry is within its bound or there is
      no evictable record left. */
  function Evicted(records: Records, spared: set<Token>, maxItems: nat): Records
    decreases Size(records)
  {
    var first := FirstEvictable(records, spared);
    if Size(records) <= maxItems || first.None? then records
    else
      WithoutIsSmaller(records, first.value);
      Evicted(Without(records, first.value), spared, maxItems)
  }

  // ---------------------------------------------------------------- the calls

  function AfterDecision(limits: Limits, s: Registry, token: Token, binding: nat, wanted: Option<int>, claim: bool,
                         now: Time): (Registry, Reply)
  {
    var purged := s.(records := Purged(s.records, now));
    match purged.At(token)
    case None => (purged, Invalid)
    case Some(record) =>
      var touched := purged.(records := Put(purged.records, token, record));
      if !record.envelope.Matches(binding, wanted) then (purged, Invalid)
      else match record.status
        case Completed =>
          if record.target != wanted || record.snapshot.None? then (purged, Invalid)
          else (touched, Replay(record.envelope, record.snapshot.value))
        case Inflight =>
          if record.target != wanted then (purged, Invalid) else (touched, Busy(record.envelope))
        case Ready =>
          if !claim then (touched, Available(record.envelope))
          else (Registry(Put(purged.records, token, Claim(record, wanted, s.nextLease, now + limits.ttl)), s.nextLease + 1),
                Claimed(record.envelope, s.nextLease))
  }

  function Claim(record: Record, wanted: Option<int>, lease: LeaseId, until: Time): Record {
    record.(status := Inflight, target := wanted, lease := Some(lease), leaseExpires := Some(until))
  }

  function AfterRemember(limits: Limits, s: Registry, token: Token, envelope: Envelope, now: Time): (Registry, Reply) {
    var purged := Purged(s.records, now);
    if Has(purged, token) then (s.(records := purged), Answer(false))
    else
      var grown := Put(purged, token, ReadyRecord(envelope, now + limits.ttl));
      (s.(records := Evicted(grown, {token}, limits.maxItems)), Answer(true))
  }

  predicate Commits(record: Option<Record>, lease: LeaseId, envelope: Envelope, limit: int) {
    record.Some? && record.value.HeldBy(lease) && record.value.envelope == envelope && record.value.target == Some(limit)
  }

  function AfterCommit(limits: Limits, s: Registry, c: Call, now: Time): (Registry, Reply)
    requires c.Commit?
  {
    var purged := Purged(s.records, now);
    if c.next.None? != c.nextEnvelope.None? || !c.snapshot.Replayable() then (s, Answer(false))
    else if !Commits(Lookup(purged, c.token), c.lease, c.envelope, c.limit) then (s.(records := purged), Answer(false))
    else if c.next.Some? && Has(purged, c.next.value) then (s.(records := purged), Answer(false))
    else
      var until := now + limits.ttl;
      var settled := Put(purged, c.token, CompletedRecord(c.envelope, until, c.limit, c.snapshot));
      if c.next.None? then (s.(records := Evicted(settled, {c.token}, limits.maxItems)), Answer(true))
      else
        var grown := Put(settled, c.next.value, ReadyRecord(c.nextEnvelope.value, until));
        (s.(records := Evicted(grown, {c.token, c.next.value}, limits.maxItems)), Answer(true))
  }

  function AfterAbort(s: Registry, token: Token, lease: LeaseId, envelope: Envelope, now: Time): (Registry, Reply) {
    var record := s.At(token);
    if record.None? || !record.value.HeldBy(lease) || record.value.envelope != envelope then
      (s.(records := Purged(s.records, now)), Answer(false))
    else if record.value.expiresAt <= now then (s.(records := Without(s.records, token)), Answer(false))
    else (s.(records := Put(s.records, token, ReadyRecord(envelope, record.value.expiresAt))), Answer(true))
  }

  function AfterRenew(limits: Limits, s: Registry, token: Token, lease: LeaseId, now: Time): (Registry, Reply) {
    var record := s.At(token);
    if record.None? || !record.value.HeldBy(lease) then (s.(records := Purged(s.records, now)), Answer(false))
    else (s.(records := Put(s.records, token, record.value.(leaseExpires := Some(now + limits.ttl)))), Answer(true))
  }

  function AfterExport(s: Registry, token: Token, now: Time): (Registry, Reply) {
    var purged := Purged(s.records, now);
    match Lookup(purged, token)
    case None => (s.(records := purged), Exported(None))
    case Some(record) =>
      if record.status != Ready then (s.(records := purged), Exported(None))
      else (s.(records := Put(purged, token, record)), Exported(Some(record.envelope)))
  }

  function After(limits: Limits, s: Registry, c: Call, now: Time): (Registry, Reply) {
    match c
    case Inspect(token, binding, wanted) => AfterDecision(limits, s, token, binding, wanted, false, now)
    case Begin(token, binding, wanted) => AfterDecision(limits, s, token, binding, wanted, true, now)
    case Remember(token, envelope) => AfterRemember(limits, s, token, envelope, now)
    case Commit(_, _, _, _, _, _, _) => AfterCommit(limits, s, c, now)
    case Abort(token, lease, envelope) => AfterAbort(s, token, lease, envelope, now)
    case Contains(token) =>
      var purged := Purged(s.records, now);
      (s.(records := purged), Answer(Has(purged, token)))
    case Renew(token, lease) => AfterRenew(limits, s, token, lease, now)
    case ExportReady(token) => AfterExport(s, token, now)
    case Clear => (s.(records := Empty), Done)
  }

  // ---------------------------------------------------------------- eviction spares what it must

  /** One pass from the oldest record on that drops up to `excess` evictable ones; `left` is how many
      more it would have dropped. */
  function DropOldest(records: Records, spared: set<Token>, excess: nat): (r: (Records, nat)) {
    match records
    case Empty => (Empty, excess)
    case Newer(older, token, record) =>
      var (kept, left) := DropOldest(older, spared, excess);
      if left > 0 && Evictable(token, record, spared) then (kept, left - 1) else (Newer(kept, token, record), left)
  }

  lemma {:induction false} DropFirst(records: Records, spared: set<Token>, excess: nat)
    requires Distinct(records) && excess > 0 && FirstEvictable(records, spared).Some?
    ensures DropOldest(records, spared, excess) ==
            DropOldest(Without(records, FirstEvictable(records, spared).value), spared, excess - 1)
  {
    var Newer(older, token, record) := records;
    if FirstEvictable(older, spared).Some? {
      DropFirst(older, spared, excess);
    } else {
      DropNothing(older, spared, excess);
      DropNothing(older, spared, excess - 1);
      WithoutMissing(older, token);
    }
  }

  lemma {:induction false} DropNothing(records: Records, spared: set<Token>, excess: nat)
    requires excess == 0 || FirstEvictable(records, spared).None?
    ensures DropOldest(records, spared, excess) == (records, excess)
  {
    match records
    case Empty =>
    case Newer(older, _, _) => DropNothing(older, spared, excess);
  }

  function Excess(records: Records, maxItems: nat): nat {
    if Size(records) > maxItems then Size(records) - maxItems else 0
  }

  /** The eviction loop drops the oldest evictable records, as many as there are too many. */
  lemma {:induction false} EvictionDropsOldest(records: Records, spared: set<Token>, maxItems: nat)
    requires Distinct(records)
    ensures Evicted(records, spared, maxItems) == DropOldest(records, spared, Excess(records, maxItems)).0
    decreases Size(records)
  {
    var first := FirstEvictable(records, spared);
    if Size(records) <= maxItems || first.None? {
      DropNothing(records, spared, Excess(records, maxItems));
    } else {
      DropFirst(records, spared, Excess(records, maxItems));
      KeepKeepsDistinct(records, Other(first.value));
      WithoutOne(records, first.value);
      EvictionDropsOldest(Without(records, first.value), spared, maxItems);
    }
  }

  lemma {:induction false} DropCounts(records: Records, spared: set<Token>, excess: nat)
    ensures var (kept, left) := DropOldest(records, spared, excess);
            && left <= excess && Size(kept) + excess == Size(records) + left
            && (left > 0 ==> FirstEvictable(kept, spared).None?)
  {
    match records
    case Empty =>
    case Newer(older, _, _) => DropCounts(older, spared, excess);
  }

  /** Eviction never goes below the bound, and stops above it only if nothing evictable is left. */
  lemma EvictionIsMinimal(records: Records, spared: set<Token>, maxItems: nat)
    requires Distinct(records)
    ensures var kept := Evicted(records, spared, maxItems);
            && (kept == records || maxItems <= Size(kept))
            && (Size(kept) <= maxItems || FirstEvictable(kept, spared).None?)
  {
    EvictionDropsOldest(records, spared, maxItems);
    DropCounts(records, spared, Excess(records, maxItems));
    DropNothing(records, spared, 0);
  }

  /** No evictable record is left exactly if each one is claimed or spared. */
  lemma {:induction false} NothingEvictable(records: Records, spared: set<Token>)
    requires Distinct(records)
    ensures FirstEvictable(records, spared).None? <==>
            forall token | Has(records, token) :: !Evictable(token, Lookup(records, token).value, spared)
  {
    match records
    case Empty =>
    case Newer(older, token, record) =>
      NothingEvictable(older, spared);
      if FirstEvictable(older, spared).Some? {
        var t :| Has(older, t) && Evictable(t, Lookup(older, t).value, spared);
        assert Has(records, t) && Lookup(records, t) == Lookup(older, t);
      } else {
        assert Has(records, token) && Lookup(records, token) == Some(record);
        forall t | Has(records, t) && t != token ensures !Evictable(t, Lookup(records, t).value, spared) {
          assert Has(older, t);
        }
      }
  }

  lemma {:induction false} FirstCanGo(records: Records, spared: set<Token>)
    requires Distinct(records) && FirstEvictable(records, spared).Some?
    ensures var token := FirstEvictable(records, spared).value;
            Has(records, token) && Evictable(token, Lookup(records, token).value, spared)
  {
    if FirstEvictable(records.older, spared).Some? {
      FirstCanGo(records.older, spared);
    }
  }

  /** What a key looks up after an eviction: the same, or nothing if the record could go. */
  lemma {:induction false} LookupEvicted(records: Records, spared: set<Token>, maxItems: nat, token: Token)
    requires Distinct(records)
    ensures Distinct(Evicted(records, spared, maxItems))
    ensures var before, after := Lookup(records, token), Lookup(Evicted(records, spared, maxItems), token);
            after == before || (after == None && before.Some? && Evictable(token, before.value, spared))
    decreases Size(records)
  {
    var first := FirstEvictable(records, spared);
    if Size(records) > maxItems && first.Some? {
      FirstCanGo(records, spared);
      WithoutIsSmaller(records, first.value);
      LookupKeep(records, Other(first.value), token);
      LookupEvicted(Without(records, first.value), spared, maxItems, token);
    }
  }
}

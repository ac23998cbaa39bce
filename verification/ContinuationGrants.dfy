/** When the search continuation registry grants what it is asked for, on the fields of its records, and in
    which order it keeps them (jav_pilot/api/registries.py:61-319). */
module ContinuationGrants {
  import opened Collections
  import opened OrderedDict
  import opened Continuations

  /** The record is still good: a claimed one as long as its lease, any other as long as itself. */
  predicate IsLive(record: Record, now: Time) {
    if record.status == Inflight && record.leaseExpires.Some? && record.leaseExpires.value != 0.0
    then record.leaseExpires.value > now else record.expiresAt > now
  }

  /** The record of a token, if it has a live one. */
  function LiveAt(s: Registry, token: Token, now: Time): Option<Record> {
    if s.At(token).Some? && IsLive(s.At(token).value, now) then s.At(token) else None
  }

  /** The request is the one the continuation is for, and asks for more works than it stopped at, or for as many again
      after a source failed before there were enough. */
  predicate CanBring(envelope: Envelope, binding: nat, wanted: Option<int>) {
    && envelope.binding == binding && wanted.Some?
    && (wanted.value > envelope.limit || (wanted.value == envelope.limit && envelope.hasErrors && envelope.works < envelope.limit))
  }

  // ---------------------------------------------------------------- the order of the tokens

  /** The tokens, oldest first. */
  function Order<K, V>(d: Dict<K, V>): seq<K> {
    match d
    case Empty => []
    case Newer(older, key, _) => Order(older) + [key]
  }

  function LiveOrder(d: Records, now: Time): seq<Token> {
    match d
    case Empty => []
    case Newer(older, token, record) => LiveOrder(older, now) + if IsLive(record, now) then [token] else []
  }

  function Minus<K(==)>(s: seq<K>, key: K): seq<K> {
    if s == [] then [] else Minus(s[..|s| - 1], key) + if s[|s| - 1] == key then [] else [s[|s| - 1]]
  }

  lemma {:induction false} OrderWithout<K, V>(d: Dict<K, V>, key: K)
    ensures Order(Without(d, key)) == Minus(Order(d), key)
  {
    match d
    case Empty =>
    case Newer(older, k, _) =>
      OrderWithout(older, key);
      assert Order(d)[..|Order(d)| - 1] == Order(older);
  }

  lemma {:induction false} OrderPurged(d: Records, now: Time)
    ensures Order(Purged(d, now)) == LiveOrder(d, now)
  {
    match d
    case Empty =>
    case Newer(older, _, _) => OrderPurged(older, now);
  }

  // ---------------------------------------------------------------- purging

  /** Exactly the live records are left. */
  ghost predicate IsPurged(s: Registry, t: Registry, now: Time) {
    && (forall token :: t.At(token) == LiveAt(s, token, now))
    && Order(t.records) == LiveOrder(s.records, now) && t.nextLease == s.nextLease
  }

  /** Exactly the live records are left, one of them or a new one has this value, and it comes last. */
  ghost predicate IsTouched(s: Registry, t: Registry, token: Token, record: Record, now: Time) {
    && t.At(token) == Some(record)
    && (forall other | other != token :: t.At(other) == LiveAt(s, other, now))
    && Order(t.records) == Minus(LiveOrder(s.records, now), token) + [token]
  }

  lemma PurgedExactly(s: Registry, now: Time)
    requires Distinct(s.records)
    ensures Distinct(Purged(s.records, now)) && IsPurged(s, s.(records := Purged(s.records, now)), now)
  {
    forall token {
      LookupKeep(s.records, Lives(now), token);
    }
    KeepKeepsDistinct(s.records, Lives(now));
    OrderPurged(s.records, now);
  }

  lemma TouchedExactly(s: Registry, token: Token, record: Record, nextLease: LeaseId, now: Time)
    requires Distinct(s.records)
    ensures IsTouched(s, Registry(Put(Purged(s.records, now), token, record), nextLease), token, record, now)
  {
    PurgedExactly(s, now);
    var purged := Purged(s.records, now);
    forall other ensures Lookup(Put(purged, token, record), other) == if other == token then Some(record) else LiveAt(s, other, now) {
      PutIsPut(purged, token, record, other);
      assert Lookup(purged, other) == s.(records := purged).At(other);
    }
    OrderWithout(purged, token);
  }

  // ---------------------------------------------------------------- inspect and begin

  /** What `inspect` and `begin` answer, the eight ways told apart by the live record of the token. */
  ghost predicate DecisionComesTo(limits: Limits, s: Registry, token: Token, binding: nat, wanted: Option<int>, claim: bool,
                                  now: Time, result: (Registry, Reply))
  {
    var (t, reply) := result;
    match LiveAt(s, token, now)
    case None => reply == Invalid && IsPurged(s, t, now)
    case Some(record) =>
      if !CanBring(record.envelope, binding, wanted) then reply == Invalid && IsPurged(s, t, now)
      else if record.status == Ready && claim then
        var held := record.(status := Inflight, target := wanted, lease := Some(s.nextLease), leaseExpires := Some(now + limits.ttl));
        reply == Claimed(record.envelope, s.nextLease) && t.nextLease == s.nextLease + 1 && IsTouched(s, t, token, held, now)
      else if record.status == Ready then
        reply == Available(record.envelope) && t.nextLease == s.nextLease && IsTouched(s, t, token, record, now)
      else if record.target != wanted then reply == Invalid && IsPurged(s, t, now)
      else if record.status == Inflight then
        reply == Busy(record.envelope) && t.nextLease == s.nextLease && IsTouched(s, t, token, record, now)
      else if record.snapshot.None? then reply == Invalid && IsPurged(s, t, now)
      else
        reply == Replay(record.envelope, record.snapshot.value) && t.nextLease == s.nextLease && IsTouched(s, t, token, record, now)
  }

  lemma DecisionExactly(limits: Limits, s: Registry, token: Token, binding: nat, wanted: Option<int>, claim: bool, now: Time)
    requires Distinct(s.records)
    ensures DecisionComesTo(limits, s, token, binding, wanted, claim, now,
                            AfterDecision(limits, s, token, binding, wanted, claim, now))
  {
    PurgedExactly(s, now);
    var purged := s.(records := Purged(s.records, now));
    assert purged.At(token) == LiveAt(s, token, now);
    if LiveAt(s, token, now).Some? {
      var record := LiveAt(s, token, now).value;
      TouchedExactly(s, token, record, s.nextLease, now);
      TouchedExactly(s, token, Claim(record, wanted, s.nextLease, now + limits.ttl), s.nextLease + 1, now);
    }
  }

  /** `begin` claims exactly a ready record that has not expired, for a request that can bring more; then the record is
      held under a fresh lease. */
  lemma BeginExactly(limits: Limits, s: Registry, token: Token, binding: nat, wanted: Option<int>, now: Time)
    requires Distinct(s.records)
    ensures var result := After(limits, s, Begin(token, binding, wanted), now);
            && DecisionComesTo(limits, s, token, binding, wanted, true, now, result)
            && (result.1.Claimed? <==>
                  && s.At(token).Some? && s.At(token).value.status == Ready && s.At(token).value.expiresAt > now
                  && CanBring(s.At(token).value.envelope, binding, wanted))
  {
    DecisionExactly(limits, s, token, binding, wanted, true, now);
  }

  /** `inspect` calls a continuation available exactly when `begin` would claim it, and grants nothing. */
  lemma InspectExactly(limits: Limits, s: Registry, token: Token, binding: nat, wanted: Option<int>, now: Time)
    requires Distinct(s.records)
    ensures var result := After(limits, s, Inspect(token, binding, wanted), now);
            && DecisionComesTo(limits, s, token, binding, wanted, false, now, result)
            && (result.1.Available? <==>
                  && s.At(token).Some? && s.At(token).value.status == Ready && s.At(token).value.expiresAt > now
                  && CanBring(s.At(token).value.envelope, binding, wanted))
            && (result.1.Available? <==> After(limits, s, Begin(token, binding, wanted), now).1.Claimed?)
            && !result.1.Claimed?
  {
    DecisionExactly(limits, s, token, binding, wanted, false, now);
    BeginExactly(limits, s, token, binding, wanted, now);
  }

  // ---------------------------------------------------------------- the holder of a claim

  /** The token is claimed under this lease, for this continuation. */
  predicate IsHeld(s: Registry, token: Token, lease: LeaseId) {
    s.At(token).Some? && s.At(token).value.status == Inflight && s.At(token).value.lease == Some(lease)
  }

  /** Nothing changes but this record, which comes last then. */
  ghost predicate IsReplaced(s: Registry, t: Registry, token: Token, record: Record) {
    && t.At(token) == Some(record)
    && (forall other | other != token :: t.At(other) == s.At(other))
    && Order(t.records) == Minus(Order(s.records), token) + [token]
    && t.nextLease == s.nextLease
  }

  lemma ReplacedExactly(s: Registry, token: Token, record: Record)
    requires Distinct(s.records)
    ensures IsReplaced(s, s.(records := Put(s.records, token, record)), token, record)
  {
    forall other ensures Lookup(Put(s.records, token, record), other) == if other == token then Some(record) else s.At(other) {
      PutIsPut(s.records, token, record, other);
    }
    OrderWithout(s.records, token);
  }

  /** `abort` gives a claim back exactly for its holder and before the record itself expires, the lease aside; after that
      the record goes. */
  lemma AbortExactly(limits: Limits, s: Registry, token: Token, lease: LeaseId, envelope: Envelope, now: Time)
    requires Distinct(s.records)
    ensures var (t, reply) := After(limits, s, Abort(token, lease, envelope), now);
            if IsHeld(s, token, lease) && s.At(token).value.envelope == envelope then
              if s.At(token).value.expiresAt > now then
                reply == Answer(true) && IsReplaced(s, t, token, Record(envelope, Ready, s.At(token).value.expiresAt, None, None, None, None))
              else
                reply == Answer(false) && t.nextLease == s.nextLease && Order(t.records) == Minus(Order(s.records), token)
                && forall other :: t.At(other) == if other == token then None else s.At(other)
            else reply == Answer(false) && IsPurged(s, t, now)
  {
    PurgedExactly(s, now);
    if s.At(token).Some? {
      ReplacedExactly(s, token, ReadyRecord(envelope, s.At(token).value.expiresAt));
      OrderWithout(s.records, token);
      forall other ensures Lookup(Without(s.records, token), other) == if other == token then None else s.At(other) {
        LookupKeep(s.records, Other(token), other);
      }
    }
  }

  lemma RenewIs(limits: Limits, s: Registry, token: Token, lease: LeaseId, now: Time)
    ensures After(limits, s, Renew(token, lease), now) ==
            if IsHeld(s, token, lease) then
              (s.(records := Put(s.records, token, s.At(token).value.(leaseExpires := Some(now + limits.ttl)))), Answer(true))
            else (s.(records := Purged(s.records, now)), Answer(false))
  {
  }

  /** `renew` moves the lease time exactly for the holder, even after the lease has run out. */
  lemma RenewExactly(limits: Limits, s: Registry, token: Token, lease: LeaseId, now: Time)
    requires Distinct(s.records)
    ensures var (t, reply) := After(limits, s, Renew(token, lease), now);
            if IsHeld(s, token, lease) then
              reply == Answer(true) && IsReplaced(s, t, token, s.At(token).value.(leaseExpires := Some(now + limits.ttl)))
            else reply == Answer(false) && IsPurged(s, t, now)
  {
    RenewIs(limits, s, token, lease, now);
    if IsHeld(s, token, lease) {
      ReplacedExactly(s, token, s.At(token).value.(leaseExpires := Some(now + limits.ttl)));
    } else {
      PurgedExactly(s, now);
    }
  }

  // ---------------------------------------------------------------- remember and commit

  /** The entry of `a` is older than the one of `b`. */
  predicate Precedes<K(==), V>(d: Dict<K, V>, a: K, b: K) {
    match d
    case Empty => false
    case Newer(older, key, _) => (key == b && Has(older, a)) || Precedes(older, a, b)
  }

  predicate CanGo(records: Records, token: Token, spared: set<Token>) {
    Has(records, token) && Lookup(records, token).value.status != Inflight && token !in spared
  }

  /** Eviction goes by age, and no further than it has to: it stops at the bound, or when nothing is left that is neither
      claimed nor protected, and whatever could go and has stayed is newer than all that has gone. */
  ghost predicate GoesByAge(before: Records, after: Records, spared: set<Token>, maxItems: nat) {
    && (after == before || |Order(after)| >= maxItems)
    && (|Order(after)| <= maxItems || forall token :: !CanGo(after, token, spared))
    && (forall a, b | Has(before, a) && !Has(after, a) && CanGo(after, b, spared) :: Precedes(before, a, b))
    && (forall a | Has(before, a) && !Has(after, a) :: CanGo(before, a, spared))
  }

  lemma {:induction false} OrderIsAll<K, V>(d: Dict<K, V>)
    ensures |Order(d)| == Size(d)
  {
    match d
    case Empty =>
    case Newer(older, _, _) => OrderIsAll(older);
  }

  lemma {:induction false} DropsByAge(records: Records, spared: set<Token>, excess: nat)
    requires Distinct(records)
    ensures var (kept, left) := DropOldest(records, spared, excess);
            && (left > 0 ==> forall token :: !CanGo(kept, token, spared))
            && (forall token :: Lookup(kept, token) == Lookup(records, token) || (Lookup(kept, token) == None && CanGo(records, token, spared)))
            && (forall a, b | Has(records, a) && !Has(kept, a) && CanGo(kept, b, spared) :: Precedes(records, a, b))
  {
    match records
    case Empty =>
    case Newer(older, token, record) =>
      DropsByAge(older, spared, excess);
      var (before, left) := DropOldest(older, spared, excess);
      var kept := DropOldest(records, spared, excess).0;
      assert Lookup(before, token) == None;
      forall other | other != token
        ensures Lookup(records, other) == Lookup(older, other) && Lookup(kept, other) == Lookup(before, other)
        ensures CanGo(kept, other, spared) <==> CanGo(before, other, spared)
      {
      }
      assert CanGo(records, token, spared) <==> Evictable(token, record, spared);
      forall a, b | Has(records, a) && !Has(kept, a) && CanGo(kept, b, spared) ensures Precedes(records, a, b) {
        assert a != b;
      }
  }

  lemma EvictsByAge(records: Records, spared: set<Token>, maxItems: nat)
    requires Distinct(records)
    ensures GoesByAge(records, Evicted(records, spared, maxItems), spared, maxItems)
  {
    EvictionDropsOldest(records, spared, maxItems);
    EvictionIsMinimal(records, spared, maxItems);
    DropCounts(records, spared, Excess(records, maxItems));
    DropsByAge(records, spared, Excess(records, maxItems));
    OrderIsAll(Evicted(records, spared, maxItems));
  }

  /** What eviction leaves: of the live records some that are not claimed may be gone; what is protected stays, and the
      newest record stays the newest. */
  ghost predicate IsEvicted(s: Registry, t: Registry, spared: set<Token>, now: Time) {
    forall other | other !in spared ::
      t.At(other) == LiveAt(s, other, now) || (t.At(other) == None && LiveAt(s, other, now).value.status != Inflight)
  }

  predicate IsNewest(records: Records, token: Token) {
    records.Newer? && records.key == token
  }

  lemma SparedStaysNewest(records: Records, spared: set<Token>, maxItems: nat, token: Token)
    requires Distinct(records) && IsNewest(records, token) && token in spared
    ensures IsNewest(Evicted(records, spared, maxItems), token)
  {
    EvictionDropsOldest(records, spared, maxItems);
  }

  lemma AddedExactly(s: Registry, records: Records, token: Token, record: Record, spared: set<Token>, maxItems: nat, now: Time)
    requires Distinct(records) && token in spared
    requires forall other | other !in spared :: Lookup(records, other) == LiveAt(s, other, now)
    ensures var t := Evicted(Put(records, token, record), spared, maxItems);
            && Lookup(t, token) == Some(record) && IsNewest(t, token) && Distinct(t)
            && (forall other | other in spared && other != token :: Lookup(t, other) == Lookup(records, other))
            && IsEvicted(s, s.(records := t), spared, now)
  {
    var grown := Put(records, token, record);
    PutIsPut(records, token, record, token);
    SparedStaysNewest(grown, spared, maxItems, token);
    LookupEvicted(grown, spared, maxItems, token);
    forall other | other != token
      ensures var there := Lookup(Evicted(grown, spared, maxItems), other);
              there == Lookup(records, other)
              || (there == None && other !in spared && Lookup(records, other).Some? && Lookup(records, other).value.status != Inflight)
    {
      PutIsPut(records, token, record, other);
      LookupEvicted(grown, spared, maxItems, other);
    }
  }

  /** `remember` takes exactly a token that has no live record. */
  lemma RememberExactly(limits: Limits, s: Registry, token: Token, envelope: Envelope, now: Time)
    requires Distinct(s.records)
    ensures var (t, reply) := After(limits, s, Remember(token, envelope), now);
            if LiveAt(s, token, now).None? then
              && reply == Answer(true) && t.nextLease == s.nextLease && IsNewest(t.records, token)
              && t.At(token) == Some(Record(envelope, Ready, now + limits.ttl, None, None, None, None))
              && IsEvicted(s, t, {token}, now)
              && (exists grown :: IsTouched(s, grown, token, ReadyRecord(envelope, now + limits.ttl), now)
                                  && GoesByAge(grown.records, t.records, {token}, limits.maxItems))
            else reply == Answer(false) && IsPurged(s, t, now)
  {
    PurgedExactly(s, now);
    var purged := Purged(s.records, now);
    forall other ensures Lookup(purged, other) == LiveAt(s, other, now) {
      assert s.(records := purged).At(other) == LiveAt(s, other, now);
    }
    AddedExactly(s, purged, token, ReadyRecord(envelope, now + limits.ttl), {token}, limits.maxItems, now);
    TouchedExactly(s, token, ReadyRecord(envelope, now + limits.ttl), s.nextLease, now);
    PutIsPut(purged, token, ReadyRecord(envelope, now + limits.ttl), token);
    EvictsByAge(Put(purged, token, ReadyRecord(envelope, now + limits.ttl)), {token}, limits.maxItems);
  }

  /** What `commit` asks for: a replayable snapshot, the next token together with its continuation, the claim under this
      lease, still live and for this continuation and limit, and no live record of the next token. */
  predicate CanCommit(s: Registry, c: Call, now: Time)
    requires c.Commit?
  {
    && c.snapshot.hasBase && c.snapshot.hasDone && (c.next.Some? <==> c.nextEnvelope.Some?)
    && LiveAt(s, c.token, now).Some? && IsHeld(s, c.token, c.lease)
    && s.At(c.token).value.envelope == c.envelope && s.At(c.token).value.target == Some(c.limit)
    && (c.next.Some? ==> LiveAt(s, c.next.value, now).None?)
  }

  /** The registry with the completed record, and the next one after it. */
  ghost predicate IsGrown(s: Registry, grown: Registry, c: Call, until: Time, now: Time)
    requires c.Commit? && (c.next.Some? <==> c.nextEnvelope.Some?)
  {
    var done := Record(c.envelope, Completed, until, Some(c.limit), None, None, Some(c.snapshot));
    if c.next.None? then IsTouched(s, grown, c.token, done, now)
    else
      exists settled :: IsTouched(s, settled, c.token, done, now)
                        && IsReplaced(settled, grown, c.next.value, Record(c.nextEnvelope.value, Ready, until, None, None, None, None))
  }

  function Spared(c: Call): set<Token>
    requires c.Commit?
  {
    if c.next.Some? then {c.token, c.next.value} else {c.token}
  }

  lemma CommitGoesByAge(limits: Limits, s: Registry, c: Call, now: Time)
    requires Distinct(s.records) && c.Commit? && (c.next.Some? <==> c.nextEnvelope.Some?)
    requires After(limits, s, c, now).1 == Answer(true)
    ensures exists grown :: IsGrown(s, grown, c, now + limits.ttl, now)
                            && GoesByAge(grown.records, After(limits, s, c, now).0.records, Spared(c), limits.maxItems)
  {
    var purged := Purged(s.records, now);
    PurgedExactly(s, now);
    var done := CompletedRecord(c.envelope, now + limits.ttl, c.limit, c.snapshot);
    TouchedExactly(s, c.token, done, s.nextLease, now);
    PutIsPut(purged, c.token, done, c.token);
    var settled := Registry(Put(purged, c.token, done), s.nextLease);
    if c.next.None? {
      EvictsByAge(settled.records, Spared(c), limits.maxItems);
      assert IsGrown(s, settled, c, now + limits.ttl, now);
    } else {
      var next := ReadyRecord(c.nextEnvelope.value, now + limits.ttl);
      ReplacedExactly(settled, c.next.value, next);
      PutIsPut(settled.records, c.next.value, next, c.next.value);
      var grown := settled.(records := Put(settled.records, c.next.value, next));
      EvictsByAge(grown.records, Spared(c), limits.maxItems);
      assert IsGrown(s, grown, c, now + limits.ttl, now);
    }
  }

  /** `commit` completes the claim exactly then; the completed record and the next one are both there afterwards. */
  lemma CommitExactly(limits: Limits, s: Registry, c: Call, now: Time)
    requires Distinct(s.records) && c.Commit?
    ensures var (t, reply) := After(limits, s, c, now);
            if CanCommit(s, c, now) then
              && reply == Answer(true) && t.nextLease == s.nextLease
              && t.At(c.token) == Some(Record(c.envelope, Completed, now + limits.ttl, Some(c.limit), None, None, Some(c.snapshot)))
              && (c.next.Some? ==>
                    t.At(c.next.value) == Some(Record(c.nextEnvelope.value, Ready, now + limits.ttl, None, None, None, None)))
              && IsNewest(t.records, if c.next.Some? then c.next.value else c.token)
              && IsEvicted(s, t, Spared(c), now)
              && (exists grown :: IsGrown(s, grown, c, now + limits.ttl, now)
                                  && GoesByAge(grown.records, t.records, Spared(c), limits.maxItems))
            else reply == Answer(false) && (t == s || IsPurged(s, t, now))
  {
    PurgedExactly(s, now);
    var purged := Purged(s.records, now);
    forall other ensures Lookup(purged, other) == LiveAt(s, other, now) {
      assert s.(records := purged).At(other) == LiveAt(s, other, now);
    }
    if CanCommit(s, c, now) {
      CommitGoesByAge(limits, s, c, now);
      var done := CompletedRecord(c.envelope, now + limits.ttl, c.limit, c.snapshot);
      if c.next.None? {
        AddedExactly(s, purged, c.token, done, {c.token}, limits.maxItems, now);
      } else {
        var settled := Put(purged, c.token, done);
        forall other ensures Distinct(settled) && Lookup(settled, other) == if other == c.token then Some(done) else LiveAt(s, other, now) {
          PutIsPut(purged, c.token, done, other);
        }
        AddedExactly(s, settled, c.next.value, ReadyRecord(c.nextEnvelope.value, now + limits.ttl), {c.token, c.next.value},
                     limits.maxItems, now);
      }
    }
  }

  // ---------------------------------------------------------------- reading

  /** `contains` says whether the token has a live record; `export_ready` gives exactly a ready one; `clear` leaves
      nothing. */
  lemma ReadExactly(limits: Limits, s: Registry, token: Token, now: Time)
    requires Distinct(s.records)
    ensures var (t, reply) := After(limits, s, Contains(token), now);
            reply == Answer(LiveAt(s, token, now).Some?) && IsPurged(s, t, now)
    ensures var (t, reply) := After(limits, s, ExportReady(token), now);
            if LiveAt(s, token, now).Some? && s.At(token).value.status == Ready then
              && reply == Exported(Some(s.At(token).value.envelope)) && t.nextLease == s.nextLease
              && IsTouched(s, t, token, s.At(token).value, now)
            else reply == Exported(None) && IsPurged(s, t, now)
    ensures var (t, reply) := After(limits, s, Clear, now);
            reply == Done && t.nextLease == s.nextLease && Order(t.records) == [] && forall other :: t.At(other) == None
  {
    PurgedExactly(s, now);
    assert s.(records := Purged(s.records, now)).At(token) == LiveAt(s, token, now);
    if LiveAt(s, token, now).Some? {
      TouchedExactly(s, token, s.At(token).value, s.nextLease, now);
    }
    forall other ensures Lookup<Token, Record>(Empty, other) == None {}
  }
}

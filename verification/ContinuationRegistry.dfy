/** The search continuation registry as the object it is: every method does what `Continuations.After`
    says of its call (jav_pilot/api/registries.py:47-319). */
module ContinuationRegistry {
  import opened Collections
  import opened OrderedDict
  import opened Continuations
  import ContinuationRuns

  class SearchContinuationRegistry {
    const limits: Limits
    var records: Records
    /** The source of fresh lease identifiers. */
    var nextLease: nat

    ghost function View(): Registry
      reads this
    {
      Registry(records, nextLease)
    }

    ghost predicate Valid()
      reads this
    {
      ContinuationRuns.Inv(View())
    }

    constructor (maxItems: int, ttl: Time)
      ensures Valid() && View() == Registry(Empty, 0)
      ensures limits.maxItems == if maxItems < 1 then 1 else maxItems
      ensures limits.ttl == if ttl < 1.0 then 1.0 else ttl
    {
      limits := Limits(if maxItems < 1 then 1 else maxItems, if ttl < 1.0 then 1.0 else ttl);
      records, nextLease := Empty, 0;
    }

    method Inspect(token: Token, binding: nat, wanted: Option<int>, now: Time) returns (reply: Reply)
      requires Valid()
      modifies this
      ensures Valid()
      ensures (View(), reply) == After(limits, old(View()), Call.Inspect(token, binding, wanted), now)
    {
      ContinuationRuns.CallKeepsInv(limits, View(), Call.Inspect(token, binding, wanted), now);
      reply := Decide(token, binding, wanted, false, now);
    }

    method Begin(token: Token, binding: nat, wanted: Option<int>, now: Time) returns (reply: Reply)
      requires Valid()
      modifies this
      ensures Valid()
      ensures (View(), reply) == After(limits, old(View()), Call.Begin(token, binding, wanted), now)
    {
      ContinuationRuns.CallKeepsInv(limits, View(), Call.Begin(token, binding, wanted), now);
      reply := Decide(token, binding, wanted, true, now);
    }

    /** `_decide_locked`. */
    method Decide(token: Token, binding: nat, wanted: Option<int>, claim: bool, now: Time) returns (reply: Reply)
      requires Distinct(records)
      modifies this
      ensures (View(), reply) == AfterDecision(limits, old(View()), token, binding, wanted, claim, now)
    {
      PurgeExpired(now);
      var found := Lookup(records, token);
      if found.None? || !found.value.envelope.Matches(binding, wanted) {
        return Invalid;
      }
      var record := found.value;
      if record.status == Completed {
        if record.target != wanted || record.snapshot.None? {
          return Invalid;
        }
        records := Put(records, token, record);
        return Replay(record.envelope, record.snapshot.value);
      }
      if record.status == Inflight {
        if record.target != wanted {
          return Invalid;
        }
        records := Put(records, token, record);
        return Busy(record.envelope);
      }
      if !claim {
        records := Put(records, token, record);
        return Available(record.envelope);
      }
      var lease := nextLease;
      nextLease := nextLease + 1;
      records := Put(records, token, Continuations.Claim(record, wanted, lease, now + limits.ttl));
      reply := Claimed(record.envelope, lease);
    }

    /** `remember`; its last lookup always finds the token. */
    method Remember(token: Token, envelope: Envelope, now: Time) returns (ok: bool)
      requires Valid()
      modifies this
      ensures Valid()
      ensures (View(), Answer(ok)) == After(limits, old(View()), Call.Remember(token, envelope), now)
    {
      ContinuationRuns.CallKeepsInv(limits, View(), Call.Remember(token, envelope), now);
      ContinuationRuns.RememberIsExact(limits, View(), Call.Remember(token, envelope), now);
      KeepKeepsDistinct(records, Lives(now));
      PurgeExpired(now);
      if Has(records, token) {
        return false;
      }
      PutIsPut(records, token, ReadyRecord(envelope, now + limits.ttl), token);
      records := Put(records, token, ReadyRecord(envelope, now + limits.ttl));
      Evict({token});
      ok := Has(records, token);
    }

    /** `commit`; its last lookups always find both tokens. */
    method Commit(token: Token, lease: LeaseId, envelope: Envelope, limit: int, snapshot: Snapshot, next: Option<Token>,
                  nextEnvelope: Option<Envelope>, now: Time) returns (ok: bool)
      requires Valid()
      modifies this
      ensures Valid()
      ensures (View(), Answer(ok)) ==
              After(limits, old(View()), Call.Commit(token, lease, envelope, limit, snapshot, next, nextEnvelope), now)
    {
      ContinuationRuns.CallKeepsInv(limits, View(), Call.Commit(token, lease, envelope, limit, snapshot, next, nextEnvelope), now);
      ContinuationRuns.CommitLeavesBoth(limits, View(), Call.Commit(token, lease, envelope, limit, snapshot, next, nextEnvelope), now);
      if next.None? != nextEnvelope.None? || !snapshot.Replayable() {
        return false;
      }
      PurgeExpired(now);
      if !Commits(Lookup(records, token), lease, envelope, limit) || (next.Some? && Has(records, next.value)) {
        return false;
      }
      var until := now + limits.ttl;
      records := Put(records, token, CompletedRecord(envelope, until, limit, snapshot));
      var spared := {token};
      if next.Some? {
        records := Put(records, next.value, ReadyRecord(nextEnvelope.value, until));
        spared := {token, next.value};
      }
      Evict(spared);
      ok := Has(records, token) && (next.None? || Has(records, next.value));
    }

    method Abort(token: Token, lease: LeaseId, envelope: Envelope, now: Time) returns (ok: bool)
      requires Valid()
      modifies this
      ensures Valid()
      ensures (View(), Answer(ok)) == After(limits, old(View()), Call.Abort(token, lease, envelope), now)
    {
      ContinuationRuns.CallKeepsInv(limits, View(), Call.Abort(token, lease, envelope), now);
      var found := Lookup(records, token);
      if found.None? || !found.value.HeldBy(lease) || found.value.envelope != envelope {
        PurgeExpired(now);
        return false;
      }
      if found.value.expiresAt <= now {
        records := Without(records, token);
        return false;
      }
      records := Put(records, token, ReadyRecord(envelope, found.value.expiresAt));
      ok := true;
    }

    method Contains(token: Token, now: Time) returns (ok: bool)
      requires Valid()
      modifies this
      ensures Valid()
      ensures (View(), Answer(ok)) == After(limits, old(View()), Call.Contains(token), now)
    {
      ContinuationRuns.CallKeepsInv(limits, View(), Call.Contains(token), now);
      PurgeExpired(now);
      ok := Has(records, token);
    }

    method Renew(token: Token, lease: LeaseId, now: Time) returns (ok: bool)
      requires Valid()
      modifies this
      ensures Valid()
      ensures (View(), Answer(ok)) == After(limits, old(View()), Call.Renew(token, lease), now)
    {
      ContinuationRuns.CallKeepsInv(limits, View(), Call.Renew(token, lease), now);
      var found := Lookup(records, token);
      if found.None? || !found.value.HeldBy(lease) {
        PurgeExpired(now);
        return false;
      }
      records := Put(records, token, found.value.(leaseExpires := Some(now + limits.ttl)));
      ok := true;
    }

    method ExportReady(token: Token, now: Time) returns (exported: Option<Envelope>)
      requires Valid()
      modifies this
      ensures Valid()
      ensures (View(), Exported(exported)) == After(limits, old(View()), Call.ExportReady(token), now)
    {
      ContinuationRuns.CallKeepsInv(limits, View(), Call.ExportReady(token), now);
      PurgeExpired(now);
      var found := Lookup(records, token);
      if found.None? || found.value.status != Ready {
        return None;
      }
      records := Put(records, token, found.value);
      exported := Some(found.value.envelope);
    }

    method Clear(now: Time)
      requires Valid()
      modifies this
      ensures Valid()
      ensures (View(), Done) == After(limits, old(View()), Call.Clear, now)
    {
      ContinuationRuns.CallKeepsInv(limits, View(), Call.Clear, now);
      records := Empty;
    }

    /** `_purge_expired_locked`. */
    method PurgeExpired(now: Time)
      requires Distinct(records)
      modifies this`records
      ensures records == Purged(old(records), now)
    {
      ghost var was := records;
      var expired := Dropped(records, Lives(now));
      ghost var all, done := expired, {};
      WithoutNone(was);
      while expired != {}
        invariant expired + done == all
        invariant records == WithoutAll(was, done)
      {
        var token :| token in expired;
        WithoutOneMore(was, done, token);
        records := Without(records, token);
        expired, done := expired - {token}, done + {token};
      }
      assert done == all;
      WithoutDropped(was, Lives(now));
    }

    /** `_evict_locked`. */
    method Evict(spared: set<Token>)
      modifies this`records
      ensures records == Evicted(old(records), spared, limits.maxItems)
    {
      while Size(records) > limits.maxItems
        invariant Evicted(records, spared, limits.maxItems) == Evicted(old(records), spared, limits.maxItems)
        decreases Size(records)
      {
        var evicted := FirstEvictable(records, spared);
        if evicted.None? {
          return;
        }
        WithoutIsSmaller(records, evicted.value);
        records := Without(records, evicted.value);
      }
    }
  }
}

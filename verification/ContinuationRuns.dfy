/** Properties of the search continuation registry over every run: one live claim per token, leases that
    fence, and completed continuations that only replay. */
module ContinuationRuns {
  import opened Collections
  import opened OrderedDict
  import opened Continuations

  // ---------------------------------------------------------------- what one call does to one token

  predicate IsHolders(c: Call, token: Token, record: Record) {
    (c.Commit? || c.Abort? || c.Renew?) && c.token == token && record.HeldBy(c.lease)
  }

  ghost predicate Leaves(from: Option<Record>, to: Option<Record>, token: Token, c: Call, reply: Reply, now: Time) {
    && from.Some? && to.None?
    && (|| c.Clear?
        || (from.value.Deadline() <= now && !(c.Renew? && IsHolders(c, token, from.value)))
        || (from.value.status != Inflight && (c.Remember? || c.Commit?) && reply == Answer(true))
        || (c.Abort? && IsHolders(c, token, from.value) && from.value.expiresAt <= now))
  }

  predicate Introduces(c: Call, token: Token) {
    (c.Remember? && c.token == token) || (c.Commit? && c.next == Some(token))
  }

  ghost predicate Appears(limits: Limits, from: Option<Record>, to: Option<Record>, token: Token, c: Call, reply: Reply,
                          now: Time)
  {
    && Introduces(c, token) && reply == Answer(true)
    && (from.Some? ==> from.value.Deadline() <= now)
    && (c.Commit? ==> c.nextEnvelope.Some?)
    && to == Some(ReadyRecord(if c.Remember? then c.envelope else c.nextEnvelope.value, now + limits.ttl))
  }

  ghost predicate IsClaimed(limits: Limits, from: Option<Record>, to: Option<Record>, token: Token, c: Call, reply: Reply,
                            nextLease: nat, now: Time)
  {
    && c.Begin? && c.token == token
    && from.Some? && from.value.status == Ready && from.value.Deadline() > now
    && from.value.envelope.Matches(c.binding, c.wanted)
    && reply == Claimed(from.value.envelope, nextLease)
    && to == Some(Claim(from.value, c.wanted, nextLease, now + limits.ttl))
  }

  ghost predicate IsCompleted(limits: Limits, from: Option<Record>, to: Option<Record>, token: Token, c: Call,
                              reply: Reply, now: Time)
  {
    && c.Commit? && c.snapshot.Replayable() && reply == Answer(true)
    && from.Some? && IsHolders(c, token, from.value) && from.value.Deadline() > now
    && from.value.envelope == c.envelope && from.value.target == Some(c.limit)
    && to == Some(CompletedRecord(c.envelope, now + limits.ttl, c.limit, c.snapshot))
  }

  ghost predicate IsReturned(from: Option<Record>, to: Option<Record>, token: Token, c: Call, reply: Reply, now: Time) {
    && c.Abort? && reply == Answer(true)
    && from.Some? && IsHolders(c, token, from.value) && from.value.expiresAt > now
    && to == Some(ReadyRecord(from.value.envelope, from.value.expiresAt))
  }

  ghost predicate IsRenewed(limits: Limits, from: Option<Record>, to: Option<Record>, token: Token, c: Call, reply: Reply,
                            now: Time)
  {
    && c.Renew? && reply == Answer(true)
    && from.Some? && IsHolders(c, token, from.value)
    && to == Some(from.value.(leaseExpires := Some(now + limits.ttl)))
  }

  /** Everything a call can do to the record of one token. */
  ghost predicate Moves(limits: Limits, from: Option<Record>, to: Option<Record>, token: Token, c: Call, reply: Reply,
                        nextLease: nat, now: Time)
  {
    || to == from
    || Leaves(from, to, token, c, reply, now)
    || Appears(limits, from, to, token, c, reply, now)
    || IsClaimed(limits, from, to, token, c, reply, nextLease, now)
    || IsCompleted(limits, from, to, token, c, reply, now)
    || IsReturned(from, to, token, c, reply, now)
    || IsRenewed(limits, from, to, token, c, reply, now)
  }

  lemma DecisionMoves(limits: Limits, s: Registry, c: Call, now: Time, token: Token)
    requires Distinct(s.records) && (c.Inspect? || c.Begin?)
    ensures var (t, reply) := After(limits, s, c, now);
            Distinct(t.records) && Moves(limits, s.At(token), t.At(token), token, c, reply, s.nextLease, now)
  {
    LookupKeep(s.records, Lives(now), token);
    LookupKeep(s.records, Lives(now), c.token);
    var purged := Purged(s.records, now);
    if Has(purged, c.token) {
      var record := Lookup(purged, c.token).value;
      PutIsPut(purged, c.token, record, token);
      PutIsPut(purged, c.token, Claim(record, c.wanted, s.nextLease, now + limits.ttl), token);
    }
  }

  lemma RememberMoves(limits: Limits, s: Registry, c: Call, now: Time, token: Token)
    requires Distinct(s.records) && c.Remember?
    ensures var (t, reply) := After(limits, s, c, now);
            Distinct(t.records) && Moves(limits, s.At(token), t.At(token), token, c, reply, s.nextLease, now)
  {
    LookupKeep(s.records, Lives(now), token);
    LookupKeep(s.records, Lives(now), c.token);
    var purged := Purged(s.records, now);
    var added := ReadyRecord(c.envelope, now + limits.ttl);
    PutIsPut(purged, c.token, added, token);
    LookupEvicted(Put(purged, c.token, added), {c.token}, limits.maxItems, token);
  }

  lemma CommitMoves(limits: Limits, s: Registry, c: Call, now: Time, token: Token)
    requires Distinct(s.records) && c.Commit?
    ensures var (t, reply) := After(limits, s, c, now);
            Distinct(t.records) && Moves(limits, s.At(token), t.At(token), token, c, reply, s.nextLease, now)
  {
    LookupKeep(s.records, Lives(now), token);
    LookupKeep(s.records, Lives(now), c.token);
    if c.next.Some? {
      LookupKeep(s.records, Lives(now), c.next.value);
    }
    var purged := Purged(s.records, now);
    var until := now + limits.ttl;
    var completed := CompletedRecord(c.envelope, until, c.limit, c.snapshot);
    PutIsPut(purged, c.token, completed, token);
    var settled := Put(purged, c.token, completed);
    LookupEvicted(settled, {c.token}, limits.maxItems, token);
    if c.next.Some? && c.nextEnvelope.Some? {
      PutIsPut(settled, c.next.value, ReadyRecord(c.nextEnvelope.value, until), token);
      var grown := Put(settled, c.next.value, ReadyRecord(c.nextEnvelope.value, until));
      LookupEvicted(grown, {c.token, c.next.value}, limits.maxItems, token);
    }
  }

  lemma AbortMoves(limits: Limits, s: Registry, c: Call, now: Time, token: Token)
    requires Distinct(s.records) && c.Abort?
    ensures var (t, reply) := After(limits, s, c, now);
            Distinct(t.records) && Moves(limits, s.At(token), t.At(token), token, c, reply, s.nextLease, now)
  {
    LookupKeep(s.records, Lives(now), token);
    LookupKeep(s.records, Other(c.token), token);
    if s.At(c.token).Some? {
      PutIsPut(s.records, c.token, ReadyRecord(c.envelope, s.At(c.token).value.expiresAt), token);
    }
  }

  lemma RenewMoves(limits: Limits, s: Registry, c: Call, now: Time, token: Token)
    requires Distinct(s.records) && c.Renew?
    ensures var (t, reply) := After(limits, s, c, now);
            Distinct(t.records) && Moves(limits, s.At(token), t.At(token), token, c, reply, s.nextLease, now)
  {
    LookupKeep(s.records, Lives(now), token);
    if s.At(c.token).Some? {
      PutIsPut(s.records, c.token, s.At(c.token).value.(leaseExpires := Some(now + limits.ttl)), token);
    }
  }

  lemma ReadMoves(limits: Limits, s: Registry, c: Call, now: Time, token: Token)
    requires Distinct(s.records) && (c.Contains? || c.ExportReady?)
    ensures var (t, reply) := After(limits, s, c, now);
            Distinct(t.records) && Moves(limits, s.At(token), t.At(token), token, c, reply, s.nextLease, now)
  {
    LookupKeep(s.records, Lives(now), token);
    var purged := Purged(s.records, now);
    if Has(purged, c.token) {
      PutIsPut(purged, c.token, Lookup(purged, c.token).value, token);
    }
  }

  /** Every call, for every token. */
  lemma EveryCallMoves(limits: Limits, s: Registry, c: Call, now: Time, token: Token)
    requires Distinct(s.records)
    ensures var (t, reply) := After(limits, s, c, now);
            Distinct(t.records) && Moves(limits, s.At(token), t.At(token), token, c, reply, s.nextLease, now)
  {
    match c
    case Inspect(_, _, _) => DecisionMoves(limits, s, c, now, token);
    case Begin(_, _, _) => DecisionMoves(limits, s, c, now, token);
    case Remember(_, _) => RememberMoves(limits, s, c, now, token);
    case Commit(_, _, _, _, _, _, _) => CommitMoves(limits, s, c, now, token);
    case Abort(_, _, _) => AbortMoves(limits, s, c, now, token);
    case Renew(_, _) => RenewMoves(limits, s, c, now, token);
    case Contains(_) => ReadMoves(limits, s, c, now, token);
    case ExportReady(_) => ReadMoves(limits, s, c, now, token);
    case Clear => assert Lookup<Token, Record>(Empty, token) == None;
  }

  // ---------------------------------------------------------------- runs

  datatype Event = Event(call: Call, now: Time)

  function StateAt(limits: Limits, s: Registry, run: seq<Event>, n: nat): Registry
    requires n <= |run|
  {
    if n == 0 then s else After(limits, StateAt(limits, s, run, n - 1), run[n - 1].call, run[n - 1].now).0
  }

  function ReplyAt(limits: Limits, s: Registry, run: seq<Event>, n: nat): Reply
    requires n < |run|
  {
    After(limits, StateAt(limits, s, run, n), run[n].call, run[n].now).1
  }

  ghost predicate Inv(s: Registry) {
    Distinct(s.records) && forall token, record | s.At(token) == Some(record) :: record.WellFormed(s.nextLease)
  }

  lemma MovedIsWellFormed(limits: Limits, from: Option<Record>, to: Option<Record>, token: Token, c: Call, reply: Reply,
                          nextLease: nat, later: nat, now: Time)
    requires Moves(limits, from, to, token, c, reply, nextLease, now)
    requires from.Some? ==> from.value.WellFormed(nextLease)
    requires later == nextLease + if reply.Claimed? then 1 else 0
    ensures to.Some? ==> to.value.WellFormed(later)
  {
  }

  lemma LeasesGrow(limits: Limits, s: Registry, c: Call, now: Time)
    ensures var (t, reply) := After(limits, s, c, now);
            t.nextLease == s.nextLease + if reply.Claimed? then 1 else 0
  {
  }

  lemma CallKeepsInv(limits: Limits, s: Registry, c: Call, now: Time)
    requires Inv(s)
    ensures Inv(After(limits, s, c, now).0) && s.nextLease <= After(limits, s, c, now).0.nextLease
  {
    var (t, reply) := After(limits, s, c, now);
    EveryCallMoves(limits, s, c, now, 0);
    LeasesGrow(limits, s, c, now);
    forall token, record | t.At(token) == Some(record) ensures record.WellFormed(t.nextLease) {
      EveryCallMoves(limits, s, c, now, token);
      MovedIsWellFormed(limits, s.At(token), t.At(token), token, c, reply, s.nextLease, t.nextLease, now);
    }
  }

  /** Every state of every run: one record per token, with exactly the fields its status calls for. */
  lemma {:induction false} RunKeepsInv(limits: Limits, s: Registry, run: seq<Event>, n: nat)
    requires Inv(s) && n <= |run|
    ensures Inv(StateAt(limits, s, run, n)) && s.nextLease <= StateAt(limits, s, run, n).nextLease
  {
    if n > 0 {
      RunKeepsInv(limits, s, run, n - 1);
      CallKeepsInv(limits, StateAt(limits, s, run, n - 1), run[n - 1].call, run[n - 1].now);
    }
  }

  // ---------------------------------------------------------------- a live claim

  predicate Held(s: Registry, token: Token, lease: LeaseId) {
    s.At(token).Some? && s.At(token).value.HeldBy(lease)
  }

  /** The only events that can end a claim: its holder settles it, everything is cleared, or a call other
      than the holder's renewal comes at or after the deadline. */
  predicate CanEnd(s: Registry, e: Event, token: Token, lease: LeaseId) {
    || e.call.Clear?
    || ((e.call.Commit? || e.call.Abort?) && e.call.token == token && e.call.lease == lease)
    || (&& s.At(token).Some? && s.At(token).value.Deadline() <= e.now
        && !IsRenewal(e.call, token, lease))
  }

  predicate Asks(c: Call, token: Token) {
    (c.Inspect? || c.Begin?) && c.token == token
  }

  /** The token is claimed under this lease, for this continuation and result limit. */
  predicate HeldFor(s: Registry, token: Token, lease: LeaseId, envelope: Envelope, target: Option<int>) {
    && Held(s, token, lease)
    && s.At(token).value.envelope == envelope
    && s.At(token).value.target == target
  }

  predicate IsRenewal(c: Call, token: Token, lease: LeaseId) {
    c.Renew? && c.token == token && c.lease == lease
  }

  /** While a claim is live its record stays; calls other than its renewal leave it exactly as it is. */
  lemma ClaimSurvives(limits: Limits, s: Registry, e: Event, token: Token, lease: LeaseId, envelope: Envelope,
                      target: Option<int>)
    requires Distinct(s.records) && HeldFor(s, token, lease, envelope, target) && !CanEnd(s, e, token, lease)
    ensures var t := After(limits, s, e.call, e.now).0;
            && Distinct(t.records) && HeldFor(t, token, lease, envelope, target)
            && (!IsRenewal(e.call, token, lease) ==> t.At(token) == s.At(token))
  {
    EveryCallMoves(limits, s, e.call, e.now, token);
  }

  /** What whoever asks for a claimed token is told: "busy" if the request matches, else "invalid". */
  function BusyReply(c: Call, envelope: Envelope, target: Option<int>): Reply
    requires c.Inspect? || c.Begin?
  {
    if envelope.Matches(c.binding, c.wanted) && target == c.wanted then Busy(envelope) else Invalid
  }

  lemma ClaimedIsBusy(limits: Limits, s: Registry, e: Event, token: Token, lease: LeaseId, envelope: Envelope,
                      target: Option<int>)
    requires Distinct(s.records) && HeldFor(s, token, lease, envelope, target) && !CanEnd(s, e, token, lease)
    requires Asks(e.call, token)
    ensures After(limits, s, e.call, e.now).1 == BusyReply(e.call, envelope, target)
  {
    LookupKeep(s.records, Lives(e.now), token);
  }

  lemma {:induction false} HeldUntil(limits: Limits, s: Registry, run: seq<Event>, token: Token, lease: LeaseId,
                                     envelope: Envelope, target: Option<int>, m: nat, n: nat)
    requires m <= n <= |run| && Distinct(StateAt(limits, s, run, m).records)
    requires HeldFor(StateAt(limits, s, run, m), token, lease, envelope, target)
    requires forall j | m <= j < n :: !CanEnd(StateAt(limits, s, run, j), run[j], token, lease)
    ensures Distinct(StateAt(limits, s, run, n).records)
    ensures HeldFor(StateAt(limits, s, run, n), token, lease, envelope, target)
    decreases n
  {
    if m < n {
      HeldUntil(limits, s, run, token, lease, envelope, target, m, n - 1);
      ClaimSurvives(limits, StateAt(limits, s, run, n - 1), run[n - 1], token, lease, envelope, target);
    }
  }

  lemma GrantRecords(limits: Limits, s: Registry, c: Call, now: Time, token: Token)
    requires Distinct(s.records) && Asks(c, token) && After(limits, s, c, now).1.Claimed?
    ensures var (t, reply) := After(limits, s, c, now);
            Distinct(t.records) && reply.lease == s.nextLease && HeldFor(t, token, reply.lease, reply.envelope, c.wanted)
  {
    LookupKeep(s.records, Lives(now), token);
    var record := s.At(token).value;
    PutIsPut(Purged(s.records, now), token, Claim(record, c.wanted, s.nextLease, now + limits.ttl), token);
  }

  /** At most one live claim: from the grant of a token until an event ends it, whoever asks for the
      token is told that it is busy, or that the request does not match. */
  lemma OneClaimAtATime(limits: Limits, s: Registry, run: seq<Event>, token: Token, i: nat, j: nat)
    requires Inv(s) && i < j < |run|
    requires Asks(run[i].call, token) && ReplyAt(limits, s, run, i).Claimed?
    requires Asks(run[j].call, token)
    requires forall k | i < k <= j ::
               !CanEnd(StateAt(limits, s, run, k), run[k], token, ReplyAt(limits, s, run, i).lease)
    ensures ReplyAt(limits, s, run, j) ==
            BusyReply(run[j].call, ReplyAt(limits, s, run, i).envelope, run[i].call.wanted)
  {
    RunKeepsInv(limits, s, run, i);
    var Claimed(envelope, lease) := ReplyAt(limits, s, run, i);
    GrantRecords(limits, StateAt(limits, s, run, i), run[i].call, run[i].now, token);
    HeldUntil(limits, s, run, token, lease, envelope, run[i].call.wanted, i + 1, j);
    ClaimedIsBusy(limits, StateAt(limits, s, run, j), run[j], token, lease, envelope, run[i].call.wanted);
  }

  // ---------------------------------------------------------------- a stale lease

  /** A lease that does not hold a token will never hold it again, and its calls are refused and change
      no record of that token before its deadline. */
  lemma {:induction false} StaleForever(limits: Limits, s: Registry, run: seq<Event>, token: Token, lease: LeaseId, n: nat)
    requires Inv(s) && lease < s.nextLease && !Held(s, token, lease) && n <= |run|
    ensures !Held(StateAt(limits, s, run, n), token, lease)
    ensures n < |run| && (run[n].call.Commit? || run[n].call.Abort? || run[n].call.Renew?)
            && run[n].call.token == token && run[n].call.lease == lease
            ==> ReplyAt(limits, s, run, n) == Answer(false)
                && var before, after := StateAt(limits, s, run, n).At(token), StateAt(limits, s, run, n + 1).At(token);
                   after == before || (before.Some? && before.value.Deadline() <= run[n].now && after.None?)
  {
    if n > 0 {
      StaleForever(limits, s, run, token, lease, n - 1);
      RunKeepsInv(limits, s, run, n - 1);
      StaleStays(limits, StateAt(limits, s, run, n - 1), run[n - 1], token, lease);
    }
    RunKeepsInv(limits, s, run, n);
    if n < |run| {
      EveryCallMoves(limits, StateAt(limits, s, run, n), run[n].call, run[n].now, token);
      LookupKeep(StateAt(limits, s, run, n).records, Lives(run[n].now), token);
    }
  }

  lemma StaleStays(limits: Limits, s: Registry, e: Event, token: Token, lease: LeaseId)
    requires Distinct(s.records) && lease < s.nextLease && !Held(s, token, lease)
    ensures !Held(After(limits, s, e.call, e.now).0, token, lease)
  {
    EveryCallMoves(limits, s, e.call, e.now, token);
  }

  // ---------------------------------------------------------------- a completed continuation

  /** A completed continuation never changes: in every later state its record is the same or gone, until
      the token is introduced anew.  It is never claimed again; a request gets the same snapshot or none. */
  lemma {:induction false} CompletedOnlyReplays(limits: Limits, s: Registry, run: seq<Event>, token: Token, record: Record, n: nat)
    requires Inv(s) && s.At(token) == Some(record) && record.status == Completed && n <= |run|
    requires forall j | 0 <= j < |run| :: !Introduces(run[j].call, token)
    ensures StateAt(limits, s, run, n).At(token) in {None, Some(record)}
    ensures n < |run| && Asks(run[n].call, token) ==>
              ReplyAt(limits, s, run, n) in {Invalid, Replay(record.envelope, record.snapshot.value)}
  {
    RunKeepsInv(limits, s, run, n);
    if n > 0 {
      RunKeepsInv(limits, s, run, n - 1);
      CompletedOnlyReplays(limits, s, run, token, record, n - 1);
      EveryCallMoves(limits, StateAt(limits, s, run, n - 1), run[n - 1].call, run[n - 1].now, token);
    }
    if n < |run| && Asks(run[n].call, token) {
      SpentAnswers(limits, StateAt(limits, s, run, n), run[n].call, run[n].now, token, record);
    }
  }

  lemma SpentAnswers(limits: Limits, s: Registry, c: Call, now: Time, token: Token, record: Record)
    requires Inv(s) && Asks(c, token) && record.status == Completed && record.snapshot.Some?
    requires s.At(token) in {None, Some(record)}
    ensures After(limits, s, c, now).1 ==
            if s.At(token).Some? && record.expiresAt > now && record.envelope.Matches(c.binding, c.wanted) && record.target == c.wanted
            then Replay(record.envelope, record.snapshot.value) else Invalid
  {
    LookupKeep(s.records, Lives(now), token);
  }

  // ---------------------------------------------------------------- what a successful call leaves

  /** A commit that succeeds leaves the completed record and the next one there, whatever is evicted. */
  lemma CommitLeavesBoth(limits: Limits, s: Registry, c: Call, now: Time)
    requires Distinct(s.records) && c.Commit?
    ensures var (t, reply) := After(limits, s, c, now);
            reply == Answer(true) ==>
              && t.At(c.token) == Some(CompletedRecord(c.envelope, now + limits.ttl, c.limit, c.snapshot))
              && (c.next.Some? ==>
                    && c.nextEnvelope.Some?
                    && t.At(c.next.value) == Some(ReadyRecord(c.nextEnvelope.value, now + limits.ttl)))
  {
    var purged := Purged(s.records, now);
    KeepKeepsDistinct(s.records, Lives(now));
    var until := now + limits.ttl;
    var completed := CompletedRecord(c.envelope, until, c.limit, c.snapshot);
    PutIsPut(purged, c.token, completed, c.token);
    var settled := Put(purged, c.token, completed);
    LookupEvicted(settled, {c.token}, limits.maxItems, c.token);
    if c.next.Some? && c.nextEnvelope.Some? {
      var next := ReadyRecord(c.nextEnvelope.value, until);
      PutIsPut(settled, c.next.value, next, c.token);
      PutIsPut(settled, c.next.value, next, c.next.value);
      LookupEvicted(Put(settled, c.next.value, next), {c.token, c.next.value}, limits.maxItems, c.token);
      LookupEvicted(Put(settled, c.next.value, next), {c.token, c.next.value}, limits.maxItems, c.next.value);
    }
  }

  /** `remember` succeeds exactly if the token has no live record, and then the record is there. */
  lemma RememberIsExact(limits: Limits, s: Registry, c: Call, now: Time)
    requires Distinct(s.records) && c.Remember?
    ensures var (t, reply) := After(limits, s, c, now);
            && (reply == Answer(true) <==> s.At(c.token).None? || s.At(c.token).value.Deadline() <= now)
            && (reply == Answer(true) ==> t.At(c.token) == Some(ReadyRecord(c.envelope, now + limits.ttl)))
  {
    LookupKeep(s.records, Lives(now), c.token);
    var purged := Purged(s.records, now);
    PutIsPut(purged, c.token, ReadyRecord(c.envelope, now + limits.ttl), c.token);
    LookupEvicted(Put(purged, c.token, ReadyRecord(c.envelope, now + limits.ttl)), {c.token}, limits.maxItems, c.token);
  }
}

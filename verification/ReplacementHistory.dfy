/** Where the state of a replacement row comes from: in every run, a target was asked for, a created target
    was marked by the holder of the lease, and a completed row was cleaned up by the holder
    (jav_pilot/downloads/replacements.py). */
module ReplacementHistory {
  import opened Collections
  import opened ReplacementRow
  import opened ReplacementStore
  import opened ReplacementRuns

  predicate IsMade(status: Status) {
    status.ReplacementCreated? || status.CleanupFailed? || status.Completed?
  }

  /** The call asks for exactly this key and target. */
  predicate IsRequest(call: Call, id: Id, s: Submission) {
    && call.BeginSubmission? && call.id == id
    && s.key == Some(call.key) && s.targetKind == Some(call.targetKind) && s.targetId == Some(call.targetId)
  }

  predicate IsMark(call: Call, id: Id, row: Row) {
    call.MarkTargetCreated? && call.id == id && row.submission.lease.token == Some(call.token)
  }

  predicate IsCleanup(call: Call, id: Id, row: Row) {
    && call.FinishCleanup? && call.id == id && call.removed
    && call.held.Some? && row.submission.lease.token == call.held
  }

  /** What one call may do to the progress of a row. */
  predicate Progresses(before: Row, after: Row, call: Call, id: Id) {
    && (after.submission.key.Some? ==> SameTarget(before.submission, after.submission) || IsRequest(call, id, after.submission))
    && (IsMade(after.status) ==> IsMade(before.status) || IsMark(call, id, before))
    && (after.status.Completed? ==> before.status.Completed? || IsCleanup(call, id, before))
  }

  /** What expiry and restarts may do: nothing but give up leases and step back. */
  predicate IsQuiet(before: Row, after: Row) {
    && SameTarget(before.submission, after.submission)
    && (IsMade(after.status) ==> IsMade(before.status))
    && (after.status.Completed? ==> before.status.Completed?)
    && after.submission.lease.token in {before.submission.lease.token, None}
  }

  lemma ExpiryIsQuiet(row: Row, now: Time)
    ensures IsQuiet(row, Expire(row, now)) && IsQuiet(row, Superseded(Expire(row, now), now))
  {
  }

  lemma RestartIsQuiet(row: Row, now: Time)
    ensures IsQuiet(row, DiscoveryInterrupted(row, now))
    ensures IsQuiet(row, DispositionInterrupted(row, now))
    ensures IsQuiet(row, SelectionInterrupted(row, now))
  {
  }

  lemma QuietThenProgress(before: Row, base: Row, after: Row, call: Call, id: Id)
    requires IsQuiet(before, base) && Progresses(base, after, call, id)
    ensures Progresses(before, after, call, id)
  {
  }

  lemma SubmissionProgresses(row: Row, call: Call, now: Time, token: Token)
    requires call.BeginSubmission? && Objection(call).None?
    ensures var answer := AnswerOf(row, call, now, token);
            answer.Updated? ==> Progresses(row, answer.row, call, call.id)
  {
  }

  lemma HolderProgresses(row: Row, call: Call, now: Time, token: Token)
    requires call.MarkTargetCreated? || call.ReleaseSubmission? || call.FinishCleanup? || call.FinishDisposition?
             || call.BeginDisposition?
    ensures var answer := AnswerOf(row, call, now, token);
            answer.Updated? ==> Progresses(row, answer.row, call, call.id)
  {
  }

  lemma SearchProgresses(row: Row, call: Call, now: Time, token: Token)
    requires Objection(call).None?
    requires call.Get? || call.QueueDiscovery? || call.ClaimDiscovery? || call.FinishMagnet? || call.FinishWeb?
             || call.BeginSelection? || call.FinishSelection?
    ensures var answer := AnswerOf(row, call, now, token);
            answer.Updated? ==> Progresses(row, answer.row, call, call.id)
  {
  }

  lemma AnswerProgresses(row: Row, call: Call, now: Time, token: Token)
    requires IsRowCall(call) && Objection(call).None?
    ensures var answer := AnswerOf(row, call, now, token);
            answer.Updated? ==> Progresses(row, answer.row, call, call.id)
  {
    match call
    case BeginSubmission(_, _, _, _, _, _) => SubmissionProgresses(row, call, now, token);
    case MarkTargetCreated(_, _) => HolderProgresses(row, call, now, token);
    case ReleaseSubmission(_, _) => HolderProgresses(row, call, now, token);
    case FinishCleanup(_, _, _, _) => HolderProgresses(row, call, now, token);
    case FinishDisposition(_, _, _, _) => HolderProgresses(row, call, now, token);
    case BeginDisposition(_, _) => HolderProgresses(row, call, now, token);
    case _ => SearchProgresses(row, call, now, token);
  }

  /** Whatever the answer is, the table it leaves has for any row what was there, what expiry made of it,
      or the answer. */
  lemma AnsweredProgresses(s: Store, rows: map<Id, Row>, call: Call, answer: Answer, now: Time, id: Id)
    requires IsRowCall(call) && call.id in rows && id in s.rows && id in rows && IsQuiet(s.rows[id], rows[id])
    requires call.id == id && answer.Updated? ==> Progresses(rows[id], answer.row, call, id)
    requires id in Answered(s, rows, call.id, answer, now).0.rows
    ensures Progresses(s.rows[id], Answered(s, rows, call.id, answer, now).0.rows[id], call, id)
  {
    if answer.Updated? && call.id == id {
      QuietThenProgress(s.rows[id], rows[id], answer.row, call, id);
    }
  }

  lemma BaseIsQuiet(s: Store, call: Call, now: Time, id: Id)
    requires id in s.rows
    ensures var rows := if Expires(call) then ExpireAll(s.rows, now) else s.rows;
            id in rows && IsQuiet(s.rows[id], rows[id])
  {
    ExpiryIsQuiet(s.rows[id], now);
  }

  lemma RowCallProgresses(s: Store, call: Call, now: Time, id: Id)
    requires IsRowCall(call) && id in s.rows && id in AfterRowCall(s, call, now).0.rows
    ensures Progresses(s.rows[id], AfterRowCall(s, call, now).0.rows[id], call, id)
  {
    BaseIsQuiet(s, call, now, id);
    if Objection(call).None? {
      var rows := if Expires(call) then ExpireAll(s.rows, now) else s.rows;
      if call.id in rows {
        AnswerProgresses(rows[call.id], call, now, s.issued);
        AnsweredProgresses(s, rows, call, AnswerOf(rows[call.id], call, now, s.issued), now, id);
      }
    }
  }

  lemma CreateProgresses(s: Store, call: Call, now: Time, id: Id)
    requires call.CreateOrReuse? && id in s.rows && id in After(s, call, now).0.rows
    ensures Progresses(s.rows[id], After(s, call, now).0.rows[id], call, id)
  {
    ExpiryIsQuiet(s.rows[id], now);
    if call.code.Some? && IsTtl(call.ttl) {
      var rows := ExpireAll(s.rows, now);
      assert After(s, call, now).0.rows[id] in {s.rows[id], rows[id], Superseded(rows[id], now)};
    }
  }

  lemma RestartProgresses(s: Store, call: Call, now: Time, id: Id)
    requires !call.CreateOrReuse? && !IsRowCall(call) && id in s.rows && id in After(s, call, now).0.rows
    ensures Progresses(s.rows[id], After(s, call, now).0.rows[id], call, id)
  {
    ExpiryIsQuiet(s.rows[id], now);
    RestartIsQuiet(s.rows[id], now);
  }

  lemma CallProgresses(s: Store, call: Call, now: Time, id: Id)
    requires id in s.rows && id in After(s, call, now).0.rows
    ensures Progresses(s.rows[id], After(s, call, now).0.rows[id], call, id)
  {
    if call.CreateOrReuse? {
      CreateProgresses(s, call, now, id);
    } else if IsRowCall(call) {
      RowCallProgresses(s, call, now, id);
    } else {
      RestartProgresses(s, call, now, id);
    }
  }

  // ---------------------------------------------------------------- over a run

  ghost predicate WasRequested(run: Run, i: nat, id: Id, s: Submission)
    requires i <= |run.calls|
  {
    exists k | 0 <= k < i :: IsRequest(run.calls[k], id, s)
  }

  ghost predicate WasMarked(run: Run, i: nat, id: Id)
    requires run.Valid() && i <= |run.calls|
  {
    exists k | 0 <= k < i :: id in run.stores[k].rows && IsMark(run.calls[k], id, run.stores[k].rows[id])
  }

  ghost predicate WasCleaned(run: Run, i: nat, id: Id)
    requires run.Valid() && i <= |run.calls|
  {
    exists k | 0 <= k < i :: id in run.stores[k].rows && IsCleanup(run.calls[k], id, run.stores[k].rows[id])
  }

  ghost predicate HasHistory(run: Run, i: nat, id: Id)
    requires run.Valid() && i <= |run.calls| && id in run.stores[i].rows
  {
    var row := run.stores[i].rows[id];
    && (row.submission.key.Some? ==> WasRequested(run, i, id, row.submission))
    && (IsMade(row.status) ==> WasMarked(run, i, id))
    && (row.status.Completed? ==> WasCleaned(run, i, id))
  }

  /** In every state of every run: the target of a row is one that a submission of that row asked for; a
      row whose replacement counts as created was marked by the holder of its lease; and a completed row
      was reported clean by the holder of its lease. */
  lemma {:induction false} NothingComesFromNowhere(run: Run, i: nat, id: Id)
    requires run.Valid() && i <= |run.calls| && id in run.stores[i].rows
    ensures HasHistory(run, i, id)
  {
    if i > 0 {
      if id in run.stores[i - 1].rows {
        NothingComesFromNowhere(run, i - 1, id);
        HistoryStep(run, i - 1, id);
      } else {
        StepKeepsTokens(run, i - 1, id);
        RunKeepsInv(run, i);
        assert RowInv(id, run.stores[i].rows[id], run.stores[i].issued);
        assert IsCreation(run.calls[i - 1], run.stores[i].rows[id], id);
      }
    }
  }

  lemma HistoryStep(run: Run, i: nat, id: Id)
    requires run.Valid() && i < |run.calls| && id in run.stores[i].rows && id in run.stores[i + 1].rows
    requires HasHistory(run, i, id)
    ensures HasHistory(run, i + 1, id)
  {
    assert run.Steps(i);
    CallProgresses(run.stores[i], run.calls[i], run.times[i], id);
    HistoryGrows(run, i, id, run.stores[i].rows[id].submission, run.stores[i + 1].rows[id].submission);
  }

  lemma HistoryGrows(run: Run, i: nat, id: Id, before: Submission, after: Submission)
    requires run.Valid() && i < |run.calls|
    ensures SameTarget(before, after) && WasRequested(run, i, id, before) ==> WasRequested(run, i + 1, id, after)
    ensures IsRequest(run.calls[i], id, after) ==> WasRequested(run, i + 1, id, after)
    ensures WasMarked(run, i, id) ==> WasMarked(run, i + 1, id)
    ensures WasCleaned(run, i, id) ==> WasCleaned(run, i + 1, id)
  {
    if SameTarget(before, after) && WasRequested(run, i, id, before) {
      var k :| 0 <= k < i && IsRequest(run.calls[k], id, before);
      assert IsRequest(run.calls[k], id, after);
    }
  }
}

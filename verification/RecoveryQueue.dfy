/** The work queue of download resource recovery, as the interleaved steps of its callers and workers
    (jav_pilot/downloads/resource_recovery.py:74-150). */
module RecoveryQueue {
  import opened Collections

  type Id = nat

  /** The discovery status of a row, as far as the queue depends on it; a running row whose lease is over
      can be claimed again. */
  datatype Status = Queued | Running | Lapsed | Settled

  /** Whether `claim_discovery` lets the row go. */
  predicate IsClaimable(rows: map<Id, Status>, id: Id) {
    id in rows && (rows[id] == Queued || rows[id] == Lapsed)
  }

  /** Where a worker is: at the top of its loop, blocked on the queue, running an id (before or after it
      has asked the store for the row), or returned. */
  datatype Phase = Looping | Waiting | Holding(id: Id, asked: bool) | Gone

  /** `callers` are the requests that have passed the test of the stop signal in `enqueue` or `resume` and
      have not scheduled their row yet. */
  datatype State = State(
    queue: seq<Option<Id>>,
    scheduled: set<Id>,
    workers: seq<Phase>,
    stopping: bool,
    rows: map<Id, Status>,
    callers: multiset<Id>)

  datatype Step =
    | Admit(id: Id)
    | Schedule(id: Id)
    | Check(worker: nat)
    | Get(worker: nat)
    | Claim(worker: nat)
    | Discard(worker: nat)
    | Stop
    | Wake
    | Write(row: Id, status: Status)

  predicate Enabled(s: State, step: Step) {
    match step
    case Admit(_) => !s.stopping
    case Schedule(id) => id in s.callers
    case Check(w) => w < |s.workers| && s.workers[w] == Looping
    case Get(w) => w < |s.workers| && s.workers[w] == Waiting
    case Claim(w) => w < |s.workers| && s.workers[w].Holding? && !s.workers[w].asked
    case Discard(w) => w < |s.workers| && s.workers[w].Holding? && s.workers[w].asked
    case Wake => s.stopping
    case _ => true
  }

  function AfterGet(s: State, w: nat): State
    requires w < |s.workers|
  {
    if s.queue == [] then s.(workers := s.workers[w := Looping])
    else match s.queue[0]
      case None => s.(queue := s.queue[1..], workers := s.workers[w := Gone])
      case Some(id) => s.(queue := s.queue[1..], workers := s.workers[w := Holding(id, false)])
  }

  function After(s: State, step: Step): State
    requires Enabled(s, step)
  {
    match step
    case Admit(id) => s.(callers := s.callers + multiset{id})
    case Schedule(id) =>
      var called := s.(callers := s.callers - multiset{id});
      if id in s.scheduled then called
      else called.(scheduled := s.scheduled + {id}, queue := s.queue + [Some(id)])
    case Check(w) => s.(workers := s.workers[w := if s.stopping then Gone else Waiting])
    case Get(w) => AfterGet(s, w)
    case Claim(w) =>
      var id := s.workers[w].id;
      var asked := s.workers[w := Holding(id, true)];
      if IsClaimable(s.rows, id) then s.(workers := asked, rows := s.rows[id := Running])
      else s.(workers := asked)
    case Discard(w) => s.(workers := s.workers[w := Looping], scheduled := s.scheduled - {s.workers[w].id})
    case Stop => s.(stopping := true)
    case Wake => s.(queue := s.queue + [None])
    case Write(row, status) => s.(rows := s.rows[row := status])
  }

  // ---------------------------------------------------------------- the invariant

  predicate Holds(phase: Phase, id: Id) {
    phase.Holding? && phase.id == id
  }

  ghost predicate IsHeld(s: State, id: Id) {
    exists w | 0 <= w < |s.workers| :: Holds(s.workers[w], id)
  }

  ghost predicate InQueue(s: State, id: Id) {
    exists i | 0 <= i < |s.queue| :: s.queue[i] == Some(id)
  }

  ghost predicate QueuedOnce(s: State) {
    forall i, j | 0 <= i < j < |s.queue| :: s.queue[i].None? || s.queue[i] != s.queue[j]
  }

  ghost predicate HeldOnce(s: State) {
    forall v, w, id | 0 <= v < |s.workers| && 0 <= w < |s.workers| && v != w ::
      Holds(s.workers[v], id) ==> !Holds(s.workers[w], id)
  }

  /** Until the stop signal, the queue has ids only and no worker has returned. */
  ghost predicate AtWork(s: State) {
    && |s.workers| > 0
    && (!s.stopping ==> (forall i | 0 <= i < |s.queue| :: s.queue[i].Some?) && Gone !in s.workers)
  }

  /** The scheduled ids are exactly the queued ones and the ones being run, each of them once. */
  ghost predicate Inv(s: State) {
    && AtWork(s) && QueuedOnce(s) && HeldOnce(s)
    && (forall id :: !(InQueue(s, id) && IsHeld(s, id)))
    && (forall id :: id in s.scheduled <==> InQueue(s, id) || IsHeld(s, id))
  }

  lemma WorkerMoves(s: State, t: State, w: nat, phase: Phase, id: Id)
    requires HeldOnce(s) && w < |s.workers| && t.workers == s.workers[w := phase]
    ensures IsHeld(t, id) <==> Holds(phase, id) || (IsHeld(s, id) && !Holds(s.workers[w], id))
  {
    if v :| 0 <= v < |s.workers| && Holds(s.workers[v], id) {
      assert v != w ==> t.workers[v] == s.workers[v];
    }
    if v :| 0 <= v < |t.workers| && Holds(t.workers[v], id) {
      assert v != w ==> t.workers[v] == s.workers[v];
    }
    assert Holds(phase, id) ==> Holds(t.workers[w], id);
  }

  lemma MoveKeepsHeldOnce(s: State, t: State, w: nat, phase: Phase)
    requires HeldOnce(s) && w < |s.workers| && t.workers == s.workers[w := phase]
    requires phase.Holding? ==> !IsHeld(s, phase.id) || Holds(s.workers[w], phase.id)
    ensures HeldOnce(t)
  {
    forall v, u, id | 0 <= v < |t.workers| && 0 <= u < |t.workers| && v != u
      ensures Holds(t.workers[v], id) ==> !Holds(t.workers[u], id)
    {
      assert Holds(s.workers[v], id) ==> IsHeld(s, id);
      assert Holds(s.workers[u], id) ==> IsHeld(s, id);
    }
  }

  lemma Appended(s: State, t: State, item: Option<Id>, id: Id)
    requires t.queue == s.queue + [item]
    ensures InQueue(t, id) <==> InQueue(s, id) || item == Some(id)
  {
    if i :| 0 <= i < |s.queue| && s.queue[i] == Some(id) {
      assert t.queue[i] == Some(id);
    }
    assert t.queue[|s.queue|] == item;
  }

  lemma Taken(s: State, t: State, id: Id)
    requires QueuedOnce(s) && s.queue != [] && t.queue == s.queue[1..]
    ensures QueuedOnce(t)
    ensures InQueue(t, id) <==> InQueue(s, id) && s.queue[0] != Some(id)
  {
    if i :| 0 <= i < |s.queue| && s.queue[i] == Some(id) {
      assert i > 0 ==> t.queue[i - 1] == Some(id);
    }
    if i :| 0 <= i < |t.queue| && t.queue[i] == Some(id) {
      assert s.queue[i + 1] == Some(id);
    }
  }

  lemma ScheduleKeepsInv(s: State, id: Id)
    requires Inv(s) && Enabled(s, Schedule(id))
    ensures Inv(After(s, Schedule(id)))
  {
    var t := After(s, Schedule(id));
    assert forall other :: IsHeld(t, other) <==> IsHeld(s, other);
    if id in s.scheduled {
      forall other ensures InQueue(t, other) <==> InQueue(s, other) {}
    } else {
      assert !InQueue(s, id);
      forall other { Appended(s, t, Some(id), other); }
      forall i, j | 0 <= i < j < |t.queue| ensures t.queue[i].None? || t.queue[i] != t.queue[j] {
        assert s.queue[i] == t.queue[i];
      }
    }
  }

  lemma WakeKeepsInv(s: State)
    requires Inv(s) && s.stopping
    ensures Inv(After(s, Wake))
  {
    var t := After(s, Wake);
    forall id { Appended(s, t, None, id); }
    assert forall id :: IsHeld(t, id) <==> IsHeld(s, id);
    forall i, j | 0 <= i < j < |t.queue| ensures t.queue[i].None? || t.queue[i] != t.queue[j] {
      assert s.queue[i] == t.queue[i];
    }
  }

  lemma GetKeepsInv(s: State, w: nat)
    requires Inv(s) && Enabled(s, Get(w))
    ensures Inv(After(s, Get(w)))
  {
    var t := After(s, Get(w));
    var phase := t.workers[w];
    if s.queue == [] {
      forall id ensures InQueue(t, id) <==> InQueue(s, id) {}
    } else {
      assert phase.Holding? ==> InQueue(s, phase.id) by {
        assert phase.Holding? ==> s.queue[0] == Some(phase.id);
      }
      Taken(s, t, 0);
      forall id { Taken(s, t, id); }
    }
    forall id { WorkerMoves(s, t, w, phase, id); }
    MoveKeepsHeldOnce(s, t, w, phase);
  }

  lemma MoveKeepsInv(s: State, step: Step)
    requires Inv(s) && Enabled(s, step) && (step.Check? || step.Claim? || step.Discard?)
    ensures Inv(After(s, step))
  {
    var t := After(s, step);
    var w := step.worker;
    forall id ensures InQueue(t, id) <==> InQueue(s, id) {}
    forall id { WorkerMoves(s, t, w, t.workers[w], id); }
    assert s.workers[w].Holding? ==> IsHeld(s, s.workers[w].id);
    MoveKeepsHeldOnce(s, t, w, t.workers[w]);
  }

  lemma StepKeepsInv(s: State, step: Step)
    requires Inv(s) && Enabled(s, step)
    ensures Inv(After(s, step))
  {
    match step
    case Schedule(id) => ScheduleKeepsInv(s, id);
    case Check(_) => MoveKeepsInv(s, step);
    case Get(w) => GetKeepsInv(s, w);
    case Claim(_) => MoveKeepsInv(s, step);
    case Discard(_) => MoveKeepsInv(s, step);
    case Wake => WakeKeepsInv(s);
    case _ =>
      var t := After(s, step);
      forall id ensures (InQueue(t, id) <==> InQueue(s, id)) && (IsHeld(t, id) <==> IsHeld(s, id)) {}
  }

  // ---------------------------------------------------------------- runs

  ghost predicate IsRun(s: State, run: seq<Step>) {
    run == [] || (IsRun(s, run[..|run| - 1]) && Enabled(Final(s, run[..|run| - 1]), run[|run| - 1]))
  }

  ghost function Final(s: State, run: seq<Step>): State {
    if run == [] then s
    else
      var before := Final(s, run[..|run| - 1]);
      if Enabled(before, run[|run| - 1]) then After(before, run[|run| - 1]) else before
  }

  function Started(workers: nat, rows: map<Id, Status>): State {
    State([], {}, seq(workers, _ => Looping), false, rows, multiset{})
  }

  /** Whatever callers, workers, store writers and the shutdown interleave: the scheduled ids are exactly
      those in the queue and those being run, each once. */
  lemma {:induction false} RunKeepsInv(workers: nat, rows: map<Id, Status>, run: seq<Step>)
    requires workers > 0 && IsRun(Started(workers, rows), run)
    ensures Inv(Final(Started(workers, rows), run))
  {
    var s := Started(workers, rows);
    if run != [] {
      RunKeepsInv(workers, rows, run[..|run| - 1]);
      StepKeepsInv(Final(s, run[..|run| - 1]), run[|run| - 1]);
    }
  }

  /** No id is run by two workers of one manager at a time. */
  lemma OneWorkerEach(workers: nat, rows: map<Id, Status>, run: seq<Step>, v: nat, w: nat)
    requires workers > 0 && IsRun(Started(workers, rows), run)
    ensures var s := Final(Started(workers, rows), run);
            v < |s.workers| && w < |s.workers| && s.workers[v].Holding? && s.workers[w].Holding? && v != w
            ==> s.workers[v].id != s.workers[w].id
  {
    RunKeepsInv(workers, rows, run);
    var s := Final(Started(workers, rows), run);
    if v < |s.workers| && w < |s.workers| && s.workers[v].Holding? && s.workers[w].Holding? && v != w {
      assert Holds(s.workers[v], s.workers[v].id);
    }
  }

  // ---------------------------------------------------------------- which requests are served

  function WaitingIn(workers: seq<Phase>): nat {
    if workers == [] then 0
    else WaitingIn(workers[..|workers| - 1]) + if workers[|workers| - 1] == Waiting then 1 else 0
  }

  /** The place of an id in the queue, or the one it would get. */
  function Place(queue: seq<Option<Id>>, id: Id): (i: nat)
    ensures i <= |queue|
    ensures i < |queue| ==> queue[i] == Some(id)
    ensures forall j | 0 <= j < i :: queue[j] != Some(id)
  {
    if queue == [] || queue[0] == Some(id) then 0 else 1 + Place(queue[1..], id)
  }

  /** Whether some worker can still get to a place in the queue.  Until the stop signal every worker comes
      back for more; after it, each worker that waits already takes one item, and nobody comes back. */
  predicate IsReachable(s: State, place: nat) {
    s.stopping ==> place < WaitingIn(s.workers)
  }

  ghost predicate IsHeldUnasked(s: State, id: Id) {
    exists w | 0 <= w < |s.workers| :: s.workers[w] == Holding(id, false)
  }

  /** The store can still be asked for the row without another request: the row's worker has not asked
      yet, or the row is where a worker gets to. */
  ghost predicate CanBeAsked(s: State, id: Id) {
    IsHeldUnasked(s, id) || (InQueue(s, id) && IsReachable(s, Place(s.queue, id)))
  }

  /** The workers can claim the row: they get to it, and the store lets it go. */
  ghost predicate CanBeClaimed(s: State, id: Id) {
    CanBeAsked(s, id) && id in s.rows && (s.rows[id] == Queued || s.rows[id] == Lapsed)
  }

  predicate IsWorkerStep(step: Step) {
    step.Check? || step.Get? || step.Claim? || step.Discard?
  }

  ghost predicate IsWorkerRun(s: State, run: seq<Step>) {
    IsRun(s, run) && forall step | step in run :: IsWorkerStep(step)
  }

  /** A run that ends with a worker asking the store for the row. */
  ghost predicate EndsInAsk(s: State, run: seq<Step>, id: Id) {
    && IsRun(s, run) && run != [] && run[|run| - 1].Claim?
    && Holds(Final(s, run[..|run| - 1]).workers[run[|run| - 1].worker], id)
  }

  /** A run that ends with a worker claiming the row: it asks for it, and the store lets it go. */
  ghost predicate EndsInClaim(s: State, run: seq<Step>, id: Id) {
    && EndsInAsk(s, run, id)
    && var rows := Final(s, run[..|run| - 1]).rows;
       id in rows && (rows[id] == Queued || rows[id] == Lapsed)
  }

  predicate IsAskOf(s: State, step: Step, id: Id)
    requires Enabled(s, step)
  {
    step.Claim? && s.workers[step.worker].id == id
  }

  /** Where a claim ends, the row is running. */
  lemma ClaimRuns(s: State, run: seq<Step>, id: Id)
    requires EndsInClaim(s, run, id)
    ensures Final(s, run).rows == Final(s, run[..|run| - 1]).rows[id := Running]
  {
  }

  lemma InQueueIsPlace(s: State, id: Id)
    ensures InQueue(s, id) <==> Place(s.queue, id) < |s.queue|
  {
  }

  lemma {:induction false} PlaceAfterAppend(queue: seq<Option<Id>>, item: Option<Id>, id: Id)
    ensures Place(queue, id) < |queue| || item == Some(id) ==> Place(queue + [item], id) == Place(queue, id)
  {
    if queue == [] {
      assert queue + [item] == [item];
    } else {
      PlaceAfterAppend(queue[1..], item, id);
      assert (queue + [item])[1..] == queue[1..] + [item];
    }
  }

  lemma {:induction false} WaitingAfterMove(workers: seq<Phase>, w: nat, phase: Phase)
    requires w < |workers|
    ensures WaitingIn(workers[w := phase]) + (if workers[w] == Waiting then 1 else 0)
            == WaitingIn(workers) + if phase == Waiting then 1 else 0
  {
    var n := |workers| - 1;
    if w < n {
      WaitingAfterMove(workers[..n], w, phase);
      assert workers[w := phase][..n] == workers[..n][w := phase];
    } else {
      assert workers[w := phase][..n] == workers[..n];
    }
  }

  lemma {:induction false} SomeoneWaits(workers: seq<Phase>) returns (w: nat)
    requires WaitingIn(workers) > 0
    ensures w < |workers| && workers[w] == Waiting
  {
    w := |workers| - 1;
    if workers[w] != Waiting {
      w := SomeoneWaits(workers[..w]);
    }
  }

  lemma UnaskedAfterMove(s: State, t: State, w: nat, phase: Phase, id: Id)
    requires HeldOnce(s) && w < |s.workers| && t.workers == s.workers[w := phase]
    ensures IsHeldUnasked(t, id) <==> phase == Holding(id, false) || (IsHeldUnasked(s, id) && s.workers[w] != Holding(id, false))
  {
    if v :| 0 <= v < |s.workers| && s.workers[v] == Holding(id, false) {
      assert v != w ==> t.workers[v] == s.workers[v];
      assert Holds(s.workers[v], id);
      assert s.workers[w] == Holding(id, false) ==> Holds(s.workers[w], id);
    }
    if v :| 0 <= v < |t.workers| && t.workers[v] == Holding(id, false) {
      assert v != w ==> t.workers[v] == s.workers[v] && Holds(s.workers[v], id);
      assert s.workers[w] == Holding(id, false) ==> Holds(s.workers[w], id);
    }
    assert phase == Holding(id, false) ==> t.workers[w] == Holding(id, false);
  }

  lemma GetKeepsChance(s: State, w: nat, id: Id)
    requires Inv(s) && Enabled(s, Get(w))
    ensures CanBeAsked(After(s, Get(w)), id) <==> CanBeAsked(s, id)
  {
    var t := After(s, Get(w));
    UnaskedAfterMove(s, t, w, t.workers[w], id);
    WaitingAfterMove(s.workers, w, t.workers[w]);
    InQueueIsPlace(s, id);
    InQueueIsPlace(t, id);
  }

  lemma MoveKeepsChance(s: State, step: Step, id: Id)
    requires Inv(s) && Enabled(s, step) && (step.Check? || step.Discard? || step.Claim?) && !IsAskOf(s, step, id)
    ensures CanBeAsked(After(s, step), id) <==> CanBeAsked(s, id)
  {
    var t := After(s, step);
    UnaskedAfterMove(s, t, step.worker, t.workers[step.worker], id);
    WaitingAfterMove(s.workers, step.worker, t.workers[step.worker]);
    assert InQueue(t, id) <==> InQueue(s, id);
  }

  lemma AppendKeepsChance(s: State, step: Step, id: Id)
    requires Inv(s) && Enabled(s, step) && (step.Wake? || step.Schedule?) && step != Schedule(id)
    ensures CanBeAsked(After(s, step), id) <==> CanBeAsked(s, id)
  {
    var t := After(s, step);
    if t.queue != s.queue {
      var item := t.queue[|s.queue|];
      Appended(s, t, item, id);
      PlaceAfterAppend(s.queue, item, id);
      InQueueIsPlace(s, id);
    }
    assert IsHeldUnasked(t, id) <==> IsHeldUnasked(s, id);
  }

  /** Only a request for the row gives it a chance to be asked for, and only that or the stop signal takes it. */
  lemma ChanceIsKept(s: State, step: Step, id: Id)
    requires Inv(s) && Enabled(s, step) && step != Schedule(id) && !IsAskOf(s, step, id)
    ensures CanBeAsked(After(s, step), id) ==> CanBeAsked(s, id)
    ensures CanBeAsked(s, id) ==> CanBeAsked(After(s, step), id) || (step.Stop? && !s.stopping)
  {
    match step
    case Get(w) => GetKeepsChance(s, w, id);
    case Check(_) => MoveKeepsChance(s, step, id);
    case Claim(_) => MoveKeepsChance(s, step, id);
    case Discard(_) => MoveKeepsChance(s, step, id);
    case Schedule(_) => AppendKeepsChance(s, step, id);
    case Wake => AppendKeepsChance(s, step, id);
    case _ =>
      assert InQueue(After(s, step), id) <==> InQueue(s, id);
      assert IsHeldUnasked(After(s, step), id) <==> IsHeldUnasked(s, id);
  }

  // ---------------------------------------------------------------- one direction: a chance is taken

  lemma {:induction false} StepInFront(s: State, step: Step, run: seq<Step>)
    requires Enabled(s, step) && IsRun(After(s, step), run)
    ensures IsRun(s, [step] + run) && Final(s, [step] + run) == Final(After(s, step), run)
  {
    var longer := [step] + run;
    if run == [] {
      assert longer == [step] && longer[..0] == [];
      assert Final(s, []) == s;
    } else {
      StepInFront(s, step, run[..|run| - 1]);
      assert longer[..|longer| - 1] == [step] + run[..|run| - 1];
    }
  }

  lemma AskInFront(s: State, step: Step, run: seq<Step>, id: Id)
    requires Enabled(s, step) && EndsInAsk(After(s, step), run, id)
    ensures EndsInAsk(s, [step] + run, id)
    ensures EndsInClaim(After(s, step), run, id) ==> EndsInClaim(s, [step] + run, id)
  {
    StepInFront(s, step, run);
    StepInFront(s, step, run[..|run| - 1]);
    assert ([step] + run)[..|run|] == [step] + run[..|run| - 1];
  }

  /** The next step of one worker on its way to the queue. */
  function NextStep(s: State, w: nat): Step
    requires w < |s.workers|
  {
    match s.workers[w]
    case Looping => Check(w)
    case Waiting => Get(w)
    case Holding(_, asked) => if asked then Discard(w) else Claim(w)
    case Gone => Check(w)
  }

  function StepsToQueue(phase: Phase): nat {
    match phase
    case Holding(_, asked) => if asked then 2 else 3
    case Looping => 1
    case _ => 0
  }

  /** The worker that goes on: any one before the stop signal, one that waits after it. */
  lemma ChooseWorker(s: State, id: Id) returns (w: nat)
    requires Inv(s) && CanBeAsked(s, id) && !IsHeldUnasked(s, id)
    ensures w < |s.workers| && Enabled(s, NextStep(s, w)) && !IsAskOf(s, NextStep(s, w), id)
    ensures if s.stopping then s.workers[w] == Waiting else w == 0
  {
    w := 0;
    if s.stopping {
      w := SomeoneWaits(s.workers);
    }
  }

  /** What the store says of a row is up to the workers only when they ask for it. */
  lemma RowRests(s: State, step: Step, id: Id)
    requires Enabled(s, step) && IsWorkerStep(step)
    ensures IsClaimable(After(s, step).rows, id) ==> IsClaimable(s.rows, id)
    ensures !IsAskOf(s, step, id) ==> (IsClaimable(After(s, step).rows, id) <==> IsClaimable(s.rows, id))
  {
  }

  /** The workers alone get to ask for a row that has a chance, and they claim it if they can. */
  lemma {:induction false} ChanceIsTaken(s: State, id: Id) returns (run: seq<Step>)
    requires Inv(s) && CanBeAsked(s, id)
    ensures EndsInAsk(s, run, id) && IsWorkerRun(s, run)
    ensures IsClaimable(s.rows, id) ==> EndsInClaim(s, run, id)
    decreases |s.queue|, if |s.workers| > 0 then StepsToQueue(s.workers[0]) else 0
  {
    if w :| 0 <= w < |s.workers| && s.workers[w] == Holding(id, false) {
      run := OneMore(s, [], Claim(w));
    } else {
      var w := ChooseWorker(s, id);
      var step := NextStep(s, w);
      InQueueIsPlace(s, id);
      StepKeepsInv(s, step);
      ChanceIsKept(s, step, id);
      RowRests(s, step, id);
      var rest := ChanceIsTaken(After(s, step), id);
      AskInFront(s, step, rest, id);
      run := [step] + rest;
    }
  }

  // ---------------------------------------------------------------- the other: no chance, no claim

  lemma AskNeedsHolder(s: State, step: Step, id: Id)
    requires Enabled(s, step)
    ensures IsAskOf(s, step, id) ==> IsHeldUnasked(s, id)
  {
    assert IsAskOf(s, step, id) ==> s.workers[step.worker] == Holding(id, false);
  }

  lemma {:induction false} NoChanceStays(s: State, run: seq<Step>, id: Id)
    requires Inv(s) && !CanBeAsked(s, id) && IsRun(s, run) && Schedule(id) !in run
    ensures Inv(Final(s, run)) && !CanBeAsked(Final(s, run), id)
  {
    if run != [] {
      var front, step := run[..|run| - 1], run[|run| - 1];
      NoChanceStays(s, front, id);
      var before := Final(s, front);
      StepKeepsInv(before, step);
      AskNeedsHolder(before, step, id);
      ChanceIsKept(before, step, id);
    }
  }

  lemma NothingIsAsked(s: State, run: seq<Step>, id: Id)
    requires Inv(s) && !CanBeAsked(s, id) && Schedule(id) !in run
    ensures !EndsInAsk(s, run, id)
  {
    if IsRun(s, run) && run != [] {
      var front := run[..|run| - 1];
      NoChanceStays(s, front, id);
      AskNeedsHolder(Final(s, front), run[|run| - 1], id);
    }
  }

  /** Somebody asks for the row in some continuation without a new request, whatever else happens, exactly
      if it has a chance now. */
  lemma AskedExactly(s: State, id: Id)
    requires Inv(s)
    ensures CanBeAsked(s, id) <==> exists run :: Schedule(id) !in run && EndsInAsk(s, run, id)
  {
    if CanBeAsked(s, id) {
      var run := ChanceIsTaken(s, id);
      assert Schedule(id) !in run;
    } else {
      forall run | Schedule(id) !in run ensures !EndsInAsk(s, run, id) {
        NothingIsAsked(s, run, id);
      }
    }
  }

  lemma {:induction false} UnclaimableStays(s: State, run: seq<Step>, id: Id)
    requires IsWorkerRun(s, run) && !IsClaimable(s.rows, id)
    ensures !IsClaimable(Final(s, run).rows, id)
  {
    if run != [] {
      var front, step := run[..|run| - 1], run[|run| - 1];
      assert step in run && forall x | x in front :: x in run;
      UnclaimableStays(s, front, id);
      RowRests(Final(s, front), step, id);
    }
  }

  lemma WorkersDoNotClaim(s: State, run: seq<Step>, id: Id)
    requires Inv(s) && !CanBeClaimed(s, id) && IsWorkerRun(s, run)
    ensures !EndsInClaim(s, run, id)
  {
    if !CanBeAsked(s, id) {
      NothingIsAsked(s, run, id);
    } else if run != [] {
      var front := run[..|run| - 1];
      assert forall x | x in front :: x in run;
      UnclaimableStays(s, front, id);
    }
  }

  /** The workers alone can claim a row exactly if they get to it and it is queued in the store or its lease
      is over. */
  lemma ClaimedExactly(s: State, id: Id)
    requires Inv(s)
    ensures CanBeClaimed(s, id) <==> exists run :: IsWorkerRun(s, run) && EndsInClaim(s, run, id)
  {
    if CanBeClaimed(s, id) {
      var run := ChanceIsTaken(s, id);
    } else {
      forall run | IsWorkerRun(s, run) ensures !EndsInClaim(s, run, id) {
        WorkersDoNotClaim(s, run, id);
      }
    }
  }

  /** With the store written to as well, a claim is possible exactly if the row has a chance to be asked for:
      what the store says then decides. */
  lemma ClaimedIfWritten(s: State, id: Id)
    requires Inv(s)
    ensures CanBeAsked(s, id) <==> exists run :: Schedule(id) !in run && EndsInClaim(s, run, id)
  {
    AskedExactly(s, id);
    if CanBeAsked(s, id) {
      var write := Write(id, Queued);
      StepKeepsInv(s, write);
      ChanceIsKept(s, write, id);
      var run := ChanceIsTaken(After(s, write), id);
      AskInFront(s, write, run, id);
      assert Schedule(id) !in [write] + run;
    }
  }

  // ---------------------------------------------------------------- requests

  lemma ChanceOfRequest(s: State, id: Id)
    requires Inv(s) && Enabled(s, Schedule(id))
    ensures CanBeAsked(After(s, Schedule(id)), id) <==>
            IsHeldUnasked(s, id) || (!IsHeld(s, id) && IsReachable(s, Place(s.queue, id)))
  {
    var t := After(s, Schedule(id));
    assert IsHeldUnasked(t, id) <==> IsHeldUnasked(s, id);
    assert InQueue(s, id) ==> InQueue(t, id);
    if id !in s.scheduled {
      Appended(s, t, Some(id), id);
      PlaceAfterAppend(s.queue, Some(id), id);
    }
  }

  /** What a caller could see before scheduling a row.  The workers can claim it then exactly if the store has
      it queued or its lease is over, and its worker has not asked the store yet, or nobody runs it and, once
      the stop signal has been given, enough workers wait to get to its place in the queue. */
  lemma ScheduleServes(s: State, id: Id)
    requires Inv(s) && Enabled(s, Schedule(id))
    ensures (exists run :: IsWorkerRun(After(s, Schedule(id)), run) && EndsInClaim(After(s, Schedule(id)), run, id)) <==>
            && id in s.rows && (s.rows[id] == Queued || s.rows[id] == Lapsed)
            && (IsHeldUnasked(s, id) || (!IsHeld(s, id) && IsReachable(s, Place(s.queue, id))))
  {
    StepKeepsInv(s, Schedule(id));
    ClaimedExactly(After(s, Schedule(id)), id);
    ChanceOfRequest(s, id);
  }

  // ---------------------------------------------------------------- in any order

  /** A bound on the steps that workers can take before one of them takes the row from the queue. */
  function Distance(s: State, id: Id): nat {
    4 * Place(s.queue, id) + Total(s.workers, StepsToQueue)
  }

  function Total(workers: seq<Phase>, cost: Phase -> nat): nat {
    if workers == [] then 0 else Total(workers[..|workers| - 1], cost) + cost(workers[|workers| - 1])
  }

  lemma {:induction false} TotalAfterMove(workers: seq<Phase>, cost: Phase -> nat, w: nat, phase: Phase)
    requires w < |workers|
    ensures Total(workers[w := phase], cost) + cost(workers[w]) == Total(workers, cost) + cost(phase)
  {
    var n := |workers| - 1;
    if w < n {
      TotalAfterMove(workers[..n], cost, w, phase);
      assert workers[w := phase][..n] == workers[..n][w := phase];
    } else {
      assert workers[w := phase][..n] == workers[..n];
    }
  }

  lemma EveryStepGetsCloser(s: State, step: Step, id: Id)
    requires Inv(s) && Enabled(s, step) && IsWorkerStep(step) && CanBeAsked(s, id) && !IsHeldUnasked(s, id)
    ensures CanBeAsked(After(s, step), id)
    ensures IsHeldUnasked(After(s, step), id) || Distance(After(s, step), id) < Distance(s, id)
  {
    var t, w := After(s, step), step.worker;
    AskNeedsHolder(s, step, id);
    ChanceIsKept(s, step, id);
    TotalAfterMove(s.workers, StepsToQueue, w, t.workers[w]);
    if step.Get? {
      assert s.queue[0] == Some(id) ==> t.workers[w] == Holding(id, false);
    }
  }

  /** In whatever order the workers go: within as many steps as its distance, one of them holds the row and
      asks for it next. */
  lemma {:induction false} EveryOrderGetsThere(s: State, run: seq<Step>, id: Id) returns (k: nat)
    requires Inv(s) && CanBeAsked(s, id) && IsWorkerRun(s, run)
    ensures k <= |run| && Inv(Final(s, run[..k])) && CanBeAsked(Final(s, run[..k]), id)
    ensures IsHeldUnasked(Final(s, run[..k]), id) || (k == |run| && Distance(Final(s, run), id) + |run| <= Distance(s, id))
    ensures IsClaimable(Final(s, run[..k]).rows, id) <==> IsClaimable(s.rows, id)
  {
    if run == [] {
      k := 0;
      assert run[..0] == run;
    } else {
      var front, step := run[..|run| - 1], run[|run| - 1];
      assert step in run && forall x | x in front :: x in run;
      k := EveryOrderGetsThere(s, front, id);
      assert front[..k] == run[..k];
      var before := Final(s, front);
      if !IsHeldUnasked(Final(s, run[..k]), id) {
        assert front[..k] == front;
        StepKeepsInv(before, step);
        EveryStepGetsCloser(before, step, id);
        AskNeedsHolder(before, step, id);
        RowRests(before, step, id);
        k := |run|;
        assert run[..k] == run;
      }
    }
  }

  /** So a request that meets the condition of `ScheduleServes` does not depend on luck: in every run of the
      workers that is longer than its distance some worker gets to hold the row, its next step is the claim,
      and the claim succeeds. */
  lemma ServedInAnyOrder(s: State, run: seq<Step>, id: Id) returns (k: nat, w: nat)
    requires Inv(s) && CanBeClaimed(s, id) && IsWorkerRun(s, run) && |run| > Distance(s, id)
    ensures k <= |run| && IsRun(s, run[..k])
    ensures Enabled(Final(s, run[..k]), Claim(w)) && NextStep(Final(s, run[..k]), w) == Claim(w)
    ensures EndsInClaim(s, run[..k] + [Claim(w)], id)
    ensures id in Final(s, run[..k] + [Claim(w)]).rows && Final(s, run[..k] + [Claim(w)]).rows[id] == Running
  {
    k := EveryOrderGetsThere(s, run, id);
    PrefixIsRun(s, run, k);
    var there := Final(s, run[..k]);
    w :| 0 <= w < |there.workers| && there.workers[w] == Holding(id, false);
    var longer := OneMore(s, run[..k], Claim(w));
    assert longer[..|longer| - 1] == run[..k];
    ClaimRuns(s, longer, id);
  }

  /** And they can always go on: as long as the row has a chance, some worker has a next step. */
  lemma WorkersGoOn(s: State, id: Id) returns (step: Step)
    requires Inv(s) && CanBeAsked(s, id)
    ensures Enabled(s, step) && IsWorkerStep(step)
  {
    if w :| 0 <= w < |s.workers| && s.workers[w] == Holding(id, false) {
      step := Claim(w);
    } else {
      var w := ChooseWorker(s, id);
      step := NextStep(s, w);
    }
  }

  lemma {:induction false} PrefixIsRun(s: State, run: seq<Step>, k: nat)
    requires IsRun(s, run) && k <= |run|
    ensures IsRun(s, run[..k])
  {
    if k < |run| {
      PrefixIsRun(s, run[..|run| - 1], k);
      assert run[..|run| - 1][..k] == run[..k];
    } else {
      assert run[..k] == run;
    }
  }

  // ---------------------------------------------------------------- requests that are lost

  /** The row has no chance, and no continuation without a new request claims it. */
  ghost predicate IsLost(s: State, id: Id) {
    forall more :: Schedule(id) !in more ==> !EndsInClaim(s, more, id)
  }

  lemma NoChanceIsLost(s: State, id: Id)
    requires Inv(s) && !CanBeAsked(s, id)
    ensures IsLost(s, id)
  {
    forall more | Schedule(id) !in more ensures !EndsInClaim(s, more, id) {
      NothingIsAsked(s, more, id);
    }
  }

  ghost predicate LeadsTo(start: State, run: seq<Step>, s: State) {
    IsRun(start, run) && Final(start, run) == s
  }

  lemma OneMore(start: State, run: seq<Step>, step: Step) returns (longer: seq<Step>)
    requires IsRun(start, run) && Enabled(Final(start, run), step)
    ensures longer == run + [step] && IsRun(start, longer) && Final(start, longer) == After(Final(start, run), step)
  {
    longer := run + [step];
    assert longer[..|longer| - 1] == run;
  }

  lemma Onward(start: State, run: seq<Step>, s: State, step: Step) returns (longer: seq<Step>, t: State)
    requires LeadsTo(start, run, s) && Enabled(s, step)
    ensures longer == run + [step] && t == After(s, step) && LeadsTo(start, longer, t)
  {
    longer := OneMore(start, run, step);
    t := After(s, step);
  }

  lemma RequestAdmitted(start: State, run: seq<Step>, s: State) returns (longer: seq<Step>, t: State)
    requires LeadsTo(start, run, s) && !s.stopping && s.callers == multiset{}
    ensures longer == run + [Admit(7), Write(7, Queued)] && LeadsTo(start, longer, t)
    ensures t == s.(rows := s.rows[7 := Queued], callers := multiset{7})
  {
    longer, t := Onward(start, run, s, Admit(7));
    longer, t := Onward(start, longer, t, Write(7, Queued));
  }

  /** A request, in a state without others, and the row it queues. */
  lemma RequestMade(start: State, run: seq<Step>, s: State) returns (longer: seq<Step>, t: State)
    requires LeadsTo(start, run, s) && !s.stopping && s.callers == multiset{} && 7 !in s.scheduled
    ensures longer == run + [Admit(7), Write(7, Queued), Schedule(7)] && LeadsTo(start, longer, t)
    ensures t == s.(rows := s.rows[7 := Queued], scheduled := s.scheduled + {7}, queue := s.queue + [Some(7)])
  {
    longer, t := RequestAdmitted(start, run, s);
    longer, t := Onward(start, longer, t, Schedule(7));
    assert t.callers == s.callers;
  }

  /** The only worker takes the row and asks for it. */
  lemma RowTaken(start: State, run: seq<Step>, s: State) returns (longer: seq<Step>, t: State)
    requires LeadsTo(start, run, s) && !s.stopping && s.queue == [Some(7)] && s.workers == [Looping]
    ensures longer == run + [Check(0), Get(0), Claim(0)] && LeadsTo(start, longer, t)
    ensures t == s.(queue := [], workers := [Holding(7, true)],
                    rows := if IsClaimable(s.rows, 7) then s.rows[7 := Running] else s.rows)
  {
    longer, t := Onward(start, run, s, Check(0));
    assert t.workers == [Waiting];
    longer, t := Onward(start, longer, t, Get(0));
    assert t.workers == [Holding(7, false)] && t.queue == [];
    longer, t := Onward(start, longer, t, Claim(0));
  }

  lemma FirstPass(start: State) returns (run: seq<Step>, s: State)
    requires start == Started(1, map[])
    ensures run == [Admit(7), Write(7, Queued), Schedule(7), Check(0), Get(0), Claim(0)] && LeadsTo(start, run, s)
    ensures s == State([], {7}, [Holding(7, true)], false, map[7 := Running], multiset{})
  {
    run, s := RequestMade(start, [], start);
    run, s := RowTaken(start, run, s);
  }

  /** A request that comes after the worker has recorded its result but before it discards the id is lost:
      the row is queued in the store, and no continuation without a new request claims it. */
  lemma RequeueCanBeLost(start: State) returns (run: seq<Step>, s: State)
    requires start == Started(1, map[])
    ensures run == [Admit(7), Write(7, Queued), Schedule(7), Check(0), Get(0), Claim(0)]
                   + [Write(7, Settled), Admit(7), Write(7, Queued), Schedule(7), Discard(0)]
    ensures LeadsTo(start, run, s)
    ensures 7 in s.rows && s.rows[7] == Queued && 7 !in s.scheduled && IsLost(s, 7)
  {
    run, s := FirstPass(start);
    run, s := Onward(start, run, s, Write(7, Settled));
    run, s := Onward(start, run, s, Admit(7));
    run, s := Onward(start, run, s, Write(7, Queued));
    run, s := Onward(start, run, s, Schedule(7));
    run, s := Onward(start, run, s, Discard(0));
    assert s.queue == [] && s.workers == [Looping] && s.rows[7] == Queued;
    RunKeepsInv(1, map[], run);
    NoChanceIsLost(s, 7);
  }

  lemma ResumedUnderLease(start: State) returns (run: seq<Step>, s: State)
    requires start == Started(1, map[])
    ensures run == [Admit(7), Write(7, Queued), Schedule(7), Check(0), Get(0), Claim(0)] + [Discard(0), Admit(7), Schedule(7)]
    ensures LeadsTo(start, run, s)
    ensures s == State([Some(7)], {7}, [Looping], false, map[7 := Running], multiset{})
  {
    run, s := FirstPass(start);
    run, s := Onward(start, run, s, Discard(0));
    assert s.workers == [Looping];
    run, s := Onward(start, run, s, Admit(7));
    run, s := Onward(start, run, s, Schedule(7));
    assert s.callers == multiset{};
  }

  /** The worker could not record its result, so the row still runs under its lease; a request made now to
      resume it gets a worker to ask for the row, but the store does not let it go. */
  lemma LiveLeaseIsNotClaimed(start: State) returns (run: seq<Step>, s: State)
    requires start == Started(1, map[])
    ensures run == [Admit(7), Write(7, Queued), Schedule(7), Check(0), Get(0), Claim(0)] + [Discard(0), Admit(7), Schedule(7)]
    ensures LeadsTo(start, run, s) && !s.stopping && s.rows == map[7 := Running] && CanBeAsked(s, 7)
    ensures forall more | IsWorkerRun(s, more) :: !EndsInClaim(s, more, 7)
  {
    run, s := ResumedUnderLease(start);
    RunKeepsInv(1, map[], run);
    assert s.queue[0] == Some(7);
    ClaimedExactly(s, 7);
  }

  /** And when its lease runs out after that, nobody comes back to it. */
  lemma LiveLeaseIsLost(start: State) returns (run: seq<Step>, s: State)
    requires start == Started(1, map[])
    ensures run == [Admit(7), Write(7, Queued), Schedule(7), Check(0), Get(0), Claim(0)] + [Discard(0), Admit(7), Schedule(7)]
                   + [Check(0), Get(0), Claim(0)] + [Discard(0), Write(7, Lapsed)]
    ensures LeadsTo(start, run, s)
    ensures 7 in s.rows && s.rows[7] == Lapsed && 7 !in s.scheduled && IsLost(s, 7)
  {
    run, s := ResumedUnderLease(start);
    run, s := RowTaken(start, run, s);
    run, s := Onward(start, run, s, Discard(0));
    run, s := Onward(start, run, s, Write(7, Lapsed));
    assert s.queue == [] && s.workers == [Looping];
    RunKeepsInv(1, map[], run);
    NoChanceIsLost(s, 7);
  }

  lemma OnlyWorkerReturns(start: State, run: seq<Step>, s: State) returns (longer: seq<Step>, t: State)
    requires LeadsTo(start, run, s) && s.workers == [Looping]
    ensures longer == run + [Stop, Wake, Check(0)] && LeadsTo(start, longer, t)
    ensures t == s.(stopping := true, queue := s.queue + [None], workers := [Gone])
  {
    longer, t := Onward(start, run, s, Stop);
    longer, t := Onward(start, longer, t, Wake);
    longer, t := Onward(start, longer, t, Check(0));
  }

  /** A request that passes the test of the stop signal before the signal and schedules its row after it,
      when no worker waits any more, is lost. */
  lemma LateRequestIsLost(start: State) returns (run: seq<Step>, s: State)
    requires start == Started(1, map[])
    ensures run == [Admit(7), Write(7, Queued), Stop, Wake, Check(0), Schedule(7)] && LeadsTo(start, run, s)
    ensures 7 in s.rows && s.rows[7] == Queued && 7 in s.scheduled && s.workers == [Gone] && IsLost(s, 7)
  {
    run, s := RequestAdmitted(start, [], start);
    run, s := OnlyWorkerReturns(start, run, s);
    run, s := Onward(start, run, s, Schedule(7));
    assert s.workers == [Gone] && s.stopping && WaitingIn(s.workers) == 0;
    RunKeepsInv(1, map[], run);
    NoChanceIsLost(s, 7);
  }

  // ---------------------------------------------------------------- the shutdown

  /** A bound on the steps a worker takes from the stop signal until it returns: it may take one more item. */
  function StepsToReturn(phase: Phase): nat {
    match phase
    case Waiting => 4
    case Holding(_, asked) => if asked then 2 else 3
    case Looping => 1
    case Gone => 0
  }

  ghost predicate AllReturned(workers: seq<Phase>) {
    forall w | 0 <= w < |workers| :: workers[w] == Gone
  }

  lemma {:induction false} NothingLeft(workers: seq<Phase>)
    ensures Total(workers, StepsToReturn) <= 4 * |workers|
    ensures Total(workers, StepsToReturn) == 0 <==> AllReturned(workers)
  {
    if workers != [] {
      var n := |workers| - 1;
      NothingLeft(workers[..n]);
      assert workers == workers[..n] + [workers[n]];
      assert StepsToReturn(workers[n]) == 0 <==> workers[n] == Gone;
    }
  }

  function WorkerSteps(run: seq<Step>): nat {
    if run == [] then 0 else WorkerSteps(run[..|run| - 1]) + if IsWorkerStep(run[|run| - 1]) then 1 else 0
  }

  lemma StepsTowardsReturn(s: State, step: Step)
    requires Enabled(s, step) && s.stopping
    ensures var t := After(s, step);
            && t.stopping && |t.workers| == |s.workers|
            && Total(t.workers, StepsToReturn) + (if IsWorkerStep(step) then 1 else 0) <= Total(s.workers, StepsToReturn)
  {
    if IsWorkerStep(step) {
      TotalAfterMove(s.workers, StepsToReturn, step.worker, After(s, step).workers[step.worker]);
    }
  }

  lemma {:induction false} RunTowardsReturn(s: State, run: seq<Step>)
    requires s.stopping && IsRun(s, run)
    ensures var t := Final(s, run);
            && t.stopping && |t.workers| == |s.workers|
            && Total(t.workers, StepsToReturn) + WorkerSteps(run) <= Total(s.workers, StepsToReturn)
  {
    if run != [] {
      RunTowardsReturn(s, run[..|run| - 1]);
      StepsTowardsReturn(Final(s, run[..|run| - 1]), run[|run| - 1]);
    }
  }

  /** After the stop signal, whatever else happens and however long the queue is, the workers take at most
      four steps each; and as long as one has not returned, one can go on.  So joining them comes to an end. */
  lemma WorkersReturn(s: State, run: seq<Step>)
    requires s.stopping && IsRun(s, run)
    ensures WorkerSteps(run) <= 4 * |s.workers|
    ensures WorkerSteps(run) == 4 * |s.workers| ==> AllReturned(Final(s, run).workers)
    ensures AllReturned(Final(s, run).workers) <==> forall step | IsWorkerStep(step) :: !Enabled(Final(s, run), step)
  {
    RunTowardsReturn(s, run);
    NothingLeft(s.workers);
    var t := Final(s, run);
    NothingLeft(t.workers);
    if w :| 0 <= w < |t.workers| && t.workers[w] != Gone {
      assert Enabled(t, NextStep(t, w)) && IsWorkerStep(NextStep(t, w));
    }
  }

  // ---------------------------------------------------------------- the manager

  /** The manager's fields; each method is one step under the manager's lock, or one call on its queue. */
  class DownloadResourceRecoveryManager {
    var queue: seq<Option<Id>>
    var scheduled: set<Id>
    var workers: seq<Phase>
    var stopping: bool
    var rows: map<Id, Status>
    var callers: multiset<Id>

    ghost function View(): State
      reads this
    {
      State(queue, scheduled, workers, stopping, rows, callers)
    }

    /** At most four workers, at least one. */
    constructor (workerCount: int, rows: map<Id, Status>)
      ensures View() == Started(|workers|, rows) && 1 <= |workers| <= 4
      ensures 1 <= workerCount <= 4 ==> |workers| == workerCount
      ensures Inv(View())
    {
      var count := if workerCount < 1 then 1 else if workerCount > 4 then 4 else workerCount;
      queue, scheduled, workers, stopping := [], {}, seq(count, _ => Looping), false;
      this.rows, callers := rows, multiset{};
    }

    /** The test that opens `enqueue` and `resume`; a request that comes after the stop signal is refused. */
    method AdmitRequest(id: Id) returns (admitted: bool)
      requires Inv(View())
      modifies this`callers
      ensures admitted <==> !stopping
      ensures callers == if admitted then old(callers) + multiset{id} else old(callers)
      ensures admitted <==> Enabled(old(View()), Admit(id))
      ensures admitted ==> View() == After(old(View()), Admit(id)) && Inv(View())
      ensures !admitted ==> View() == old(View())
    {
      if stopping {
        return false;
      }
      StepKeepsInv(View(), Admit(id));
      callers := callers + multiset{id};
      admitted := true;
    }

    /** `_schedule`. */
    method ScheduleId(id: Id)
      requires Inv(View()) && Enabled(View(), Schedule(id))
      modifies this`queue, this`scheduled, this`callers
      ensures scheduled == old(scheduled) + {id} && callers == old(callers) - multiset{id}
      ensures queue == if id in old(scheduled) then old(queue) else old(queue) + [Some(id)]
      ensures View() == After(old(View()), Schedule(id)) && Inv(View())
    {
      StepKeepsInv(View(), Schedule(id));
      callers := callers - multiset{id};
      if id !in scheduled {
        scheduled := scheduled + {id};
        queue := queue + [Some(id)];
      }
    }

    /** The condition of the worker loop. */
    method CheckLoop(w: nat)
      requires Inv(View()) && Enabled(View(), Check(w))
      modifies this`workers
      ensures workers == old(workers)[w := if stopping then Gone else Waiting]
      ensures View() == After(old(View()), Check(w)) && Inv(View())
    {
      StepKeepsInv(View(), Check(w));
      workers := workers[w := if stopping then Gone else Waiting];
    }

    /** The wait on the queue, which may time out. */
    method GetNext(w: nat)
      requires Inv(View()) && Enabled(View(), Get(w))
      modifies this`workers, this`queue
      ensures old(queue) == [] ==> queue == [] && workers == old(workers)[w := Looping]
      ensures old(queue) != [] ==>
                && old(queue) == [old(queue)[0]] + queue
                && workers == old(workers)[w := if old(queue)[0].None? then Gone else Holding(old(queue)[0].value, false)]
      ensures View() == After(old(View()), Get(w)) && Inv(View())
    {
      StepKeepsInv(View(), Get(w));
      if queue == [] {
        workers := workers[w := Looping];
        return;
      }
      var item := queue[0];
      queue := queue[1..];
      workers := workers[w := if item.None? then Gone else Holding(item.value, false)];
    }

    /** `claim_discovery`, the first thing a worker does with an id: a queued row, or a running one whose
        lease is over, is claimed. */
    method ClaimRow(w: nat) returns (claimed: bool)
      requires Inv(View()) && Enabled(View(), Claim(w))
      modifies this`workers, this`rows
      ensures View() == After(old(View()), Claim(w)) && Inv(View())
      ensures var id := old(workers[w].id);
              && (claimed <==> id in old(rows) && (old(rows)[id] == Queued || old(rows)[id] == Lapsed))
              && rows == (if claimed then old(rows)[id := Running] else old(rows))
              && workers == old(workers)[w := Holding(id, true)]
    {
      StepKeepsInv(View(), Claim(w));
      var id := workers[w].id;
      workers := workers[w := Holding(id, true)];
      claimed := IsClaimable(rows, id);
      if claimed {
        rows := rows[id := Running];
      }
    }

    /** The end of the loop body. */
    method DiscardId(w: nat)
      requires Inv(View()) && Enabled(View(), Discard(w))
      modifies this`workers, this`scheduled
      ensures scheduled == old(scheduled) - {old(workers[w].id)} && workers == old(workers)[w := Looping]
      ensures View() == After(old(View()), Discard(w)) && Inv(View())
    {
      StepKeepsInv(View(), Discard(w));
      scheduled := scheduled - {workers[w].id};
      workers := workers[w := Looping];
    }

    /** `shutdown`: the stop signal, and one wake-up call for each worker. */
    method Shutdown()
      requires Inv(View())
      modifies this`stopping, this`queue
      ensures Inv(View()) && stopping
      ensures queue == old(queue) + seq(|workers|, _ => None)
    {
      StepKeepsInv(View(), Stop);
      stopping := true;
      var n := 0;
      while n < |workers|
        invariant n <= |workers| && Inv(View()) && stopping
        invariant queue == old(queue) + seq(n, _ => None)
      {
        StepKeepsInv(View(), Wake);
        queue := queue + [None];
        n := n + 1;
      }
    }

    /** The answer of `shutdown`, once it has waited for the workers or run out of time. */
    method AllStopped() returns (stopped: bool)
      ensures stopped <==> AllReturned(workers)
    {
      for w := 0 to |workers|
        invariant forall v | 0 <= v < w :: workers[v] == Gone
      {
        if workers[w] != Gone {
          return false;
        }
      }
      stopped := true;
    }
  }
}

/** The daemon's thread pool: one lock, two condition variables and a slot for one task.

    A run is a sequence of steps, one per critical section (plus the steps a thread takes
    outside the lock: being woken, timing out, finishing a task). Threads are numbered by
    creation, tasks by submission. A wait on a condition variable can end because of a
    notification, spuriously, or (extra workers only) by time-out. */
module ThreadPool {
  import opened Common
  import opened Sums

  const CORE_POOL_SIZE: int := 3

  type TaskId = nat

  /** What a worker is doing. `Starting` is outside the lock, about to enter it; `Waiting`,
      `Woken` and `TimedOut` are inside the wait on `task_is_some`, the last two only lacking
      the lock; `Running` holds a task it has taken. */
  datatype Status = Starting | Waiting | Woken | TimedOut | Running(task: TaskId) | Exited
  datatype Worker = Worker(isCore: bool, status: Status)

  /** What the thread submitting a task is doing; `Blocked` and `Notified` are inside the wait
      on `task_is_none`, `Placed` has left `exec_task`. */
  datatype Submitter = Wanting | Blocked | Notified | Placed

  datatype State = State(
    idle: int, total: int, slot: Option<TaskId>,
    workers: seq<Worker>, submitters: seq<Submitter>,
    started: seq<TaskId>, finished: set<TaskId>)

  /** `chosen` is the waiter that a notification picks; it can be absent only when nobody waits. */
  datatype Step =
    | NewTask                                    // a thread calls exec_task
    | Submit(t: TaskId, chosen: Option<nat>)     // its critical section in exec_task
    | Enter(w: nat, chosen: Option<TaskId>)      // a worker enters the lock
    | Resume(w: nat, chosen: Option<TaskId>)     // a woken worker has the lock again
    | Expire(w: nat)                             // an extra worker's wait times out
    | Leave(w: nat)                              // a timed-out worker has the lock again
    | Finish(w: nat)                             // a task returns
    | SpuriousWorker(w: nat)
    | SpuriousSubmitter(t: TaskId)

  function Initial(): State { State(0, 0, None, [], [], [], {}) }

  predicate WorkerIs(s: State, w: nat, status: Status) { w < |s.workers| && s.workers[w].status == status }
  predicate SubmitterIs(s: State, t: TaskId, status: Submitter) { t < |s.submitters| && s.submitters[t] == status }

  /** `notify_one` on `task_is_some` must pick a waiting worker if there is one. */
  ghost predicate PicksWorker(s: State, chosen: Option<nat>) {
    match chosen
    case Some(w) => WorkerIs(s, w, Waiting)
    case None => forall w: nat :: !WorkerIs(s, w, Waiting)
  }

  /** `notify_one` on `task_is_none` must pick a blocked submitter if there is one. */
  ghost predicate PicksSubmitter(s: State, chosen: Option<TaskId>) {
    match chosen
    case Some(t) => SubmitterIs(s, t, Blocked)
    case None => forall t: TaskId :: !SubmitterIs(s, t, Blocked)
  }

  ghost predicate Enabled(s: State, step: Step) {
    match step
    case NewTask => true
    case Submit(t, chosen) =>
      && (SubmitterIs(s, t, Wanting) || SubmitterIs(s, t, Notified))
      && (s.slot.None? && s.idle != 0 ==> PicksWorker(s, chosen))
    case Enter(w, chosen) => WorkerIs(s, w, Starting) && (s.slot.Some? ==> PicksSubmitter(s, chosen))
    case Resume(w, chosen) => WorkerIs(s, w, Woken) && PicksSubmitter(s, chosen)
    case Expire(w) => WorkerIs(s, w, Waiting) && !s.workers[w].isCore
    case Leave(w) => WorkerIs(s, w, TimedOut)
    case Finish(w) => w < |s.workers| && s.workers[w].status.Running?
    case SpuriousWorker(w) => WorkerIs(s, w, Waiting)
    case SpuriousSubmitter(t) => SubmitterIs(s, t, Blocked)
  }

  function SetWorker(s: State, w: nat, status: Status): State
    requires w < |s.workers|
  {
    s.(workers := s.workers[w := s.workers[w].(status := status)])
  }

  function WakeWorker(s: State, chosen: Option<nat>): State
    requires chosen.Some? ==> chosen.value < |s.workers|
  {
    if chosen.Some? then SetWorker(s, chosen.value, Woken) else s
  }

  function WakeSubmitter(s: State, chosen: Option<TaskId>): State
    requires chosen.Some? ==> chosen.value < |s.submitters|
  {
    if chosen.Some? then s.(submitters := s.submitters[chosen.value := Notified]) else s
  }

  /** `exec_task`: wait while the slot is taken, else place the task and find it a worker. */
  function DoSubmit(s: State, t: TaskId, chosen: Option<nat>): State
    requires Enabled(s, Submit(t, chosen))
  {
    if s.slot.Some? then
      s.(submitters := s.submitters[t := Blocked])
    else
      var placed := s.(slot := Some(t), submitters := s.submitters[t := Placed]);
      if s.idle == 0 then
        var total := s.total + 1;
        placed.(total := total, workers := s.workers + [Worker(total <= CORE_POOL_SIZE, Starting)])
      else
        WakeWorker(placed, chosen)
  }

  /** Empty the slot (it may be empty already) and tell one submitter. */
  function DoTake(s: State, w: nat, chosen: Option<TaskId>): State
    requires w < |s.workers|
    requires chosen.Some? ==> chosen.value < |s.submitters|
  {
    var taken := WakeSubmitter(s.(slot := None), chosen);
    match s.slot
    case Some(t) => SetWorker(taken.(started := s.started + [t]), w, Running(t))
    case None => SetWorker(taken, w, Starting)
  }

  function Apply(s: State, step: Step): State
    requires Enabled(s, step)
  {
    match step
    case NewTask => s.(submitters := s.submitters + [Wanting])
    case Submit(t, chosen) => DoSubmit(s, t, chosen)
    case Enter(w, chosen) =>
      if s.slot.None? then SetWorker(s.(idle := s.idle + 1), w, Waiting) else DoTake(s, w, chosen)
    case Resume(w, chosen) => DoTake(s.(idle := s.idle - 1), w, chosen)
    case Expire(w) => SetWorker(s, w, TimedOut)
    case Leave(w) => SetWorker(s.(idle := s.idle - 1, total := s.total - 1), w, Exited)
    case Finish(w) => SetWorker(s.(finished := s.finished + {s.workers[w].status.task}), w, Starting)
    case SpuriousWorker(w) => SetWorker(s, w, Woken)
    case SpuriousSubmitter(t) => s.(submitters := s.submitters[t := Notified])
  }

  ghost predicate IsRun(s: State, steps: seq<Step>)
    decreases |steps|
  {
    steps == [] || (Enabled(s, steps[0]) && IsRun(Apply(s, steps[0]), steps[1..]))
  }

  ghost function After(s: State, steps: seq<Step>): State
    requires IsRun(s, steps)
    decreases |steps|
  {
    if steps == [] then s else After(Apply(s, steps[0]), steps[1..])
  }

  // ---------------------------------------------------------------------------------------
  // The invariant
  // ---------------------------------------------------------------------------------------

  function ParkedWeight(x: Worker): nat { if x.status in {Waiting, Woken, TimedOut} then 1 else 0 }
  function AliveWeight(x: Worker): nat { if x.status != Exited then 1 else 0 }
  function CoreWeight(x: Worker): nat { if x.isCore then 1 else 0 }

  /** The counters are exact: `idle` counts the parked workers, `total` the living ones, and
      the first three workers are the core ones. */
  ghost predicate CountsExact(idle: int, total: int, workers: seq<Worker>) {
    && idle == Sum(workers, ParkedWeight)
    && total == Sum(workers, AliveWeight)
    && Sum(workers, CoreWeight) == if total < CORE_POOL_SIZE then total else CORE_POOL_SIZE
  }

  /** Core workers never time out and never leave; there is no extra worker before three core ones. */
  ghost predicate CoreStays(workers: seq<Worker>) {
    && (forall w :: 0 <= w < |workers| && workers[w].isCore ==> workers[w].status !in {TimedOut, Exited})
    && (forall w :: 0 <= w < |workers| && !workers[w].isCore ==> Sum(workers, CoreWeight) == CORE_POOL_SIZE)
  }

  predicate IsRunning(s: State, t: TaskId) { exists w :: 0 <= w < |s.workers| && s.workers[w].status == Running(t) }

  predicate Active(x: Worker) { x.status.Starting? || x.status.Running? || x.status.Woken? }

  /** Where a submitted task can be. */
  datatype Place = ToBePlaced | InSlot | OnWorker | Done

  ghost predicate At(s: State, t: TaskId, p: Place) {
    match p
    case ToBePlaced => t < |s.submitters| && s.submitters[t] != Placed
    case InSlot => s.slot == Some(t)
    case OnWorker => IsRunning(s, t)
    case Done => t in s.finished
  }

  ghost predicate Somewhere(s: State, t: TaskId) { exists p :: At(s, t, p) }

  /** Exactly one place per submitted task and at most one worker per task. */
  ghost predicate Conserved(s: State) {
    && (forall t: TaskId :: Somewhere(s, t) <==> t < |s.submitters|)
    && (forall t: TaskId, p, q :: At(s, t, p) && At(s, t, q) ==> p == q)
    && (forall v, w | 0 <= v < |s.workers| && 0 <= w < |s.workers| ::
          s.workers[v].status.Running? && s.workers[v].status == s.workers[w].status ==> v == w)
  }

  /** The tasks started are exactly those running or finished, and none is started twice. */
  ghost predicate StartedOnce(s: State) {
    && (forall t: TaskId :: t in s.started <==> At(s, t, OnWorker) || At(s, t, Done))
    && (forall i, j :: 0 <= i < j < |s.started| ==> s.started[i] != s.started[j])
  }

  /** A task in the slot always has a worker on its way. */
  ghost predicate SlotServed(s: State) {
    s.slot.Some? ==> exists w :: 0 <= w < |s.workers| && Active(s.workers[w])
  }

  /** A blocked submitter always has a reason: the slot is full, or another submitter is about to act. */
  ghost predicate BlockedJustified(s: State) {
    (exists t: TaskId :: SubmitterIs(s, t, Blocked)) ==> s.slot.Some? || exists t: TaskId :: SubmitterIs(s, t, Notified)
  }

  ghost predicate Inv(s: State) {
    && CountsExact(s.idle, s.total, s.workers) && CoreStays(s.workers)
    && Conserved(s) && StartedOnce(s) && SlotServed(s) && BlockedJustified(s)
  }

  // ---------------------------------------------------------------------------------------
  // Every step keeps the invariant
  // ---------------------------------------------------------------------------------------

  ghost predicate CountsInv(s: State) { CountsExact(s.idle, s.total, s.workers) && CoreStays(s.workers) }

  /** Changing one worker keeps the counters exact if they move with it. */
  lemma CountsOfUpdate(idle: int, total: int, ws: seq<Worker>, w: nat, status: Status, idle': int, total': int)
    requires CountsExact(idle, total, ws) && CoreStays(ws) && w < |ws|
    requires ws[w].status != Exited
    requires ws[w].isCore ==> status !in {TimedOut, Exited}
    requires idle' - idle == ParkedWeight(ws[w].(status := status)) - ParkedWeight(ws[w])
    requires total' - total == AliveWeight(ws[w].(status := status)) - AliveWeight(ws[w])
    ensures CountsExact(idle', total', ws[w := ws[w].(status := status)])
    ensures CoreStays(ws[w := ws[w].(status := status)])
  {
    var x := ws[w].(status := status);
    SumUpdate(ws, w, x, ParkedWeight);
    SumUpdate(ws, w, x, AliveWeight);
    SumUpdate(ws, w, x, CoreWeight);
    if status == Exited {
      ExtraMeansMoreThanCore(ws, w);
    }
  }

  lemma CountsOfSpawn(idle: int, total: int, ws: seq<Worker>)
    requires CountsExact(idle, total, ws) && CoreStays(ws)
    ensures CountsExact(idle, total + 1, ws + [Worker(total + 1 <= CORE_POOL_SIZE, Starting)])
    ensures CoreStays(ws + [Worker(total + 1 <= CORE_POOL_SIZE, Starting)])
  {
    var x := Worker(total + 1 <= CORE_POOL_SIZE, Starting);
    SumAppend(ws, x, ParkedWeight);
    SumAppend(ws, x, AliveWeight);
    SumAppend(ws, x, CoreWeight);
  }

  function AliveExtraWeight(x: Worker): nat { if !x.isCore && x.status != Exited then 1 else 0 }

  lemma {:induction false} AliveSplits(ws: seq<Worker>)
    requires forall w :: 0 <= w < |ws| && ws[w].isCore ==> ws[w].status != Exited
    ensures Sum(ws, AliveWeight) == Sum(ws, CoreWeight) + Sum(ws, AliveExtraWeight)
  {
    if ws != [] {
      AliveSplits(ws[..|ws| - 1]);
    }
  }

  /** A living extra worker means that more than three workers live. */
  lemma ExtraMeansMoreThanCore(ws: seq<Worker>, w: nat)
    requires CoreStays(ws) && w < |ws| && !ws[w].isCore && ws[w].status != Exited
    ensures Sum(ws, AliveWeight) > CORE_POOL_SIZE
  {
    AliveSplits(ws);
    SumAtLeast(ws, w, AliveExtraWeight);
  }

  lemma CountsStep(s: State, step: Step)
    requires CountsInv(s) && Enabled(s, step)
    ensures CountsInv(Apply(s, step))
  {
    match step
    case NewTask =>
    case Submit(t, chosen) =>
      if s.slot.None? {
        if s.idle == 0 {
          CountsOfSpawn(s.idle, s.total, s.workers);
        } else if chosen.Some? {
          CountsOfUpdate(s.idle, s.total, s.workers, chosen.value, Woken, s.idle, s.total);
        }
      }
    case Enter(w, chosen) =>
      if s.slot.None? {
        CountsOfUpdate(s.idle, s.total, s.workers, w, Waiting, s.idle + 1, s.total);
      } else {
        CountsOfUpdate(s.idle, s.total, s.workers, w, Running(s.slot.value), s.idle, s.total);
      }
    case Resume(w, chosen) =>
      var now := if s.slot.None? then Starting else Running(s.slot.value);
      CountsOfUpdate(s.idle, s.total, s.workers, w, now, s.idle - 1, s.total);
    case Expire(w) => CountsOfUpdate(s.idle, s.total, s.workers, w, TimedOut, s.idle, s.total);
    case Leave(w) => CountsOfUpdate(s.idle, s.total, s.workers, w, Exited, s.idle - 1, s.total - 1);
    case Finish(w) => CountsOfUpdate(s.idle, s.total, s.workers, w, Starting, s.idle, s.total);
    case SpuriousWorker(w) => CountsOfUpdate(s.idle, s.total, s.workers, w, Woken, s.idle, s.total);
    case SpuriousSubmitter(t) =>
  }

  /** A task in the slot keeps having a worker on its way, even if the only parked workers at
      the time of its submission have timed out and are about to leave. */
  lemma ServedStep(s: State, step: Step)
    requires CountsInv(s) && SlotServed(s) && Enabled(s, step)
    ensures SlotServed(Apply(s, step))
  {
    var s' := Apply(s, step);
    if step.Submit? && s.slot.None? {
      if s.idle == 0 {
        assert Active(s'.workers[|s.workers|]);
      } else if step.chosen.Some? {
        assert Active(s'.workers[step.chosen.value]);
      } else {
        NobodyWaitingMeansSomeoneActive(s);
      }
    } else if s.slot.Some? && s'.slot.Some? {
      var w :| 0 <= w < |s.workers| && Active(s.workers[w]);
      assert Active(s'.workers[w]);
    }
  }

  /** If workers are parked but none is waiting, some worker is active: a parked one is either
      woken, or timed out and hence extra, and then a core worker exists and is not parked. */
  lemma NobodyWaitingMeansSomeoneActive(s: State)
    requires CountsInv(s) && s.idle != 0
    requires forall w: nat :: !WorkerIs(s, w, Waiting)
    ensures exists w :: 0 <= w < |s.workers| && Active(s.workers[w])
  {
    var p := SumPositive(s.workers, ParkedWeight);
    assert !WorkerIs(s, p, Waiting);
    if !Active(s.workers[p]) {
      var c := SumPositive(s.workers, CoreWeight);
      assert !WorkerIs(s, c, Waiting);
      assert Active(s.workers[c]);
    }
  }

  lemma BlockedStep(s: State, step: Step)
    requires BlockedJustified(s) && Enabled(s, step)
    ensures BlockedJustified(Apply(s, step))
  {
    var s' := Apply(s, step);
    if t :| SubmitterIs(s', t, Blocked) {
      if s'.slot.None? && !step.SpuriousSubmitter? {
        assert SubmitterIs(s, t, Blocked);
        if s.slot.Some? {
          assert SubmitterIs(s', step.chosen.value, Notified);
        } else {
          var n: TaskId :| SubmitterIs(s, n, Notified);
          assert SubmitterIs(s', n, Notified);
        }
      } else if step.SpuriousSubmitter? {
        assert SubmitterIs(s', step.t, Notified);
      }
    }
  }

  /** The one task, if any, that a step moves, and the place it moves to. */
  datatype Move = Still | Moved(t: TaskId, to: Place)

  ghost function MoveOf(s: State, step: Step): Move
    requires Enabled(s, step)
  {
    match step
    case NewTask => Moved(|s.submitters|, ToBePlaced)
    case Submit(t, _) => if s.slot.None? then Moved(t, InSlot) else Still
    case Enter(_, _) => if s.slot.Some? then Moved(s.slot.value, OnWorker) else Still
    case Resume(_, _) => if s.slot.Some? then Moved(s.slot.value, OnWorker) else Still
    case Finish(w) => Moved(s.workers[w].status.task, Done)
    case _ => Still
  }

  lemma RunningAfterSetWorker(s: State, w: nat, status: Status)
    requires w < |s.workers| && !s.workers[w].status.Running?
    ensures forall t :: IsRunning(SetWorker(s, w, status), t) <==> IsRunning(s, t) || status == Running(t)
  {
    var s' := SetWorker(s, w, status);
    forall t: TaskId
      ensures IsRunning(s', t) <==> IsRunning(s, t) || status == Running(t)
    {
      if status == Running(t) {
        assert s'.workers[w].status == Running(t);
      }
      if v :| 0 <= v < |s.workers| && s.workers[v].status == Running(t) {
        assert s'.workers[v].status == Running(t);
      }
    }
  }

  lemma RunningAfterFinish(s: State, w: nat)
    requires Conserved(s) && w < |s.workers| && s.workers[w].status.Running?
    ensures forall t :: IsRunning(SetWorker(s, w, Starting), t) <==> IsRunning(s, t) && t != s.workers[w].status.task
  {
    var s' := SetWorker(s, w, Starting);
    forall t: TaskId
      ensures IsRunning(s', t) <==> IsRunning(s, t) && t != s.workers[w].status.task
    {
      if IsRunning(s, t) {
        var v :| 0 <= v < |s.workers| && s.workers[v].status == Running(t);
        assert v != w ==> s'.workers[v].status == Running(t);
      }
    }
  }

  lemma RunningAfterSpawn(s: State, x: Worker)
    requires !x.status.Running?
    ensures forall t :: IsRunning(s.(workers := s.workers + [x]), t) <==> IsRunning(s, t)
  {
    var s' := s.(workers := s.workers + [x]);
    forall t: TaskId
      ensures IsRunning(s', t) <==> IsRunning(s, t)
    {
      if v :| 0 <= v < |s.workers| && s.workers[v].status == Running(t) {
        assert s'.workers[v].status == Running(t);
      }
    }
  }

  /** Which tasks run after a step. */
  lemma RunningStep(s: State, step: Step)
    requires Conserved(s) && Enabled(s, step)
    ensures forall t :: IsRunning(Apply(s, step), t) <==>
              MoveOf(s, step) == Moved(t, OnWorker) || (IsRunning(s, t) && MoveOf(s, step) != Moved(t, Done))
  {
    match step
    case NewTask =>
    case Submit(t, chosen) =>
      if s.slot.None? {
        if s.idle == 0 {
          RunningAfterSpawn(s, Worker(s.total + 1 <= CORE_POOL_SIZE, Starting));
        } else if chosen.Some? {
          RunningAfterSetWorker(s, chosen.value, Woken);
        }
      }
    case Enter(w, _) => RunningAfterSetWorker(s, w, if s.slot.None? then Waiting else Running(s.slot.value));
    case Resume(w, _) => RunningAfterSetWorker(s, w, if s.slot.None? then Starting else Running(s.slot.value));
    case Expire(w) => RunningAfterSetWorker(s, w, TimedOut);
    case Leave(w) => RunningAfterSetWorker(s, w, Exited);
    case Finish(w) => RunningAfterFinish(s, w);
    case SpuriousWorker(w) => RunningAfterSetWorker(s, w, Woken);
    case SpuriousSubmitter(t) =>
  }

  /** A step takes at most one task from its place to another and leaves all others alone. */
  lemma PlacesStep(s: State, step: Step)
    requires Conserved(s) && Enabled(s, step)
    ensures forall t: TaskId, p :: At(Apply(s, step), t, p) <==>
              if MoveOf(s, step).Moved? && MoveOf(s, step).t == t then p == MoveOf(s, step).to else At(s, t, p)
  {
    RunningStep(s, step);
    var s', m := Apply(s, step), MoveOf(s, step);
    forall t: TaskId, p
      ensures At(s', t, p) <==> if m.Moved? && m.t == t then p == m.to else At(s, t, p)
    {
      if m.Moved? && m.t == t {
        MovedFrom(s, step);
        assert At(s, t, p) <==> Previous(m.to) == Some(p);
      }
    }
  }

  /** The life of a task: it is to be placed, in the slot, on a worker, done. */
  function Previous(p: Place): Option<Place> {
    match p
    case ToBePlaced => None
    case InSlot => Some(ToBePlaced)
    case OnWorker => Some(InSlot)
    case Done => Some(OnWorker)
  }

  /** Where the moved task comes from: one step further back in its life. */
  lemma MovedFrom(s: State, step: Step)
    requires Conserved(s) && Enabled(s, step) && MoveOf(s, step).Moved?
    ensures
      var m := MoveOf(s, step);
      forall p :: At(s, m.t, p) <==> Previous(m.to) == Some(p)
  {
    var m := MoveOf(s, step);
    match step
    case NewTask => assert !Somewhere(s, m.t);
    case Submit(t, _) => assert At(s, t, ToBePlaced);
    case Enter(_, _) => assert At(s, m.t, InSlot);
    case Resume(_, _) => assert At(s, m.t, InSlot);
    case Finish(w) => assert At(s, m.t, OnWorker);
  }

  lemma ConservedStep(s: State, step: Step)
    requires Conserved(s) && Enabled(s, step)
    ensures Conserved(Apply(s, step))
  {
    PlacesStep(s, step);
    var s', m := Apply(s, step), MoveOf(s, step);
    forall t: TaskId
      ensures Somewhere(s', t) <==> t < |s'.submitters|
    {
      if m.Moved? {
        MovedFrom(s, step);
        assert At(s', m.t, m.to);
        assert m.to != ToBePlaced ==> At(s, m.t, Previous(m.to).value);
      }
      if Somewhere(s, t) {
        var p :| At(s, t, p);
        assert m.Still? || m.t != t ==> At(s', t, p);
      }
    }
    forall v, w | 0 <= v < |s'.workers| && 0 <= w < |s'.workers|
                  && s'.workers[v].status.Running? && s'.workers[v].status == s'.workers[w].status
      ensures v == w
    {
      var t := s'.workers[v].status.task;
      if m == Moved(t, OnWorker) {
        MovedFrom(s, step);
        assert !At(s, t, OnWorker);
      }
    }
  }

  lemma StartedStep(s: State, step: Step)
    requires Conserved(s) && StartedOnce(s) && Enabled(s, step)
    ensures StartedOnce(Apply(s, step))
  {
    PlacesStep(s, step);
    var m := MoveOf(s, step);
    if m.Moved? {
      MovedFrom(s, step);
      assert m.to == OnWorker ==> !At(s, m.t, OnWorker) && !At(s, m.t, Done);
      assert m.to == Done ==> At(s, m.t, OnWorker);
    }
  }

  // ---------------------------------------------------------------------------------------
  // Whole runs: safety
  // ---------------------------------------------------------------------------------------

  lemma StepKeepsInv(s: State, step: Step)
    requires Inv(s) && Enabled(s, step)
    ensures Inv(Apply(s, step))
  {
    CountsStep(s, step);
    ConservedStep(s, step);
    StartedStep(s, step);
    ServedStep(s, step);
    BlockedStep(s, step);
  }

  lemma {:induction false} RunKeepsInv(s: State, steps: seq<Step>)
    requires Inv(s) && IsRun(s, steps)
    ensures Inv(After(s, steps))
    decreases |steps|
  {
    if steps != [] {
      StepKeepsInv(s, steps[0]);
      RunKeepsInv(Apply(s, steps[0]), steps[1..]);
    }
  }

  /** Every reachable state satisfies the invariant: the counters are exact, each submitted task
      is in exactly one place and started at most once, a task in the slot has a worker on its
      way, and a blocked submitter has a reason. */
  lemma ReachableInv(steps: seq<Step>)
    requires IsRun(Initial(), steps)
    ensures Inv(After(Initial(), steps))
  {
    RunKeepsInv(Initial(), steps);
  }

  /** The slot is never overwritten: what was in it stays or is handed to the acting worker. */
  lemma SlotNeverOverwritten(s: State, step: Step)
    requires Inv(s) && Enabled(s, step) && s.slot.Some?
    ensures Apply(s, step).slot == s.slot ||
            (Apply(s, step).slot == None && At(Apply(s, step), s.slot.value, OnWorker))
  {
    PlacesStep(s, step);
  }

  /** In a reachable state no worker can be both needed and gone: a full slot with nobody active
      does not occur, whatever the extra workers' time-outs did. */
  lemma TaskNeverStranded(steps: seq<Step>)
    requires IsRun(Initial(), steps)
    ensures After(Initial(), steps).slot.Some? ==>
              exists w :: 0 <= w < |After(Initial(), steps).workers| && Active(After(Initial(), steps).workers[w])
  {
    ReachableInv(steps);
  }

  // ---------------------------------------------------------------------------------------
  // Whole runs: every task gets done
  // ---------------------------------------------------------------------------------------

  /** Steps other than new submissions and spurious wake-ups. */
  predicate Quiet(step: Step) { !step.NewTask? && !step.SpuriousWorker? && !step.SpuriousSubmitter? }

  function PendingWeight(x: Submitter): nat { if x != Placed then 3 else 0 }
  function RunningWeight(x: Worker): nat { if x.status.Running? then 1 else 0 }
  function SubmitterEffort(x: Submitter): nat {
    match x case Wanting => 2 case Notified => 1 case Blocked => 0 case Placed => 0
  }
  function WorkerEffort(x: Worker): nat {
    match x.status
    case Woken => 5
    case Starting => 3
    case Waiting => 2
    case TimedOut => 1
    case Running(_) => 0
    case Exited => 0
  }

  function SubmitterMeasure(x: Submitter): nat { 4 * PendingWeight(x) + SubmitterEffort(x) }
  function WorkerMeasure(x: Worker): nat { 4 * RunningWeight(x) + WorkerEffort(x) }

  /** An upper bound on the quiet steps left. */
  function Measure(s: State): nat {
    Sum(s.submitters, SubmitterMeasure) + (if s.slot.Some? then 8 else 0) + Sum(s.workers, WorkerMeasure)
  }

  lemma MeasureDrops(s: State, step: Step)
    requires Enabled(s, step) && Quiet(step)
    ensures Measure(Apply(s, step)) < Measure(s)
  {
    match step
    case Submit(t, chosen) => SubmitDrops(s, t, chosen);
    case Enter(w, chosen) =>
      if s.slot.None? {
        SumUpdate(s.workers, w, s.workers[w].(status := Waiting), WorkerMeasure);
      } else {
        TakeDrops(s, w, chosen);
      }
    case Resume(w, chosen) => TakeDrops(s.(idle := s.idle - 1), w, chosen);
    case Expire(w) => SumUpdate(s.workers, w, s.workers[w].(status := TimedOut), WorkerMeasure);
    case Leave(w) => SumUpdate(s.workers, w, s.workers[w].(status := Exited), WorkerMeasure);
    case Finish(w) => SumUpdate(s.workers, w, s.workers[w].(status := Starting), WorkerMeasure);
  }

  lemma SubmitDrops(s: State, t: TaskId, chosen: Option<nat>)
    requires Enabled(s, Submit(t, chosen))
    ensures Measure(DoSubmit(s, t, chosen)) < Measure(s)
  {
    SumUpdate(s.submitters, t, if s.slot.Some? then Blocked else Placed, SubmitterMeasure);
    if s.slot.None? {
      if s.idle == 0 {
        SumAppend(s.workers, Worker(s.total + 1 <= CORE_POOL_SIZE, Starting), WorkerMeasure);
      } else if chosen.Some? {
        SumUpdate(s.workers, chosen.value, s.workers[chosen.value].(status := Woken), WorkerMeasure);
      }
    }
  }

  lemma TakeDrops(s: State, w: nat, chosen: Option<TaskId>)
    requires WorkerIs(s, w, Woken) || (WorkerIs(s, w, Starting) && s.slot.Some?)
    requires chosen.Some? ==> SubmitterIs(s, chosen.value, Blocked)
    ensures Measure(DoTake(s, w, chosen)) < Measure(s)
  {
    var status := if s.slot.Some? then Running(s.slot.value) else Starting;
    SumUpdate(s.workers, w, s.workers[w].(status := status), WorkerMeasure);
    if chosen.Some? {
      SumUpdate(s.submitters, chosen.value, Notified, SubmitterMeasure);
    }
  }

  /** Quiet runs are bounded. */
  lemma {:induction false} QuietRunIsBounded(s: State, steps: seq<Step>)
    requires IsRun(s, steps) && forall i :: 0 <= i < |steps| ==> Quiet(steps[i])
    ensures |steps| + Measure(After(s, steps)) <= Measure(s)
    decreases |steps|
  {
    if steps != [] {
      MeasureDrops(s, steps[0]);
      QuietRunIsBounded(Apply(s, steps[0]), steps[1..]);
    }
  }

  lemma ChooseSubmitter(s: State) returns (chosen: Option<TaskId>)
    ensures PicksSubmitter(s, chosen)
  {
    if t: TaskId :| SubmitterIs(s, t, Blocked) {
      chosen := Some(t);
    } else {
      chosen := None;
    }
  }

  lemma ChooseWorker(s: State) returns (chosen: Option<nat>)
    ensures PicksWorker(s, chosen)
  {
    if w: nat :| WorkerIs(s, w, Waiting) {
      chosen := Some(w);
    } else {
      chosen := None;
    }
  }

  /** No deadlock: while a submitted task is unfinished, a quiet step other than a time-out can be taken. */
  lemma UnfinishedMeansEnabled(s: State, t: TaskId) returns (step: Step)
    requires Inv(s) && t < |s.submitters| && t !in s.finished
    ensures Enabled(s, step) && Quiet(step) && !step.Expire? && !step.Leave?
  {
    assert Somewhere(s, t);
    var p :| At(s, t, p);
    var forSubmitter := ChooseSubmitter(s);
    var forWorker := ChooseWorker(s);
    if p == OnWorker {
      var w :| 0 <= w < |s.workers| && s.workers[w].status == Running(t);
      step := Finish(w);
    } else if s.slot.Some? {
      var w :| 0 <= w < |s.workers| && Active(s.workers[w]);
      match s.workers[w].status
      case Starting => step := Enter(w, forSubmitter);
      case Woken => step := Resume(w, forSubmitter);
      case Running(_) => step := Finish(w);
    } else if SubmitterIs(s, t, Wanting) {
      step := Submit(t, forWorker);
    } else {
      assert SubmitterIs(s, t, Blocked) || SubmitterIs(s, t, Notified);
      var n: TaskId :| SubmitterIs(s, n, Notified);
      step := Submit(n, forWorker);
    }
  }

  /** Liveness: from any reachable state, however the quiet steps are scheduled, the run stops
      after a bounded number of them, and where no quiet step is left every task is finished. */
  lemma QuietRunsFinishEverything(before: seq<Step>, steps: seq<Step>)
    requires IsRun(Initial(), before)
    requires IsRun(After(Initial(), before), steps) && forall i :: 0 <= i < |steps| ==> Quiet(steps[i])
    ensures |steps| <= Measure(After(Initial(), before))
    ensures
      var s := After(After(Initial(), before), steps);
      (forall step :: Quiet(step) ==> !Enabled(s, step)) ==> forall t: TaskId :: t < |s.submitters| ==> t in s.finished
  {
    var s0 := After(Initial(), before);
    ReachableInv(before);
    QuietRunIsBounded(s0, steps);
    RunKeepsInv(s0, steps);
    var s := After(s0, steps);
    if forall step :: Quiet(step) ==> !Enabled(s, step) {
      forall t: TaskId | t < |s.submitters|
        ensures t in s.finished
      {
        if t !in s.finished {
          var step := UnfinishedMeansEnabled(s, t);
          assert false;
        }
      }
    }
  }

  // ---------------------------------------------------------------------------------------
  // The guarantee is tight: a task may have to wait for a running one
  // ---------------------------------------------------------------------------------------

  lemma {:induction false} ExtendRun(s: State, steps: seq<Step>, step: Step)
    requires IsRun(s, steps) && Enabled(After(s, steps), step)
    ensures IsRun(s, steps + [step]) && After(s, steps + [step]) == Apply(After(s, steps), step)
    decreases |steps|
  {
    if steps == [] {
      assert [step][1..] == [];
    } else {
      ExtendRun(Apply(s, steps[0]), steps[1..], step);
      assert (steps + [step])[1..] == steps[1..] + [step];
    }
  }

  function Numbers(n: nat): seq<TaskId> { seq(n, i => i) }
  function RunningWorkers(n: nat): seq<Worker> { seq(n, i requires i >= 0 => Worker(i < CORE_POOL_SIZE, Running(i))) }
  function AllPlaced(n: nat): seq<Submitter> { seq(n, _ => Placed) }

  /** The state in which n workers run the first n tasks. */
  function AllRunning(n: nat): State {
    State(0, n, None, RunningWorkers(n), AllPlaced(n), Numbers(n), {})
  }

  lemma {:induction false} ReachAllRunning(n: nat) returns (steps: seq<Step>)
    ensures IsRun(Initial(), steps) && After(Initial(), steps) == AllRunning(n)
  {
    if n == 0 {
      steps := [];
    } else {
      steps := ReachAllRunning(n - 1);
      var s := AllRunning(n - 1);
      ExtendRun(Initial(), steps, NewTask);
      ExtendRun(Initial(), steps + [NewTask], Submit(n - 1, None));
      ExtendRun(Initial(), steps + [NewTask] + [Submit(n - 1, None)], Enter(n - 1, None));
      steps := steps + [NewTask] + [Submit(n - 1, None)] + [Enter(n - 1, None)];
      var s' := After(Initial(), steps);
      assert s'.workers == AllRunning(n).workers;
      assert s'.submitters == AllRunning(n).submitters;
      assert s'.started == AllRunning(n).started;
    }
  }

  /** A reachable state with a task in the slot where every living worker is busy with another
      task: the extra worker counted as idle at submission had timed out, so nobody was woken
      and no worker was created. "Running" cannot be dropped from `TaskNeverStranded`. */
  lemma TaskMayWaitForRunningTasks() returns (steps: seq<Step>)
    ensures IsRun(Initial(), steps)
    ensures
      var s := After(Initial(), steps);
      && s.slot == Some(4)
      && s.idle == 0
      && (forall w :: 0 <= w < |s.workers| ==> s.workers[w].status.Running? || s.workers[w].status.Exited?)
  {
    steps := ReachAllRunning(4);
    ExtendRun(Initial(), steps, Finish(3));
    steps := steps + [Finish(3)];
    ExtendRun(Initial(), steps, Enter(3, None));
    steps := steps + [Enter(3, None)];
    ExtendRun(Initial(), steps, Expire(3));
    steps := steps + [Expire(3)];
    ExtendRun(Initial(), steps, NewTask);
    steps := steps + [NewTask];
    ExtendRun(Initial(), steps, Submit(4, None));
    steps := steps + [Submit(4, None)];
    ExtendRun(Initial(), steps, Leave(3));
    steps := steps + [Leave(3)];
  }

  // ---------------------------------------------------------------------------------------
  // The code under the lock
  // ---------------------------------------------------------------------------------------

  /** What `exec_task` does for the task it has placed. */
  datatype Help = NewThread(isCore: bool) | NotifyOne

  /** The shared record, and (ghost) the threads around it. Each method is one critical section. */
  class Pool {
    var idleThreads: int
    var totalThreads: int
    var task: Option<TaskId>
    ghost var workers: seq<Worker>
    ghost var submitters: seq<Submitter>
    ghost var started: seq<TaskId>
    ghost var finished: set<TaskId>

    ghost function View(): State
      reads this
    {
      State(idleThreads, totalThreads, task, workers, submitters, started, finished)
    }

    constructor ()
      ensures View() == Initial() && Inv(View())
    {
      idleThreads, totalThreads, task := 0, 0, None;
      workers, submitters, started, finished := [], [], [], {};
    }

    /** `pool_loop` up to the wait, or to the release of the lock if a task is there. */
    method WorkerEnters(ghost w: nat, ghost chosen: Option<TaskId>) returns (taken: Option<TaskId>)
      requires Inv(View()) && Enabled(View(), Enter(w, chosen))
      modifies this
      ensures View() == Apply(old(View()), Enter(w, chosen)) && Inv(View())
      ensures taken == old(task) && task == None
    {
      StepKeepsInv(View(), Enter(w, chosen));
      idleThreads := idleThreads + 1;
      if task.None? {
        taken := None;
        workers := workers[w := workers[w].(status := Waiting)];
      } else {
        taken := TakeTask(w, chosen);
      }
    }

    /** `pool_loop` after the wait on `task_is_some` returned without timing out. */
    method WorkerResumes(ghost w: nat, ghost chosen: Option<TaskId>) returns (taken: Option<TaskId>)
      requires Inv(View()) && Enabled(View(), Resume(w, chosen))
      modifies this
      ensures View() == Apply(old(View()), Resume(w, chosen)) && Inv(View())
      ensures taken == old(task) && task == None
    {
      StepKeepsInv(View(), Resume(w, chosen));
      taken := TakeTask(w, chosen);
    }

    /** The tail of the critical section: take, notify, no longer idle. */
    method TakeTask(ghost w: nat, ghost chosen: Option<TaskId>) returns (taken: Option<TaskId>)
      requires w < |workers| && (chosen.Some? ==> chosen.value < |submitters|)
      modifies this
      ensures View() == DoTake(old(View()).(idle := old(idleThreads) - 1), w, chosen)
      ensures taken == old(task) && task == None
    {
      taken := task;
      task := None;
      if chosen.Some? {
        submitters := submitters[chosen.value := Notified];
      }
      idleThreads := idleThreads - 1;
      if taken.Some? {
        started := started + [taken.value];
        workers := workers[w := workers[w].(status := Running(taken.value))];
      } else {
        workers := workers[w := workers[w].(status := Starting)];
      }
    }

    /** `pool_loop` after the wait timed out: the thread ends without looking at the slot. */
    method WorkerLeaves(ghost w: nat)
      requires Inv(View()) && Enabled(View(), Leave(w))
      modifies this
      ensures View() == Apply(old(View()), Leave(w)) && Inv(View())
    {
      StepKeepsInv(View(), Leave(w));
      idleThreads := idleThreads - 1;
      totalThreads := totalThreads - 1;
      workers := workers[w := workers[w].(status := Exited)];
    }

    /** One turn of `exec_task_impl`: wait again, or place the task and get it a worker. */
    method SubmitTask(t: TaskId, ghost chosen: Option<nat>) returns (placed: bool, help: Option<Help>)
      requires Inv(View()) && Enabled(View(), Submit(t, chosen))
      modifies this
      ensures View() == Apply(old(View()), Submit(t, chosen)) && Inv(View())
      ensures placed == old(task).None? && placed == help.Some?
      ensures placed ==> task == Some(t)
      ensures placed ==> help.value ==
                         if old(idleThreads) == 0 then NewThread(old(totalThreads) < CORE_POOL_SIZE) else NotifyOne
    {
      hide Inv;
      StepKeepsInv(View(), Submit(t, chosen));
      if task.Some? {
        submitters := submitters[t := Blocked];
        return false, None;
      }
      task := Some(t);
      submitters := submitters[t := Placed];
      placed := true;
      if idleThreads == 0 {
        totalThreads := totalThreads + 1;
        help := Some(NewThread(totalThreads <= CORE_POOL_SIZE));
        workers := workers + [Worker(totalThreads <= CORE_POOL_SIZE, Starting)];
      } else {
        help := Some(NotifyOne);
        if chosen.Some? {
          workers := workers[chosen.value := workers[chosen.value].(status := Woken)];
        }
      }
    }
  }
}

/**
 The thread pool as an interleaving of atomic steps.

 A step is one critical section, one delivery of a notification, one task body, one join
 or one spurious wake-up. Posters that have left their critical section but not yet
 called cv_.notify_one are counted in `notifies`; the shutting-down thread is described
 by `closing`. The bookkeeping fields `accepted`, `dispatched`, `finished` and
 `discarded` record what happened and influence no step.
 */
module PoolProtocol {
  import opened PoolCore

  /** AtLock: awake and about to evaluate the wait predicate under the lock. */
  datatype Worker = AtLock | Asleep | Running(task: Task) | Finishing(task: Task) | Exited {
    predicate Holds() { Running? || Finishing? }
  }

  datatype Idler = Checking | Sleeping | Returned

  /** Joining(k): threads 0..k-1 have been joined. */
  datatype Closing = Open | NotifyDue | Joining(joined: nat) | Closed

  /** A pop of the queue, and how many tasks had been accepted by then. */
  datatype Dispatch = Dispatch(task: Task, acceptedBefore: nat)

  datatype State = State(
    core: Core,
    workers: seq<Worker>,
    idlers: seq<Idler>,
    notifies: nat,
    closing: Closing,
    drain: bool,
    accepted: seq<Task>,
    dispatched: seq<Dispatch>,
    finished: multiset<Task>,
    discarded: multiset<Task>)

  datatype Action =
    | Post(priority: int)
    | NotifyOne(w: nat)
    | NotifyNobody
    | SpuriousWake(w: nat)
    | GoToSleep(w: nat)
    | Take(w: nat, task: Task)
    | Leave(w: nat)
    | RunTask(w: nat)
    | Finish(w: nat)
    | CallWaitIdle
    | IdlerSleeps(i: nat)
    | IdlerReturns(i: nat)
    | IdlerSpuriousWake(i: nat)
    | BeginShutdown(drain: bool)
    | NotifyAll
    | JoinNext
    | EndShutdown

  /** The constructor refuses zero workers. */
  predicate Init(s: State) {
    && |s.workers| > 0
    && (forall k | 0 <= k < |s.workers| :: s.workers[k] == AtLock)
    && s == State(NEW_CORE, s.workers, [], 0, Open, true, [], [], multiset{}, multiset{})
  }

  predicate WorkerIs(s: State, w: nat, phase: Worker) {
    w < |s.workers| && s.workers[w] == phase
  }

  predicate Enabled(s: State, a: Action) {
    match a
    case Post(_) => s.core.accept && !s.core.stopping
    case NotifyOne(w) => s.notifies > 0 && WorkerIs(s, w, Asleep)
    case NotifyNobody => s.notifies > 0 && Asleep !in s.workers
    case SpuriousWake(w) => WorkerIs(s, w, Asleep)
    case GoToSleep(w) => WorkerIs(s, w, AtLock) && !s.core.stopping && s.core.queue == multiset{}
    case Take(w, t) => WorkerIs(s, w, AtLock) && IsTop(s.core.queue, t)
    case Leave(w) => WorkerIs(s, w, AtLock) && s.core.stopping && s.core.queue == multiset{}
    case RunTask(w) => w < |s.workers| && s.workers[w].Running?
    case Finish(w) => w < |s.workers| && s.workers[w].Finishing? && s.core.busy > 0
    case CallWaitIdle => true
    case IdlerSleeps(i) => i < |s.idlers| && s.idlers[i] == Checking && !Idle(s.core)
    case IdlerReturns(i) => i < |s.idlers| && s.idlers[i] == Checking && Idle(s.core)
    case IdlerSpuriousWake(i) => i < |s.idlers| && s.idlers[i] == Sleeping
    case BeginShutdown(_) => !s.core.stopping
    case NotifyAll => s.closing == NotifyDue
    case JoinNext => s.closing.Joining? && WorkerIs(s, s.closing.joined, Exited)
    case EndShutdown => s.closing == Joining(|s.workers|)
  }

  function WakeAll(ws: seq<Worker>): (r: seq<Worker>) {
    seq(|ws|, k requires 0 <= k < |ws| => if ws[k] == Asleep then AtLock else ws[k])
  }

  function WakeIdlers(ids: seq<Idler>): (r: seq<Idler>) {
    seq(|ids|, k requires 0 <= k < |ids| => if ids[k] == Sleeping then Checking else ids[k])
  }

  function Apply(s: State, a: Action): State
    requires Enabled(s, a)
  {
    match a
    case Post(p) =>
      s.(core := Pushed(s.core, p), notifies := s.notifies + 1,
         accepted := s.accepted + [Task(p, s.core.nextSeq)])
    case NotifyOne(w) => s.(notifies := s.notifies - 1, workers := s.workers[w := AtLock])
    case NotifyNobody => s.(notifies := s.notifies - 1)
    case SpuriousWake(w) => s.(workers := s.workers[w := AtLock])
    case GoToSleep(w) => s.(workers := s.workers[w := Asleep])
    case Take(w, t) =>
      s.(core := Taken(s.core, t), workers := s.workers[w := Running(t)],
         dispatched := s.dispatched + [Dispatch(t, |s.accepted|)])
    case Leave(w) => s.(workers := s.workers[w := Exited])
    case RunTask(w) => s.(workers := s.workers[w := Finishing(s.workers[w].task)])
    case Finish(w) =>
      var core := Released(s.core);
      s.(core := core, workers := s.workers[w := AtLock],
         finished := s.finished + multiset{s.workers[w].task},
         idlers := if Idle(core) then WakeIdlers(s.idlers) else s.idlers)
    case CallWaitIdle => s.(idlers := s.idlers + [Checking])
    case IdlerSleeps(i) => s.(idlers := s.idlers[i := Sleeping])
    case IdlerReturns(i) => s.(idlers := s.idlers[i := Returned])
    case IdlerSpuriousWake(i) => s.(idlers := s.idlers[i := Checking])
    case BeginShutdown(drain) =>
      s.(core := Stopped(s.core, drain), closing := NotifyDue, drain := drain,
         discarded := if drain then s.discarded else s.discarded + s.core.queue)
    case NotifyAll => s.(workers := WakeAll(s.workers), closing := Joining(0))
    case JoinNext => s.(closing := Joining(s.closing.joined + 1))
    case EndShutdown => s.(closing := Closed)
  }

  /** A run: every state follows from the one before by the action between them. */
  predicate Run(states: seq<State>, actions: seq<Action>) {
    && |states| == |actions| + 1
    && forall k | 0 <= k < |actions| ::
      Enabled(states[k], actions[k]) && states[k + 1] == Apply(states[k], actions[k])
  }

  /** The steps that move one worker, and the phase they move it to. */
  predicate Moves(a: Action) {
    a.NotifyOne? || a.SpuriousWake? || a.GoToSleep? || a.Take? || a.Leave? || a.RunTask? || a.Finish?
  }

  function PhaseAfter(s: State, a: Action): Worker
    requires Enabled(s, a) && Moves(a)
  {
    match a
    case GoToSleep(_) => Asleep
    case Take(_, t) => Running(t)
    case Leave(_) => Exited
    case RunTask(w) => Finishing(s.workers[w].task)
    case _ => AtLock
  }

  function Waking(ws: seq<Worker>): set<nat> {
    set w: nat | w < |ws| && ws[w] == AtLock
  }

  function Holders(ws: seq<Worker>): set<nat> {
    set w: nat | w < |ws| && ws[w].Holds()
  }

  /** How many workers hold t. */
  function HeldCopies(ws: seq<Worker>, t: Task): nat {
    multiset(ws)[Running(t)] + multiset(ws)[Finishing(t)]
  }

  ghost predicate ConservedTask(s: State, t: Task) {
    multiset(s.accepted)[t] == s.core.queue[t] + HeldCopies(s.workers, t) + s.finished[t] + s.discarded[t]
  }

  /** Each accepted task is in exactly one place, and each place holds only accepted tasks. */
  ghost predicate Conserved(s: State) {
    forall t: Task :: ConservedTask(s, t)
  }

  function Tasks(ds: seq<Dispatch>): seq<Task> {
    seq(|ds|, k requires 0 <= k < |ds| => ds[k].task)
  }

  /** Popped once, then held by one worker, then finished. */
  ghost predicate PoppedTask(s: State, t: Task) {
    multiset(Tasks(s.dispatched))[t] == HeldCopies(s.workers, t) + s.finished[t]
  }

  predicate Numbered(s: State) {
    && |s.accepted| == s.core.nextSeq
    && forall k | 0 <= k < |s.accepted| :: s.accepted[k].seqNo == k
  }

  /** Where the shutting-down thread is, and what that says about the workers. */
  predicate ClosingAgrees(s: State) {
    && (s.core.accept <==> !s.core.stopping)
    && (s.core.stopping <==> !s.closing.Open?)
    && (s.core.stopping && s.closing != NotifyDue ==> Asleep !in s.workers)
    && (s.closing.Joining? ==>
          s.closing.joined <= |s.workers| && forall k | 0 <= k < s.closing.joined :: s.workers[k] == Exited)
    && (s.closing == Closed ==> forall k | 0 <= k < |s.workers| :: s.workers[k] == Exited)
    && (Exited in s.workers ==> s.core.stopping && s.core.queue == multiset{})
    && (s.drain ==> s.discarded == multiset{})
    && (!s.core.stopping ==> s.drain)
  }

  /**
   No lost wake-up: while any worker sleeps, every queued task is matched by a worker
   that is already on its way to the lock or by a notify_one still to be delivered.
   */
  ghost predicate NoLostWakeup(s: State) {
    Asleep in s.workers ==> |s.core.queue| <= |Waking(s.workers)| + s.notifies
  }

  /** A dispatched task was above every task that was queued at that moment. */
  ghost predicate InOrder(s: State) {
    && (forall i | 0 <= i < |s.dispatched| ::
          s.dispatched[i].task.seqNo < s.dispatched[i].acceptedBefore <= s.core.nextSeq)
    && (forall i, j | 0 <= i < j < |s.dispatched| ::
          s.dispatched[j].task.seqNo < s.dispatched[i].acceptedBefore
          ==> Less(s.dispatched[j].task, s.dispatched[i].task))
    && (forall i, u | 0 <= i < |s.dispatched| && u in s.core.queue ::
          u.seqNo < s.dispatched[i].acceptedBefore ==> Less(u, s.dispatched[i].task))
  }

  ghost predicate Inv(s: State) {
    && |s.workers| > 0
    && Numbered(s)
    && Conserved(s)
    && (forall t: Task :: PoppedTask(s, t))
    && s.core.busy == |Holders(s.workers)|
    && ClosingAgrees(s)
    && NoLostWakeup(s)
    && InOrder(s)
  }

  /** No wait_idle caller sleeps through the moment it waits for. */
  predicate IdlersServed(s: State) {
    Idle(s.core) ==> Sleeping !in s.idlers
  }

  // ------------------------------------------------------------ preservation

  function One(b: bool): nat { if b then 1 else 0 }

  /** Moving one worker from one phase to another changes each count by that worker only. */
  lemma WakingCount(ws: seq<Worker>, w: nat, phase: Worker)
    requires w < |ws|
    ensures |Waking(ws[w := phase])| == |Waking(ws)| - One(ws[w] == AtLock) + One(phase == AtLock)
  {
    var rest := Waking(ws) - {w};
    assert Waking(ws) == if ws[w] == AtLock then rest + {w} else rest;
    assert Waking(ws[w := phase]) == if phase == AtLock then rest + {w} else rest;
  }

  lemma HoldersCount(ws: seq<Worker>, w: nat, phase: Worker)
    requires w < |ws|
    ensures |Holders(ws[w := phase])| == |Holders(ws)| - One(ws[w].Holds()) + One(phase.Holds())
  {
    var rest := Holders(ws) - {w};
    assert Holders(ws) == if ws[w].Holds() then rest + {w} else rest;
    assert Holders(ws[w := phase]) == if phase.Holds() then rest + {w} else rest;
  }

  lemma AcceptedAreDistinct(s: State, t: Task)
    requires Numbered(s)
    ensures multiset(s.accepted)[t] <= 1
    ensures multiset(s.accepted)[t] == 1 <==> t.seqNo < |s.accepted| && s.accepted[t.seqNo] == t
  {
    DistinctUpTo(s.accepted, |s.accepted|, t);
    assert s.accepted[..|s.accepted|] == s.accepted;
  }

  lemma {:induction false} DistinctUpTo(ts: seq<Task>, n: nat, t: Task)
    requires n <= |ts|
    requires forall k | 0 <= k < |ts| :: ts[k].seqNo == k
    ensures multiset(ts[..n])[t] == if t.seqNo < n && ts[t.seqNo] == t then 1 else 0
  {
    if n > 0 {
      DistinctUpTo(ts, n - 1, t);
      assert ts[..n] == ts[..n - 1] + [ts[n - 1]];
    }
  }

  lemma QueuedIsAccepted(s: State, t: Task)
    requires Numbered(s) && Conserved(s) && t in s.core.queue
    ensures s.core.queue[t] == 1 && t.seqNo < s.core.nextSeq
  {
    assert ConservedTask(s, t);
    AcceptedAreDistinct(s, t);
  }

  lemma StepNumbers(s: State, a: Action)
    requires Numbered(s) && Enabled(s, a)
    ensures Numbered(Apply(s, a))
  {
  }

  /** The last step of a run, and the run before it. */
  lemma RunSplit(states: seq<State>, actions: seq<Action>)
    requires Run(states, actions) && actions != []
    ensures var n := |actions|;
            && |states| == n + 1 && Run(states[..n], actions[..n - 1])
            && Enabled(states[n - 1], actions[n - 1]) && states[n] == Apply(states[n - 1], actions[n - 1])
  {
    hide Enabled, Apply;
  }

  lemma RunLength(states: seq<State>, actions: seq<Action>)
    requires Run(states, actions)
    ensures |states| == |actions| + 1
  {
    hide Enabled, Apply;
  }

  lemma WorkersAfter(s: State, a: Action)
    requires Enabled(s, a)
    ensures Moves(a) ==> a.w < |s.workers| && Apply(s, a).workers == s.workers[a.w := PhaseAfter(s, a)]
    ensures !Moves(a) && !a.NotifyAll? ==> Apply(s, a).workers == s.workers
  {
  }

  function Copies(w: Worker, t: Task): nat {
    if w == Running(t) || w == Finishing(t) then 1 else 0
  }

  lemma MoveHeld(ws: seq<Worker>, w: nat, phase: Worker, t: Task)
    requires w < |ws|
    ensures HeldCopies(ws[w := phase], t) == HeldCopies(ws, t) - Copies(ws[w], t) + Copies(phase, t)
  {
    assert multiset(ws[w := phase]) == multiset(ws) - multiset{ws[w]} + multiset{phase};
  }

  /** What a move leaves of everything but the workers. */
  lemma MoveElsewhere(s: State, a: Action, t: Task)
    requires Enabled(s, a) && Moves(a)
    ensures var s' := Apply(s, a);
            && s'.accepted == s.accepted && s'.discarded == s.discarded
            && s'.core.queue[t] == s.core.queue[t] - (if a.Take? && a.task == t then 1 else 0)
            && s'.finished[t] == s.finished[t] + (if a.Finish? && s.workers[a.w].task == t then 1 else 0)
  {
  }

  /** A move takes a task from the queue, hands it on, or finishes it. */
  lemma MoveCopies(s: State, a: Action, t: Task)
    requires Enabled(s, a) && Moves(a)
    ensures a.w < |s.workers|
    ensures Copies(PhaseAfter(s, a), t) - Copies(s.workers[a.w], t) ==
            (if a.Take? && a.task == t then 1 else 0) - (if a.Finish? && s.workers[a.w].task == t then 1 else 0)
  {
  }

  lemma MoveConservesTask(s: State, a: Action, t: Task)
    requires Enabled(s, a) && Moves(a)
    requires ConservedTask(s, t)
    ensures ConservedTask(Apply(s, a), t)
  {
    hide HeldCopies, Enabled, Apply, PhaseAfter, Copies;
    WorkersAfter(s, a);
    MoveElsewhere(s, a, t);
    MoveCopies(s, a, t);
    MoveHeld(s.workers, a.w, PhaseAfter(s, a), t);
  }

  lemma StepConservesTask(s: State, a: Action, t: Task)
    requires Enabled(s, a)
    requires ConservedTask(s, t)
    ensures ConservedTask(Apply(s, a), t)
  {
    hide HeldCopies;
    if Moves(a) {
      MoveConservesTask(s, a, t);
    } else {
      WorkersAfter(s, a);
      WakingKeepsHeld(s.workers, t);
    }
  }

  lemma TakePopsOnce(s: State, w: nat, t: Task, u: Task)
    requires Enabled(s, Take(w, t))
    ensures multiset(Tasks(Apply(s, Take(w, t)).dispatched))[u] ==
            multiset(Tasks(s.dispatched))[u] + if t == u then 1 else 0
  {
    assert Tasks(Apply(s, Take(w, t)).dispatched) == Tasks(s.dispatched) + [t];
  }

  lemma MovePopsOnce(s: State, a: Action, t: Task)
    requires Enabled(s, a) && Moves(a)
    requires PoppedTask(s, t)
    ensures PoppedTask(Apply(s, a), t)
  {
    hide HeldCopies, Tasks, Enabled, Apply, PhaseAfter, Copies;
    WorkersAfter(s, a);
    MoveElsewhere(s, a, t);
    MoveCopies(s, a, t);
    MoveHeld(s.workers, a.w, PhaseAfter(s, a), t);
    if a.Take? {
      TakePopsOnce(s, a.w, a.task, t);
    } else {
      OnlyTakeDispatches(s, a);
    }
  }

  lemma OnlyTakeDispatches(s: State, a: Action)
    requires Enabled(s, a) && !a.Take?
    ensures Apply(s, a).dispatched == s.dispatched
  {
  }

  lemma StepPopsOnce(s: State, a: Action, t: Task)
    requires Enabled(s, a)
    requires PoppedTask(s, t)
    ensures PoppedTask(Apply(s, a), t)
  {
    hide HeldCopies, Tasks;
    if Moves(a) {
      MovePopsOnce(s, a, t);
    } else {
      WorkersAfter(s, a);
      WakingKeepsHeld(s.workers, t);
    }
  }

  lemma StepConserves(s: State, a: Action)
    requires Conserved(s) && (forall t: Task :: PoppedTask(s, t)) && Enabled(s, a)
    ensures Conserved(Apply(s, a)) && forall t: Task :: PoppedTask(Apply(s, a), t)
  {
    forall t: Task ensures ConservedTask(Apply(s, a), t) && PoppedTask(Apply(s, a), t) {
      StepConservesTask(s, a, t);
      StepPopsOnce(s, a, t);
    }
  }

  lemma WakingKeepsHeld(ws: seq<Worker>, t: Task)
    ensures HeldCopies(WakeAll(ws), t) == HeldCopies(ws, t)
  {
    WakeUpTo(ws, |ws|, t);
    assert ws[..|ws|] == ws && WakeAll(ws)[..|ws|] == WakeAll(ws);
  }

  lemma {:induction false} WakeUpTo(ws: seq<Worker>, n: nat, t: Task)
    requires n <= |ws|
    ensures HeldCopies(WakeAll(ws)[..n], t) == HeldCopies(ws[..n], t)
  {
    if n > 0 {
      WakeUpTo(ws, n - 1, t);
      assert ws[..n] == ws[..n - 1] + [ws[n - 1]];
      assert WakeAll(ws)[..n] == WakeAll(ws)[..n - 1] + [WakeAll(ws)[n - 1]];
    }
  }

  lemma StepCountsBusy(s: State, a: Action)
    requires s.core.busy == |Holders(s.workers)| && Enabled(s, a)
    ensures var s' := Apply(s, a); s'.core.busy == |Holders(s'.workers)|
  {
    WorkersAfter(s, a);
    if Moves(a) {
      HoldersCount(s.workers, a.w, PhaseAfter(s, a));
    } else if a.NotifyAll? {
      assert Holders(WakeAll(s.workers)) == Holders(s.workers);
    }
  }

  lemma StillAsleep(ws: seq<Worker>, w: nat, phase: Worker)
    requires w < |ws|
    ensures Asleep in ws[w := phase] && phase != Asleep ==> Asleep in ws
    ensures Exited in ws[w := phase] && phase != Exited ==> Exited in ws
  {
    if Asleep in ws[w := phase] && phase != Asleep {
      var k :| 0 <= k < |ws| && ws[w := phase][k] == Asleep;
      assert ws[k] == Asleep;
    }
    if Exited in ws[w := phase] && phase != Exited {
      var k :| 0 <= k < |ws| && ws[w := phase][k] == Exited;
      assert ws[k] == Exited;
    }
  }

  lemma MoveKeepsClosing(s: State, a: Action)
    requires ClosingAgrees(s) && Enabled(s, a) && Moves(a)
    ensures ClosingAgrees(Apply(s, a))
  {
    WorkersAfter(s, a);
    StillAsleep(s.workers, a.w, PhaseAfter(s, a));
  }

  lemma StepKeepsClosing(s: State, a: Action)
    requires ClosingAgrees(s) && Enabled(s, a)
    ensures ClosingAgrees(Apply(s, a))
  {
    hide IsTop;
    if Moves(a) {
      MoveKeepsClosing(s, a);
    } else {
      WorkersAfter(s, a);
    }
  }

  lemma MoveLosesNoWakeup(s: State, a: Action)
    requires ClosingAgrees(s) && NoLostWakeup(s) && Enabled(s, a) && Moves(a)
    ensures NoLostWakeup(Apply(s, a))
  {
    WorkersAfter(s, a);
    WakingCount(s.workers, a.w, PhaseAfter(s, a));
    StillAsleep(s.workers, a.w, PhaseAfter(s, a));
    if a.Take? {
      assert |s.core.queue - multiset{a.task}| == |s.core.queue| - 1;
    }
  }

  lemma StepLosesNoWakeup(s: State, a: Action)
    requires ClosingAgrees(s) && NoLostWakeup(s) && Enabled(s, a)
    ensures NoLostWakeup(Apply(s, a))
  {
    if Moves(a) {
      MoveLosesNoWakeup(s, a);
    } else {
      WorkersAfter(s, a);
    }
  }

  lemma TakeKeepsOrder(s: State, w: nat, t: Task)
    requires Numbered(s) && Conserved(s) && InOrder(s) && Enabled(s, Take(w, t))
    ensures InOrder(Apply(s, Take(w, t)))
  {
    hide Conserved, Numbered, Less;
    var s' := Apply(s, Take(w, t));
    QueuedIsAccepted(s, t);
    AcceptedCount(s);
    forall u | u in s'.core.queue ensures u in s.core.queue && Less(u, t) {
      QueuedIsAccepted(s, u);
      LessIsStrictTotalOrder(u, t, t);
    }
  }

  lemma AcceptedCount(s: State)
    requires Numbered(s)
    ensures |s.accepted| == s.core.nextSeq
  {
  }

  lemma StepKeepsOrder(s: State, a: Action)
    requires Numbered(s) && Conserved(s) && InOrder(s) && Enabled(s, a)
    ensures InOrder(Apply(s, a))
  {
    if a.Take? {
      TakeKeepsOrder(s, a.w, a.task);
    } else {
      var s' := Apply(s, a);
      forall u | u in s'.core.queue
        ensures u in s.core.queue || u.seqNo == s.core.nextSeq
      {
      }
      assert s'.dispatched == s.dispatched && s'.core.nextSeq >= s.core.nextSeq;
    }
  }

  lemma InitHasInv(s: State)
    requires Init(s)
    ensures Inv(s) && IdlersServed(s)
  {
    assert Holders(s.workers) == {};
    forall t: Task ensures ConservedTask(s, t) && PoppedTask(s, t) {
      assert Running(t) !in s.workers && Finishing(t) !in s.workers;
    }
  }

  lemma StepKeepsInv(s: State, a: Action)
    requires Inv(s) && Enabled(s, a)
    ensures Inv(Apply(s, a))
  {
    StepNumbers(s, a);
    StepConserves(s, a);
    StepCountsBusy(s, a);
    StepKeepsClosing(s, a);
    StepLosesNoWakeup(s, a);
    StepKeepsOrder(s, a);
  }

  /** The invariant holds in every state of every run. */
  lemma {:induction false} RunKeepsInv(states: seq<State>, actions: seq<Action>, k: nat)
    requires Run(states, actions) && Init(states[0]) && k < |states|
    ensures Inv(states[k])
  {
    if k == 0 {
      InitHasInv(states[0]);
    } else {
      RunKeepsInv(states, actions, k - 1);
      StepKeepsInv(states[k - 1], actions[k - 1]);
    }
  }
}

/** What the invariant of `PoolProtocol` and one measure give over whole runs. */
module PoolTheorems {
  import opened PoolCore
  import opened PoolProtocol

  // ------------------------------------------------------------ conservation and order

  /** In every state of every run each accepted task is in exactly one place, and busy_ counts the holders. */
  lemma TasksAreConserved(states: seq<State>, actions: seq<Action>, k: nat, t: Task)
    requires Run(states, actions) && Init(states[0]) && k < |states|
    ensures var s := states[k];
      && s.core.busy == |Holders(s.workers)|
      && s.core.queue[t] + HeldCopies(s.workers, t) + s.finished[t] + s.discarded[t]
         == (if t in s.accepted then 1 else 0)
  {
    RunKeepsInv(states, actions, k);
    var s := states[k];
    assert ConservedTask(s, t);
    AcceptedAreDistinct(s, t);
  }

  /** When a shutdown's joins are over, nothing is queued or held; after a drain every accepted task ran, once. */
  lemma ShutdownLeavesNothing(states: seq<State>, actions: seq<Action>, k: nat)
    requires Run(states, actions) && Init(states[0]) && k < |states|
    requires states[k].closing == Closed
    ensures var s := states[k];
      && Idle(s.core)
      && s.finished + s.discarded == multiset(s.accepted)
      && multiset(Tasks(s.dispatched)) == s.finished
      && (s.drain ==> s.finished == multiset(s.accepted))
  {
    RunKeepsInv(states, actions, k);
    var s := states[k];
    ClosedIsIdle(s);
    NothingHeld(s);
  }

  lemma ClosedIsIdle(s: State)
    requires Inv(s) && s.closing == Closed
    ensures Idle(s.core)
  {
    assert s.workers[0] == Exited;
    assert Holders(s.workers) == {};
  }

  lemma NothingHeld(s: State)
    requires Inv(s) && Idle(s.core)
    ensures s.finished + s.discarded == multiset(s.accepted)
    ensures multiset(Tasks(s.dispatched)) == s.finished
  {
    forall t: Task
      ensures (s.finished + s.discarded)[t] == multiset(s.accepted)[t]
      ensures multiset(Tasks(s.dispatched))[t] == s.finished[t]
    {
      assert ConservedTask(s, t) && PoppedTask(s, t);
      forall k | 0 <= k < |s.workers| ensures !s.workers[k].Holds() {
        assert Holders(s.workers) == {};
        assert k !in Holders(s.workers);
      }
      assert Running(t) !in s.workers && Finishing(t) !in s.workers;
    }
  }

  /** wait_idle returns only when every task accepted so far has finished or was discarded. */
  lemma WaitIdleIsSound(states: seq<State>, actions: seq<Action>, k: nat)
    requires Run(states, actions) && Init(states[0]) && k < |actions|
    requires actions[k].IdlerReturns?
    ensures states[k].finished + states[k].discarded == multiset(states[k].accepted)
  {
    RunKeepsInv(states, actions, k);
    NothingHeld(states[k]);
  }

  /**
   Dispatch order over a whole run: if task j was already accepted when task i was popped
   and still came out later, then it ranks below i. Among equal priorities the pops are
   therefore in order of acceptance.
   */
  lemma DispatchOrder(states: seq<State>, actions: seq<Action>, k: nat, i: nat, j: nat)
    requires Run(states, actions) && Init(states[0]) && k < |states|
    requires i < j < |states[k].dispatched|
    ensures var first, later := states[k].dispatched[i], states[k].dispatched[j];
      && (later.task.seqNo < first.acceptedBefore ==> later.task.priority <= first.task.priority)
      && (later.task.priority == first.task.priority ==> first.task.seqNo < later.task.seqNo)
  {
    RunKeepsInv(states, actions, k);
  }

  // ------------------------------------------------------------ wake-ups

  predicate Awake(w: Worker) { w == AtLock || w.Holds() }

  /** A queued task always has an awake worker or a notification on its way. */
  lemma QueuedTaskIsCovered(states: seq<State>, actions: seq<Action>, k: nat)
    requires Run(states, actions) && Init(states[0]) && k < |states|
    ensures var s := states[k];
      s.core.queue != multiset{} ==>
        s.notifies > 0 || s.closing == NotifyDue || exists w | 0 <= w < |s.workers| :: Awake(s.workers[w])
  {
    RunKeepsInv(states, actions, k);
    var s := states[k];
    if s.core.queue != multiset{} && s.notifies == 0 {
      if Asleep in s.workers {
        assert Waking(s.workers) != {};
        var w :| w in Waking(s.workers);
        assert Awake(s.workers[w]);
      } else {
        assert s.workers[0] != Asleep && s.workers[0] != Exited;
        assert Awake(s.workers[0]);
      }
    }
  }

  /** Once the pool is stopping, a worker can be asleep only while notify_all is still to come. */
  lemma NobodySleepsThroughShutdown(states: seq<State>, actions: seq<Action>, k: nat)
    requires Run(states, actions) && Init(states[0]) && k < |states|
    ensures states[k].core.stopping && Asleep in states[k].workers ==> states[k].closing == NotifyDue
  {
    RunKeepsInv(states, actions, k);
  }

  // ------------------------------------------------------------ termination

  function Load(w: Worker, stopping: bool): nat {
    match w
    case AtLock => 1
    case Asleep => if stopping then 2 else 0
    case Running(_) => 3
    case Finishing(_) => 2
    case Exited => 0
  }

  function TotalLoad(ws: seq<Worker>, stopping: bool): nat {
    if ws == [] then 0 else TotalLoad(ws[..|ws| - 1], stopping) + Load(ws[|ws| - 1], stopping)
  }

  function ClosingLoad(c: Closing, workers: nat): nat {
    match c
    case Open => 2 * workers + workers + 3
    case NotifyDue => workers + 2
    case Joining(k) => if k <= workers then workers - k + 1 else 0
    case Closed => 0
  }

  /** The work left in a state. */
  function Measure(s: State): nat {
    3 * |s.core.queue| + TotalLoad(s.workers, s.core.stopping) + 2 * s.notifies
    + ClosingLoad(s.closing, |s.workers|)
  }

  /** The pool's own steps: everything but new posts, spurious wake-ups and wait_idle callers. */
  predicate Working(a: Action) {
    !a.Post? && !a.SpuriousWake? && !a.CallWaitIdle? && !a.IdlerSleeps? && !a.IdlerReturns? && !a.IdlerSpuriousWake?
  }

  lemma {:induction false} LoadAfterMove(ws: seq<Worker>, w: nat, phase: Worker, stopping: bool)
    requires w < |ws|
    ensures TotalLoad(ws[w := phase], stopping) + Load(ws[w], stopping)
         == TotalLoad(ws, stopping) + Load(phase, stopping)
  {
    var n := |ws| - 1;
    if w == n {
      assert ws[w := phase][..n] == ws[..n];
    } else {
      LoadAfterMove(ws[..n], w, phase, stopping);
      assert ws[w := phase][..n] == ws[..n][w := phase];
    }
  }

  lemma {:induction false} LoadAfterWaking(ws: seq<Worker>)
    ensures TotalLoad(WakeAll(ws), true) <= TotalLoad(ws, true)
  {
    if ws != [] {
      LoadAfterWaking(ws[..|ws| - 1]);
      assert WakeAll(ws)[..|ws| - 1] == WakeAll(ws[..|ws| - 1]);
    }
  }

  lemma {:induction false} LoadAfterStopping(ws: seq<Worker>)
    ensures TotalLoad(ws, true) <= TotalLoad(ws, false) + 2 * |ws|
  {
    if ws != [] {
      LoadAfterStopping(ws[..|ws| - 1]);
    }
  }

  /** What a move costs or gains outside the workers. */
  lemma MoveRest(s: State, a: Action)
    requires Enabled(s, a) && Moves(a)
    ensures var s' := Apply(s, a);
            && |s'.core.queue| == |s.core.queue| - (if a.Take? then 1 else 0)
            && s'.notifies == s.notifies - (if a.NotifyOne? then 1 else 0)
            && s'.closing == s.closing && s'.core.stopping == s.core.stopping && |s'.workers| == |s.workers|
  {
    if a.Take? {
      assert |s.core.queue - multiset{a.task}| == |s.core.queue| - 1;
    }
  }

  /** And on the worker that moves. */
  lemma MoveLoads(s: State, a: Action, stopping: bool)
    requires Enabled(s, a) && Moves(a) && stopping == s.core.stopping
    ensures a.w < |s.workers|
    ensures var before, after := Load(s.workers[a.w], stopping), Load(PhaseAfter(s, a), stopping);
            && (a.NotifyOne? || a.SpuriousWake? ==> after == before + 1 - Load(Asleep, stopping))
            && (a.Take? ==> after == before + 2)
            && (a.GoToSleep? || a.Leave? || a.RunTask? || a.Finish? ==> after == before - 1)
  {
  }

  lemma MoveUsesWork(s: State, a: Action)
    requires Enabled(s, a) && Moves(a)
    ensures Working(a) ==> Measure(Apply(s, a)) < Measure(s)
    ensures a.SpuriousWake? ==> Measure(Apply(s, a)) == Measure(s) + 1 - Load(Asleep, s.core.stopping)
  {
    hide TotalLoad, ClosingLoad, Load, Enabled, Apply, PhaseAfter;
    WorkersAfter(s, a);
    MoveRest(s, a);
    MoveLoads(s, a, s.core.stopping);
    AwakeningCosts(s.core.stopping);
    LoadAfterMove(s.workers, a.w, PhaseAfter(s, a), s.core.stopping);
  }

  lemma ClosingUsesWork(s: State, a: Action)
    requires ClosingAgrees(s) && Enabled(s, a)
    requires a.BeginShutdown? || a.NotifyAll? || a.JoinNext? || a.EndShutdown?
    ensures Measure(Apply(s, a)) < Measure(s)
  {
    hide TotalLoad;
    if a.NotifyAll? {
      LoadAfterWaking(s.workers);
    } else if a.BeginShutdown? {
      LoadAfterStopping(s.workers);
    }
  }

  lemma OtherWork(s: State, a: Action)
    requires Enabled(s, a) && !Moves(a) && (!Working(a) || a.NotifyNobody?)
    ensures Measure(Apply(s, a)) == Measure(s) + if a.Post? then 5 else if a.NotifyNobody? then -2 else 0
  {
    hide TotalLoad, ClosingLoad, IsTop;
  }

  /** Every step of the pool uses work up; a post adds 5 and a spurious wake-up at most 1. */
  lemma StepUsesWork(s: State, a: Action)
    requires ClosingAgrees(s) && Enabled(s, a)
    ensures Working(a) ==> Measure(Apply(s, a)) < Measure(s)
    ensures a.Post? ==> Measure(Apply(s, a)) == Measure(s) + 5
    ensures a.SpuriousWake? ==> Measure(Apply(s, a)) == Measure(s) + 1 - Load(Asleep, s.core.stopping)
    ensures !Working(a) && !a.Post? && !a.SpuriousWake? ==> Measure(Apply(s, a)) == Measure(s)
  {
    hide Enabled, Apply, Measure, ClosingAgrees, Load;
    if Moves(a) {
      MoveUsesWork(s, a);
    } else if Working(a) && !a.NotifyNobody? {
      ClosingUsesWork(s, a);
    } else {
      OtherWork(s, a);
    }
  }

  /** How many of the actions the predicate selects. */
  function Count(actions: seq<Action>, p: Action -> bool): nat {
    if actions == [] then 0
    else Count(actions[..|actions| - 1], p) + if p(actions[|actions| - 1]) then 1 else 0
  }

  /**
   A bound on every run: the pool's own steps are at most the work of the first state
   plus 5 for each post and 1 for each spurious wake-up. So once posts and spurious
   wake-ups cease, the pool comes to rest; a shutdown needs finitely many steps.
   */
  lemma {:induction false} RunIsBounded(states: seq<State>, actions: seq<Action>)
    requires Run(states, actions) && Inv(states[0])
    ensures Inv(states[|actions|])
    ensures Measure(states[|actions|]) + Count(actions, a => Working(a))
         <= Measure(states[0]) + 5 * Count(actions, (a: Action) => a.Post?)
            + Count(actions, (a: Action) => a.SpuriousWake?)
  {
    hide Run, Inv, Measure, Enabled, Apply, ClosingAgrees, Working;
    var n := |actions|;
    RunLength(states, actions);
    if n > 0 {
      RunSplit(states, actions);
      RunIsBounded(states[..n], actions[..n - 1]);
      StepKeepsInv(states[n - 1], actions[n - 1]);
      InvCloses(states[n - 1]);
      StepUsesWork(states[n - 1], actions[n - 1]);
      AwakeningCosts(states[n - 1].core.stopping);
      NotWorking(actions[n - 1]);
    }
  }

  lemma AwakeningCosts(stopping: bool)
    ensures Load(Asleep, stopping) == if stopping then 2 else 0
  {
  }

  lemma NotWorking(a: Action)
    ensures a.Post? || a.SpuriousWake? ==> !Working(a)
  {
  }

  /** Once stopping, nothing adds work: even the spurious wake-ups are bounded. */
  lemma {:induction false} ShutdownIsBounded(states: seq<State>, actions: seq<Action>)
    requires Run(states, actions) && Inv(states[0]) && states[0].core.stopping
    ensures Inv(states[|actions|]) && states[|actions|].core.stopping
    ensures Measure(states[|actions|]) + Count(actions, a => Working(a) || a.SpuriousWake?) <= Measure(states[0])
  {
    hide Run, Inv, Measure, Enabled, Apply, ClosingAgrees, Working;
    var n := |actions|;
    RunLength(states, actions);
    if n > 0 {
      RunSplit(states, actions);
      ShutdownIsBounded(states[..n], actions[..n - 1]);
      StepKeepsInv(states[n - 1], actions[n - 1]);
      InvCloses(states[n - 1]);
      StepUsesWork(states[n - 1], actions[n - 1]);
      AwakeningCosts(true);
      NotWorking(actions[n - 1]);
      StaysStopping(states[n - 1], actions[n - 1]);
    }
  }

  lemma StaysStopping(s: State, a: Action)
    requires ClosingAgrees(s) && Enabled(s, a) && s.core.stopping
    ensures Apply(s, a).core.stopping && !a.Post?
  {
  }

  /** What a worker that is not asleep does next; for one that has left, what its joiner does. */
  lemma WorkerStep(s: State, w: nat) returns (a: Action)
    requires Inv(s) && w < |s.workers| && s.workers[w] != Asleep
    requires s.workers[w] == Exited ==> s.closing == Joining(w)
    ensures Enabled(s, a) && Working(a)
  {
    match s.workers[w]
    case AtLock =>
      if s.core.queue != multiset{} {
        var t := TopExists(s.core.queue);
        a := Take(w, t);
      } else {
        a := if s.core.stopping then Leave(w) else GoToSleep(w);
      }
    case Running(_) => a := RunTask(w);
    case Finishing(_) => assert w in Holders(s.workers); a := Finish(w);
    case Exited => a := JoinNext;
  }

  /** While a task is queued or held, or a shutdown has not returned, the pool can take a step. */
  lemma WorkIsNeverStuck(s: State) returns (a: Action)
    requires Inv(s)
    requires !Idle(s.core) || (s.core.stopping && s.closing != Closed)
    ensures Enabled(s, a) && Working(a)
  {
    if s.closing == NotifyDue {
      a := NotifyAll;
    } else if s.core.stopping {
      if s.closing == Closed {
        ClosedIsIdle(s);
        assert false;
      }
      var k := s.closing.joined;
      if k == |s.workers| {
        a := EndShutdown;
      } else {
        a := WorkerStep(s, k);
      }
    } else if s.core.busy > 0 {
      assert Holders(s.workers) != {};
      var w :| w in Holders(s.workers);
      a := WorkerStep(s, w);
    } else if Waking(s.workers) != {} {
      var w :| w in Waking(s.workers);
      a := WorkerStep(s, w);
    } else {
      assert |Waking(s.workers)| == 0;
      assert s.workers[0] == Asleep by {
        assert 0 !in Waking(s.workers);
        assert Holders(s.workers) == {};
        assert 0 !in Holders(s.workers);
      }
      a := NotifyOne(0);
    }
  }

  /** A run that has come to rest has run every accepted task it did not discard, and any shutdown has returned. */
  lemma AtRestEverythingRan(states: seq<State>, actions: seq<Action>)
    requires Run(states, actions) && Init(states[0])
    requires forall a | Working(a) :: !Enabled(states[|actions|], a)
    ensures var s := states[|actions|];
      && Idle(s.core)
      && (s.core.stopping ==> s.closing == Closed)
      && s.finished + s.discarded == multiset(s.accepted)
  {
    RunKeepsInv(states, actions, |actions|);
    var s := states[|actions|];
    if !Idle(s.core) || (s.core.stopping && s.closing != Closed) {
      var _ := WorkIsNeverStuck(s);
    }
    NothingHeld(s);
  }

  // ------------------------------------------------------------ wait_idle

  /** The one step that can leave a wait_idle caller asleep on a true predicate. */
  predicate Strands(s: State, a: Action) {
    a == BeginShutdown(false) && s.core.busy == 0 && Sleeping in s.idlers
  }

  lemma StillSleeping(ids: seq<Idler>, i: nat, phase: Idler)
    requires i < |ids| && phase != Sleeping
    ensures Sleeping in ids[i := phase] ==> Sleeping in ids
  {
    if Sleeping in ids[i := phase] {
      var k :| 0 <= k < |ids| && ids[i := phase][k] == Sleeping;
      assert ids[k] == Sleeping;
    }
  }

  /** That step, and no other, breaks the promise to the idlers. */
  lemma StepServesIdlers(s: State, a: Action)
    requires IdlersServed(s) && Enabled(s, a)
    ensures IdlersServed(Apply(s, a)) <==> !Strands(s, a)
  {
    match a
    case Post(p) => assert Task(p, s.core.nextSeq) in Pushed(s.core, p).queue;
    case IdlerReturns(i) => StillSleeping(s.idlers, i, Returned);
    case IdlerSpuriousWake(i) => StillSleeping(s.idlers, i, Checking);
    case IdlerSleeps(i) => assert s.idlers[i := Sleeping][i] == Sleeping;
    case _ =>
  }

  /** wait_idle misses its moment in no run that never discards under a sleeping caller while no worker is busy. */
  lemma {:induction false} WaitIdleIsServed(states: seq<State>, actions: seq<Action>, k: nat)
    requires Run(states, actions) && Init(states[0]) && k < |states|
    requires forall j | 0 <= j < k :: !Strands(states[j], actions[j])
    ensures IdlersServed(states[k])
  {
    if k == 0 {
      InitHasInv(states[0]);
    } else {
      WaitIdleIsServed(states, actions, k - 1);
      StepServesIdlers(states[k - 1], actions[k - 1]);
    }
  }

  /** Caller i sleeps although the pool is idle and stopping. */
  predicate Stranded(s: State, i: nat) {
    s.core.stopping && Idle(s.core) && i < |s.idlers| && s.idlers[i] == Sleeping
  }

  lemma StepKeepsStranded(s: State, a: Action, i: nat)
    requires ClosingAgrees(s) && Enabled(s, a) && Stranded(s, i) && a != IdlerSpuriousWake(i)
    ensures Stranded(Apply(s, a), i)
  {
  }

  /** And a caller it does strand is never notified: without a spurious wake-up it sleeps for the rest of the run. */
  lemma {:induction false} StrandedForGood(states: seq<State>, actions: seq<Action>, i: nat)
    requires Run(states, actions) && Inv(states[0]) && Stranded(states[0], i)
    requires IdlerSpuriousWake(i) !in actions
    ensures Inv(states[|actions|]) && Stranded(states[|actions|], i)
  {
    hide *;
    var n := |actions|;
    RunLength(states, actions);
    if n > 0 {
      RunSplit(states, actions);
      StrandedForGood(states[..n], actions[..n - 1], i);
      StepKeepsInv(states[n - 1], actions[n - 1]);
      InvCloses(states[n - 1]);
      assert actions[n - 1] in actions;
      StepKeepsStranded(states[n - 1], actions[n - 1], i);
    }
  }

  lemma InvCloses(s: State)
    requires Inv(s)
    ensures ClosingAgrees(s)
  {
  }

  /** Such a run exists: post, wait_idle, shutdown(false), with one worker that never got the lock. */
  lemma WaitIdleCanBeStranded() returns (states: seq<State>, actions: seq<Action>)
    ensures Run(states, actions) && Init(states[0])
    ensures !IdlersServed(states[|actions|])
  {
    var s0 := State(NEW_CORE, [AtLock], [], 0, Open, true, [], [], multiset{}, multiset{});
    var s1 := Apply(s0, Post(0));
    var s2 := Apply(s1, CallWaitIdle);
    assert Task(0, 0) in s2.core.queue;
    var s3 := Apply(s2, IdlerSleeps(0));
    var s4 := Apply(s3, BeginShutdown(false));
    states, actions := [s0, s1, s2, s3, s4], [Post(0), CallWaitIdle, IdlerSleeps(0), BeginShutdown(false)];
    assert s4.idlers[0] == Sleeping;
  }
}

/** Restarts: how many there can be, who stays stopped, and when one Poll ends. */
module SupervisorRestarts {
  import opened Supervisor
  import opened SupervisorSteps
  import opened SupervisorTable

  /** How often process i has been started, by request or automatically. */
  function Launches(events: seq<Event>, i: nat): nat {
    if events == [] then 0
    else
      var last := events[|events| - 1];
      Launches(events[..|events| - 1], i) + if last.index == i && last.state == Starting then 1 else 0
  }

  lemma LaunchesThen(events: seq<Event>, e: Event, i: nat)
    ensures Launches(events + [e], i) == Launches(events, i) + if e.index == i && e.state == Starting then 1 else 0
  {
    assert (events + [e])[..|events|] == events;
  }

  function Max(a: nat, b: nat): nat {
    if a < b then b else a
  }

  /** From p to q under one spec: how far the restart count may have risen. */
  predicate WithinLimit(p: Process, q: Process) {
    && q.spec == p.spec
    && p.restartCount <= q.restartCount
    && (p.spec.restartLimit > 0 ==> q.restartCount <= Max(p.restartCount, p.spec.restartLimit))
    && (p.spec.restart == Never ==> q.restartCount == p.restartCount)
  }

  // ------------------------------------------------------------ one start, one exit

  function Budgeting(p: Process): (Spec, nat) {
    (p.spec, p.restartCount)
  }

  lemma StartOneLaunches(m: Manager, k: nat, fork: Forked, now: real, i: nat)
    requires k < |m.procs| && i < |m.procs|
    ensures Budgeting(StartOne(m, k, fork, now).procs[i]) == Budgeting(m.procs[i])
    ensures Launches(StartOne(m, k, fork, now).events, i) ==
            Launches(m.events, i) + if k == i && m.procs[k].pid <= 0 then 1 else 0
  {
    if m.procs[k].pid <= 0 {
      var e := Event(k, m.procs[k].pid, Starting);
      LaunchesThen(m.events, e, i);
      LaunchesThen(m.events + [e], if fork < 0 then Event(k, m.procs[k].pid, Failed) else Event(k, fork, Running), i);
    }
  }

  lemma ReapLaunches(m: Manager, k: nat, status: Status, i: nat)
    requires k < |m.procs| && i < |m.procs|
    ensures Budgeting(Reap(m, k, status).procs[i]) == Budgeting(m.procs[i])
    ensures Reap(m, k, status).procs[k].pid == -1
    ensures Launches(Reap(m, k, status).events, i) == Launches(m.events, i)
  {
    LaunchesThen(m.events, Event(k, m.procs[k].pid, EndState(m, m.procs[k], status)), i);
  }

  lemma HandleExitLaunches(m: Manager, pid: int, status: Status, fork: Forked, now: real, i: nat)
    requires i < |m.procs|
    ensures var r := HandleExit(m, pid, status, fork, now);
            && WithinLimit(m.procs[i], r.procs[i])
            && Launches(r.events, i) - Launches(m.events, i) == r.procs[i].restartCount - m.procs[i].restartCount
  {
    hide Launches, StartOne, Reap;
    var k := PidIndexFrom(m.procs, pid, 0);
    if k >= 0 {
      var m1 := Reap(m, k, status);
      ReapLaunches(m, k, status, k);
      ReapLaunches(m, k, status, i);
      if Restarts(m, m.procs[k], status) {
        var m2 := Put(m1, k, m1.procs[k].(restartCount := m.procs[k].restartCount + 1));
        StartOneLaunches(m2, k, fork, now, i);
      }
    }
  }

  // ------------------------------------------------------------ runs

  lemma StepIsBudgeted(m: Manager, s: Step, i: nat)
    requires Fits(m, s) && i < |m.procs| && !Asks(s, i)
    ensures var m' := Apply(m, s);
            && i < |m'.procs|
            && WithinLimit(m.procs[i], m'.procs[i])
            && Launches(m'.events, i) - Launches(m.events, i) == m'.procs[i].restartCount - m.procs[i].restartCount
  {
    hide Launches, StepsFit, Steps, HandleExit, StartOne;
    match s {
      case Launch(k, fork, now) => StartOneLaunches(m, k, fork, now, i);
      case Exit(pid, status, fork, now) => HandleExitLaunches(m, pid, status, fork, now, i);
      case Stop(k, _, _, _) =>
        if m.procs[k].pid > 0 {
          LaunchesThen(m.events, Event(k, m.procs[k].pid, Stopping), i);
        }
      case _ =>
    }
  }

  lemma {:induction false} StepsAreBudgeted(m: Manager, steps: seq<Step>, i: nat)
    requires StepsFit(m, steps) && i < |m.procs| && NoneAsks(steps, i)
    ensures var m' := Steps(m, steps);
            && i < |m'.procs|
            && WithinLimit(m.procs[i], m'.procs[i])
            && Launches(m'.events, i) - Launches(m.events, i) == m'.procs[i].restartCount - m.procs[i].restartCount
  {
    if steps != [] {
      var last := |steps| - 1;
      StepsAreBudgeted(m, steps[..last], i);
      StepIsBudgeted(Steps(m, steps[..last]), steps[last], i);
    }
  }

  /**
   While nobody starts process i explicitly, the installed spec stays, every start is counted
   as a restart, and a limit is never exceeded (a count at or over a newly installed limit
   allows none: installing a spec does not reset the count).
   */
  lemma RestartsAreBudgeted(m: Manager, calls: seq<Call>, i: nat)
    requires RunReal(m, calls) && i < |m.procs| && RunNeverStarts(m, calls, i)
    ensures var m' := Run(m, calls);
            && i < |m'.procs|
            && WithinLimit(m.procs[i], m'.procs[i])
            && Launches(m'.events, i) - Launches(m.events, i) == m'.procs[i].restartCount - m.procs[i].restartCount
  {
    var steps := RunAsSteps(m, calls);
    StepsAreBudgeted(m, steps, i);
  }

  /** Being stopped by the operator, or stopped. */
  predicate Halted(p: Process) {
    (p.pid > 0 && p.state == Stopping && p.intentionalStop) || (p.pid == -1 && p.state == Stopped)
  }

  lemma StepKeepsHalted(m: Manager, s: Step, i: nat)
    requires Fits(m, s) && i < |m.procs| && !Asks(s, i) && Halted(m.procs[i])
    ensures var m' := Apply(m, s);
            && i < |m'.procs| && Halted(m'.procs[i])
            && (m'.procs[i].pid == m.procs[i].pid || m'.procs[i].pid == -1)
            && m'.procs[i].restartCount == m.procs[i].restartCount
  {
    hide Launches, StepsFit, Steps;
    if s.Exit? {
      var k := PidIndexFrom(m.procs, s.pid, 0);
      if k == i {
        assert !Restarts(m, m.procs[i], s.status);
      }
    }
  }

  lemma {:induction false} StepsKeepHalted(m: Manager, steps: seq<Step>, i: nat)
    requires StepsFit(m, steps) && i < |m.procs| && NoneAsks(steps, i) && Halted(m.procs[i])
    ensures var m' := Steps(m, steps);
            && i < |m'.procs| && Halted(m'.procs[i])
            && (m'.procs[i].pid == m.procs[i].pid || m'.procs[i].pid == -1)
            && m'.procs[i].restartCount == m.procs[i].restartCount
  {
    if steps != [] {
      var last := |steps| - 1;
      StepsKeepHalted(m, steps[..last], i);
      StepKeepsHalted(Steps(m, steps[..last]), steps[last], i);
    }
  }

  /** A process the operator stopped keeps its pid until reaped, ends as Stopped, and starts again only if asked. */
  lemma OperatorStopHolds(m: Manager, calls: seq<Call>, i: nat)
    requires RunReal(m, calls) && i < |m.procs| && RunNeverStarts(m, calls, i)
    requires Halted(m.procs[i])
    ensures var m' := Run(m, calls);
            && i < |m'.procs| && Halted(m'.procs[i])
            && (m'.procs[i].pid == m.procs[i].pid || m'.procs[i].pid == -1)
            && Launches(m'.events, i) == Launches(m.events, i)
  {
    var steps := RunAsSteps(m, calls);
    StepsKeepHalted(m, steps, i);
    StepsAreBudgeted(m, steps, i);
  }

  /** A stop request that finds a live process leaves it halted, whatever was stopping it before. */
  lemma StopRequestHalts(m: Manager, name: string, pid: int, timeout: real, now: real)
    requires Table(m)
    ensures var (m', reply) := StopProcess(m, name, pid, timeout, now);
            var i := StopTarget(m, name, pid);
            && (reply == StopRequested <==> i >= 0 && m.procs[i].pid > 0)
            && (reply == StopRequested ==> Halted(m'.procs[i]) && m'.procs[i].pid == m.procs[i].pid)
            && (reply != StopRequested ==> m' == m)
  {
  }

  // ------------------------------------------------------------ heartbeats

  function Warned(p: Process, at: real): Process {
    p.(state := Stopping, intentionalStop := false, stopDeadline := at + p.spec.shutdownTimeout)
  }

  lemma LateIsWarned(m: Manager, i: nat, now: real, at: real)
    requires i < |m.procs| && HeartbeatLate(m.procs[i], now)
    ensures var r := StopOne(m, i, 0.0, false, at);
            r.procs == m.procs[i := Warned(m.procs[i], at)] && r.children == m.children && r.stopping == m.stopping
  {
  }

  /** The check stops exactly the late processes, in a way that leaves their restart open, and touches no other. */
  lemma {:induction false} CheckIsExact(m: Manager, now: real, clock: seq<real>, n: nat)
    requires n <= |m.procs| == |clock|
    ensures var r := CheckFirst(m, now, clock, n);
            && r.children == m.children && r.stopping == m.stopping
            && (forall i | 0 <= i < |m.procs| ::
                  r.procs[i] == if i < n && HeartbeatLate(m.procs[i], now)
                                then Warned(m.procs[i], clock[i]) else m.procs[i])
  {
    hide StopOne, Warned, HeartbeatLate;
    if n != 0 {
      CheckIsExact(m, now, clock, n - 1);
      assert CheckFirst(m, now, clock, n - 1).procs[n - 1] == m.procs[n - 1];
      if HeartbeatLate(m.procs[n - 1], now) {
        LateIsWarned(CheckFirst(m, now, clock, n - 1), n - 1, now, clock[n - 1]);
      }
    }
  }

  // ------------------------------------------------------------ the bound on one Poll

  function Budget(p: Process, stopping: bool): nat {
    if p.pid <= 0 then 0
    else if stopping || p.intentionalStop || p.spec.restart == Never then 1
    else if p.spec.restartLimit > p.restartCount then 1 + p.spec.restartLimit - p.restartCount
    else 1
  }

  /** Live children plus the restarts left to them, over the first n processes. */
  function Capacity(procs: seq<Process>, stopping: bool, n: nat): nat
    requires n <= |procs|
  {
    if n == 0 then 0 else Capacity(procs, stopping, n - 1) + Budget(procs[n - 1], stopping)
  }

  function ManagedExits(m: Manager, outcomes: seq<Outcome>): nat {
    if outcomes == [] then 0
    else
      var last := outcomes[|outcomes| - 1];
      ManagedExits(m, outcomes[..|outcomes| - 1]) +
      if last.Reaped? && PidIndexFrom(ReapAll(m, outcomes[..|outcomes| - 1]).procs, last.pid, 0) >= 0 then 1 else 0
  }

  /** Every live process that could still be restarted has a limit. */
  predicate Limited(m: Manager) {
    m.stopping || forall i | 0 <= i < |m.procs| :: LimitedEntry(m.procs[i])
  }

  predicate LimitedEntry(p: Process) {
    p.pid > 0 ==> p.intentionalStop || p.spec.restart == Never || p.spec.restartLimit > 0
  }

  lemma {:induction false} CapacityPut(procs: seq<Process>, stopping: bool, i: nat, p: Process, n: nat)
    requires i < |procs| && n <= |procs|
    ensures Capacity(procs[i := p], stopping, n) ==
            Capacity(procs, stopping, n) + if i < n then Budget(p, stopping) - Budget(procs[i], stopping) else 0
  {
    if n != 0 {
      CapacityPut(procs, stopping, i, p, n - 1);
    }
  }

  lemma HandleExitPuts(m: Manager, pid: int, status: Status, fork: Forked, now: real)
    requires pid > 0
    ensures var r := HandleExit(m, pid, status, fork, now);
            var i := PidIndexFrom(m.procs, pid, 0);
            && r.stopping == m.stopping
            && if i < 0 then r == m
               else r.procs == m.procs[i := r.procs[i]] && r.procs[i].spec == m.procs[i].spec
                    && !r.procs[i].intentionalStop
  {
  }

  lemma HandleExitSpendsBudget(m: Manager, pid: int, status: Status, fork: Forked, now: real)
    requires pid > 0 && Limited(m) && PidIndexFrom(m.procs, pid, 0) >= 0
    ensures var i := PidIndexFrom(m.procs, pid, 0);
            var p := HandleExit(m, pid, status, fork, now).procs[i];
            Budget(p, m.stopping) < Budget(m.procs[i], m.stopping) && (m.stopping || LimitedEntry(p))
  {
    assert m.stopping || LimitedEntry(m.procs[PidIndexFrom(m.procs, pid, 0)]);
  }

  /** Each managed exit uses up some of the capacity. */
  lemma ExitUsesCapacity(m: Manager, pid: int, status: Status, fork: Forked, now: real)
    requires pid > 0 && Limited(m)
    ensures var r := HandleExit(m, pid, status, fork, now);
            && Limited(r)
            && Capacity(r.procs, r.stopping, |r.procs|) + (if PidIndexFrom(m.procs, pid, 0) >= 0 then 1 else 0)
               <= Capacity(m.procs, m.stopping, |m.procs|)
  {
    hide HandleExit, Budget;
    var r := HandleExit(m, pid, status, fork, now);
    var i := PidIndexFrom(m.procs, pid, 0);
    HandleExitPuts(m, pid, status, fork, now);
    if i >= 0 {
      HandleExitSpendsBudget(m, pid, status, fork, now);
      CapacityPut(m.procs, m.stopping, i, r.procs[i], |m.procs|);
    }
  }

  /** However the children die, one Poll handles at most as many managed exits as live children and restarts left. */
  lemma {:induction false} PollIsBounded(m: Manager, outcomes: seq<Outcome>)
    requires OutcomesReal(m, outcomes) && Limited(m)
    ensures var r := ReapAll(m, outcomes);
            && Limited(r)
            && ManagedExits(m, outcomes) + Capacity(r.procs, r.stopping, |r.procs|)
               <= Capacity(m.procs, m.stopping, |m.procs|)
  {
    if outcomes != [] {
      var last := outcomes[|outcomes| - 1];
      PollIsBounded(m, outcomes[..|outcomes| - 1]);
      if last.Reaped? {
        ExitUsesCapacity(ReapAll(m, outcomes[..|outcomes| - 1]), last.pid, last.status, last.fork, last.now);
      }
    }
  }

  // ------------------------------------------------------------ every restart left can be spent

  const CRASH := Signaled(11)

  /** A live process whose policy restarts it when it crashes. */
  predicate Restartable(p: Process) {
    p.pid > 0 && !p.intentionalStop && p.spec.restart != Never
  }

  /** Such a process of a manager that is not stopping, found by its pid. */
  predicate Crashable(m: Manager, i: nat, pid: int) {
    !m.stopping && PidIndexFrom(m.procs, pid, 0) == i && i < |m.procs| && Restartable(m.procs[i])
  }

  predicate Room(p: Process) {
    p.spec.restartLimit == 0 || p.restartCount < p.spec.restartLimit
  }

  lemma UpperBound(s: set<int>) returns (b: int)
    ensures b > 0 && forall x | x in s :: x < b
    decreases |s|
  {
    b := 1;
    if x :| x in s {
      var c := UpperBound(s - {x});
      b := if x < c then c else x + 1;
      assert forall y | y in s :: y == x || y in s - {x};
    }
  }

  /** A pid above every child's and every pid in the table. */
  lemma NextPid(m: Manager) returns (pid: int)
    ensures pid > 0 && pid !in m.children && forall k | 0 <= k < |m.procs| :: m.procs[k].pid < pid
  {
    var pids := set k | 0 <= k < |m.procs| :: m.procs[k].pid;
    pid := UpperBound(m.children + pids);
    forall k | 0 <= k < |m.procs| ensures m.procs[k].pid < pid {
      assert m.procs[k].pid in pids;
    }
  }

  /** A crash with room left is a restart, under the new pid. */
  lemma CrashRestarts(m: Manager, i: nat, pid: int, fork: int)
    requires Crashable(m, i, pid) && Room(m.procs[i])
    requires fork > 0 && forall k | 0 <= k < |m.procs| :: m.procs[k].pid < fork
    ensures var r := HandleExit(m, pid, CRASH, fork, 0.0);
            && Crashable(r, i, fork)
            && r.procs[i].spec == m.procs[i].spec
            && r.procs[i].restartCount == m.procs[i].restartCount + 1
  {
  }

  /** No pid that has been reaped is ever given to a new child. */
  predicate NoReuse(outcomes: seq<Outcome>) {
    forall j, k | 0 <= j <= k < |outcomes| && outcomes[j].Reaped? && outcomes[k].Reaped? ::
      outcomes[k].fork != outcomes[j].pid
  }

  predicate AllReapedUpTo(outcomes: seq<Outcome>, pid: int) {
    forall k | 0 <= k < |outcomes| :: outcomes[k].Reaped? && outcomes[k].pid < pid
  }

  lemma OneMoreOutcome(m: Manager, before: seq<Outcome>, o: Outcome)
    requires OutcomesReal(m, before) && o.Reaped? && o.pid > 0
    requires o.fork > 0 && o.fork !in ReapAll(m, before).children
    ensures OutcomesReal(m, before + [o])
    ensures ReapAll(m, before + [o]) == HandleExit(ReapAll(m, before), o.pid, o.status, o.fork, o.now)
    ensures ManagedExits(m, before + [o]) ==
            ManagedExits(m, before) + if PidIndexFrom(ReapAll(m, before).procs, o.pid, 0) >= 0 then 1 else 0
  {
    hide HandleExit;
    assert (before + [o])[..|before|] == before;
  }

  lemma NoReuseThen(outcomes: seq<Outcome>, o: Outcome, last: int)
    requires NoReuse(outcomes) && AllReapedUpTo(outcomes, last)
    requires o.Reaped? && o.pid == last && o.fork > last
    ensures NoReuse(outcomes + [o]) && AllReapedUpTo(outcomes + [o], o.fork)
  {
  }

  /** n crashes in one poll, each a restart: possible whenever there is room for n more, and without reusing a pid. */
  lemma {:induction false} CrashLoop(m: Manager, i: nat, pid: int, n: nat) returns (outcomes: seq<Outcome>, last: int)
    requires Crashable(m, i, pid)
    requires m.procs[i].spec.restartLimit == 0 || m.procs[i].restartCount + n <= m.procs[i].spec.restartLimit
    ensures OutcomesReal(m, outcomes) && ManagedExits(m, outcomes) == n
    ensures NoReuse(outcomes) && AllReapedUpTo(outcomes, last)
    ensures var r := ReapAll(m, outcomes);
            && Crashable(r, i, last)
            && r.procs[i].spec == m.procs[i].spec
            && r.procs[i].restartCount == m.procs[i].restartCount + n
  {
    hide HandleExit, NoReuse, AllReapedUpTo;
    if n == 0 {
      outcomes, last := [], pid;
      assert NoReuse([]) && AllReapedUpTo([], pid) by { NoOutcomes(pid); }
    } else {
      var before, at := CrashLoop(m, i, pid, n - 1);
      var r := ReapAll(m, before);
      last := NextPid(r);
      var o := Reaped(at, CRASH, last, 0.0);
      CrashRestarts(r, i, at, last);
      OneMoreOutcome(m, before, o);
      NoReuseThen(before, o, at);
      outcomes := before + [o];
    }
  }

  lemma NoOutcomes(pid: int)
    ensures NoReuse([]) && AllReapedUpTo([], pid)
  {
  }

  /** Without a limit there is a Poll with as many managed exits as you like. */
  lemma PollWithoutLimit(m: Manager, i: nat, n: nat) returns (outcomes: seq<Outcome>)
    requires Table(m) && !m.stopping && i < |m.procs| && !LimitedEntry(m.procs[i])
    ensures OutcomesReal(m, outcomes) && NoReuse(outcomes) && ManagedExits(m, outcomes) == n
  {
    var last;
    outcomes, last := CrashLoop(m, i, m.procs[i].pid, n);
  }

  ghost predicate AtMost(m: Manager, bound: nat) {
    forall outcomes | OutcomesReal(m, outcomes) :: ManagedExits(m, outcomes) <= bound
  }

  /** The same of a kernel that never reuses a pid. */
  ghost predicate AtMostFresh(m: Manager, bound: nat) {
    forall outcomes | OutcomesReal(m, outcomes) && NoReuse(outcomes) :: ManagedExits(m, outcomes) <= bound
  }

  /** One Poll has a bound exactly when every live process that could be restarted has a limit, pids reused or not. */
  lemma PollBoundIsExact(m: Manager)
    requires Table(m)
    ensures (exists bound: nat :: AtMost(m, bound)) <==> Limited(m)
    ensures (exists bound: nat :: AtMostFresh(m, bound)) <==> Limited(m)
    ensures Limited(m) ==> AtMost(m, Capacity(m.procs, m.stopping, |m.procs|))
  {
    if Limited(m) {
      var bound := Capacity(m.procs, m.stopping, |m.procs|);
      forall outcomes | OutcomesReal(m, outcomes) ensures ManagedExits(m, outcomes) <= bound {
        PollIsBounded(m, outcomes);
      }
      assert AtMost(m, bound) && AtMostFresh(m, bound);
    } else {
      var i :| 0 <= i < |m.procs| && !LimitedEntry(m.procs[i]);
      forall bound: nat ensures !AtMost(m, bound) && !AtMostFresh(m, bound) {
        var outcomes := PollWithoutLimit(m, i, bound + 1);
        assert OutcomesReal(m, outcomes) && NoReuse(outcomes);
      }
    }
  }

  // ------------------------------------------------------------ exactly how many restarts are left

  /** The run starts process i n times, and nobody asked for it. */
  ghost predicate RestartsIn(m: Manager, calls: seq<Call>, i: nat, n: nat) {
    && RunReal(m, calls) && RunNeverStarts(m, calls, i)
    && Launches(Run(m, calls).events, i) == Launches(m.events, i) + n
  }

  /** What the installed spec and the count still allow. */
  predicate CanRestart(m: Manager, i: nat, n: nat)
    requires i < |m.procs|
  {
    var p := m.procs[i];
    n == 0 || (!m.stopping && Restartable(p) && (p.spec.restartLimit == 0 || p.restartCount + n <= p.spec.restartLimit))
  }

  /** Stopping, not live, stopped on purpose or never restarted. */
  predicate Final(m: Manager, p: Process) {
    m.stopping || p.pid <= 0 || (p.intentionalStop && p.state == Stopping) || p.spec.restart == Never
  }

  lemma StepKeepsFinal(m: Manager, s: Step, i: nat)
    requires Fits(m, s) && i < |m.procs| && !Asks(s, i) && Final(m, m.procs[i])
    ensures var m' := Apply(m, s);
            i < |m'.procs| && Final(m', m'.procs[i]) && m'.procs[i].restartCount == m.procs[i].restartCount
  {
    hide Final, HandleExit;
    match s {
      case Exit(pid, status, fork, now) => ExitKeepsFinal(m, pid, status, fork, now, i);
      case _ => OtherStepKeepsFinal(m, s, i);
    }
  }

  lemma ExitKeepsFinal(m: Manager, pid: int, status: Status, fork: Forked, now: real, i: nat)
    requires pid > 0 && i < |m.procs| && Final(m, m.procs[i])
    ensures var m' := HandleExit(m, pid, status, fork, now);
            Final(m', m'.procs[i]) && m'.procs[i].restartCount == m.procs[i].restartCount
  {
    HandleExitPuts(m, pid, status, fork, now);
    if PidIndexFrom(m.procs, pid, 0) == i {
      assert !Restarts(m, m.procs[i], status);
    }
  }

  lemma OtherStepKeepsFinal(m: Manager, s: Step, i: nat)
    requires Fits(m, s) && i < |m.procs| && !Asks(s, i) && Final(m, m.procs[i]) && !s.Exit?
    ensures var m' := Apply(m, s);
            i < |m'.procs| && Final(m', m'.procs[i]) && m'.procs[i].restartCount == m.procs[i].restartCount
  {
  }

  lemma {:induction false} StepsKeepFinal(m: Manager, steps: seq<Step>, i: nat)
    requires StepsFit(m, steps) && i < |m.procs| && NoneAsks(steps, i) && Final(m, m.procs[i])
    ensures var m' := Steps(m, steps);
            i < |m'.procs| && Final(m', m'.procs[i]) && m'.procs[i].restartCount == m.procs[i].restartCount
  {
    hide Final, Asks;
    if steps != [] {
      var last := |steps| - 1;
      assert NoneAsks(steps[..last], i) && !Asks(steps[last], i);
      StepsKeepFinal(m, steps[..last], i);
      StepKeepsFinal(Steps(m, steps[..last]), steps[last], i);
    }
  }

  lemma RestartsAreAllowed(m: Manager, calls: seq<Call>, i: nat, n: nat)
    requires Table(m) && i < |m.procs| && RestartsIn(m, calls, i, n)
    ensures CanRestart(m, i, n)
  {
    RestartsAreBudgeted(m, calls, i);
    assert EntryAgrees(m.procs[i]);
    if Final(m, m.procs[i]) {
      var steps := RunAsSteps(m, calls);
      StepsKeepFinal(m, steps, i);
    }
  }

  /** The heartbeat check at the end of a Poll starts nobody. */
  lemma CheckLaunches(m: Manager, now: real, clock: seq<real>, i: nat)
    requires |clock| == |m.procs| && i < |m.procs|
    ensures Launches(CheckHeartbeats(m, now, clock).events, i) == Launches(m.events, i)
  {
    if !m.stopping {
      var steps := CheckAsSteps(m, now, clock, |m.procs|);
      StepsAreBudgeted(m, steps, i);
      CheckIsExact(m, now, clock, |m.procs|);
    }
  }

  lemma PollRestarts(m: Manager, outcomes: seq<Outcome>, i: nat, n: nat) returns (calls: seq<Call>)
    requires OutcomesReal(m, outcomes) && i < |m.procs|
    requires ReapAll(m, outcomes).procs[i].restartCount == m.procs[i].restartCount + n
    ensures RestartsIn(m, calls, i, n)
  {
    hide RunReal, Run, OutcomesReal, ReapAll, CheckHeartbeats, Launches;
    var clock := seq(|m.procs|, _ => 0.0);
    var c := Supervise(outcomes, 0.0, clock);
    NoCalls(m);
    RunThen(m, [], c);
    calls := [] + [c];
    OnlyCallStarts(m, c, i);
    var steps := ReapAsSteps(m, outcomes);
    StepsAreBudgeted(m, steps, i);
    CheckLaunches(ReapAll(m, outcomes), 0.0, clock, i);
  }

  lemma OnlyCallStarts(m: Manager, c: Call, i: nat)
    requires RunReal(m, [] + [c]) && !Starts(m, c, i)
    ensures RunNeverStarts(m, [] + [c], i)
  {
    assert ([] + [c])[..0] == [];
  }

  /**
   The numbers of automatic restarts that some run can make without anybody starting the
   process are exactly those its spec and count still allow.
   */
  lemma RestartsAreExact(m: Manager, i: nat, n: nat)
    requires Table(m) && i < |m.procs|
    ensures (exists calls :: RestartsIn(m, calls, i, n)) <==> CanRestart(m, i, n)
  {
    if CanRestart(m, i, n) {
      if n == 0 {
        NoCalls(m);
        assert RestartsIn(m, [], i, 0);
      } else {
        var outcomes, _ := CrashLoop(m, i, m.procs[i].pid, n);
        var calls := PollRestarts(m, outcomes, i, n);
        assert RestartsIn(m, calls, i, n);
      }
    }
    forall calls | RestartsIn(m, calls, i, n) ensures CanRestart(m, i, n) {
      RestartsAreAllowed(m, calls, i, n);
    }
  }

  /** All the restarts of the installed limit are available exactly when none has been counted yet. */
  lemma FullLimitIsExact(m: Manager, i: nat)
    requires Table(m) && i < |m.procs| && !m.stopping && Restartable(m.procs[i]) && m.procs[i].spec.restartLimit > 0
    ensures (exists calls :: RestartsIn(m, calls, i, m.procs[i].spec.restartLimit)) <==> m.procs[i].restartCount == 0
  {
    RestartsAreExact(m, i, m.procs[i].spec.restartLimit);
  }

  // ------------------------------------------------------------ a reinstalled process

  function Once(command: string): Spec {
    Spec("a", command, Always, 1, 0.0, 1.0, 0.0)
  }

  lemma StartedOnce(spec: Spec) returns (calls: seq<Call>)
    requires spec.restart != Never
    ensures RunReal(Created([spec]), calls)
    ensures var m := Run(Created([spec]), calls);
            Crashable(m, 0, 100) && |m.procs| == 1 && m.procs[0].spec == spec && m.procs[0].restartCount == 0
  {
    var m := Created([spec]);
    var start := StartEach([(100, 0.0)]);
    assert ForksFresh(m, [(100, 0.0)], 0);
    assert Real(m, start);
    NoCalls(m);
    RunThen(m, [], start);
    calls := [] + [start];
  }

  /** Starting any process with a restart policy and no limit leads to a state in which a Poll has no bound. */
  lemma UnlimitedIsReachable(spec: Spec) returns (calls: seq<Call>)
    requires spec.restart != Never && spec.restartLimit == 0
    ensures RunReal(Created([spec]), calls)
    ensures forall bound: nat :: !AtMostFresh(Run(Created([spec]), calls), bound)
  {
    calls := StartedOnce(spec);
    TableAgreesWithKernel([spec], calls);
    PollBoundIsExact(Run(Created([spec]), calls));
    assert !LimitedEntry(Run(Created([spec]), calls).procs[0]);
  }

  /** A crash with no room left is the end. */
  lemma CrashEnds(m: Manager, i: nat, pid: int, fork: Forked)
    requires pid > 0 && Crashable(m, i, pid) && !Room(m.procs[i])
    ensures var r := HandleExit(m, pid, CRASH, fork, 0.0);
            && |r.procs| == |m.procs| && r.stopping == m.stopping
            && r.procs[i].spec == m.procs[i].spec && r.procs[i].restartCount == m.procs[i].restartCount
            && r.procs[i].pid == -1 && r.procs[i].state == Failed
  {
  }

  /** A process that has crashed once more than its limit allows, under its first spec. */
  lemma CrashedTwice() returns (calls: seq<Call>)
    ensures RunReal(Created([Once("a")]), calls)
    ensures var m := Run(Created([Once("a")]), calls);
            && |m.procs| == 1 && m.procs[0].spec == Once("a") && !m.stopping
            && m.procs[0].pid == -1 && m.procs[0].state == Failed && m.procs[0].restartCount == 1
  {
    hide RunReal, Run, OutcomesReal, ReapAll, HandleExit, Launches;
    var started := StartedOnce(Once("a"));
    var m := Run(Created([Once("a")]), started);
    var outcomes, pid := CrashLoop(m, 0, 100, 1);
    var r := ReapAll(m, outcomes);
    var fork := NextPid(r);
    var o := Reaped(pid, CRASH, fork, 0.0);
    OneMoreOutcome(m, outcomes, o);
    CrashEnds(r, 0, pid, fork);
    var crash := Supervise(outcomes + [o], 0.0, [0.0]);
    CheckIsExact(HandleExit(r, pid, CRASH, fork, 0.0), 0.0, [0.0], 1);
    RunThen(Created([Once("a")]), started, crash);
    calls := started + [crash];
  }

  /**
   Installing a spec does not reset the count: a process whose new spec allows one restart is
   live under it and gets none, in any run in which nobody starts it.
   */
  lemma ReinstalledIsNotRestarted() returns (calls: seq<Call>)
    ensures RunReal(Created([Once("a")]), calls)
    ensures var m := Run(Created([Once("a")]), calls);
            && |m.procs| == 1 && m.procs[0].spec == Once("b") && Restartable(m.procs[0]) && !m.stopping
            && forall more :: !RestartsIn(m, more, 0, 1)
  {
    var before := CrashedTwice();
    var m := Run(Created([Once("a")]), before);
    var fork := NextPid(m);
    var install := StartNamed(Once("b"), fork, 0.0);
    assert NameIndexFrom(m.procs, "a", 0) == 0;
    RunThen(Created([Once("a")]), before, install);
    calls := before + [install];
    var m' := Run(Created([Once("a")]), calls);
    TableAgreesWithKernel([Once("a")], calls);
    RestartsAreExact(m', 0, 1);
    assert !CanRestart(m', 0, 1);
  }
}

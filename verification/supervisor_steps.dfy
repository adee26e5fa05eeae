/**
 Every public call of the supervisor as a sequence of elementary steps, so that what one
 step keeps holds over whole runs.
 */
module SupervisorSteps {
  import opened Supervisor

  datatype Step =
    | Launch(i: nat, fork: Forked, now: real)
    | Exit(pid: int, status: Status, fork: Forked, now: real)
    | Stop(i: nat, timeout: real, intentional: bool, now: real)
    | Kill(i: nat, now: real)
    | Beat(i: nat, now: real)
    | Install(i: nat, spec: Spec)
    | Append(spec: Spec)
    | Refuse

  /** What the kernel guarantees of fork(): an error, or a pid no unreaped child has. */
  predicate Fresh(children: set<int>, fork: Forked) {
    fork < 0 || fork !in children
  }

  /** A reaped pid may be given to the very next child. */
  predicate Fits(m: Manager, s: Step) {
    match s
    case Launch(i, fork, _) => i < |m.procs| && (m.procs[i].pid > 0 || Fresh(m.children, fork))
    case Exit(pid, _, fork, _) => pid > 0 && Fresh(m.children - {pid}, fork)
    case Stop(i, _, intentional, _) => i < |m.procs| && (intentional || m.procs[i].state != Stopping)
    case Kill(i, _) => i < |m.procs|
    case Beat(i, _) => i < |m.procs|
    case Install(i, _) => i < |m.procs| && m.procs[i].pid <= 0
    case Append(_) => true
    case Refuse => true
  }

  function Apply(m: Manager, s: Step): Manager
    requires Fits(m, s)
  {
    match s
    case Launch(i, fork, now) => StartOne(m, i, fork, now)
    case Exit(pid, status, fork, now) => HandleExit(m, pid, status, fork, now)
    case Stop(i, timeout, intentional, now) => StopOne(m, i, timeout, intentional, now)
    case Kill(i, now) => KillOne(m, i, now)
    case Beat(i, now) => Put(m, i, m.procs[i].(hasHeartbeat := true, lastHeartbeat := now))
    case Install(i, spec) => Put(m, i, m.procs[i].(spec := spec))
    case Append(spec) => m.(procs := m.procs + [NewProcess(spec)])
    case Refuse => m.(stopping := true)
  }

  predicate StepsFit(m: Manager, steps: seq<Step>)
    decreases |steps|, 0
  {
    steps == [] || (
      var last := |steps| - 1;
      StepsFit(m, steps[..last]) && Fits(Steps(m, steps[..last]), steps[last]))
  }

  function Steps(m: Manager, steps: seq<Step>): Manager
    requires StepsFit(m, steps)
    decreases |steps|, 1
  {
    if steps == [] then m else Apply(Steps(m, steps[..|steps| - 1]), steps[|steps| - 1])
  }

  lemma StepsThen(m: Manager, steps: seq<Step>, s: Step)
    requires StepsFit(m, steps) && Fits(Steps(m, steps), s)
    ensures StepsFit(m, steps + [s]) && Steps(m, steps + [s]) == Apply(Steps(m, steps), s)
  {
    assert (steps + [s])[..|steps|] == steps;
  }

  lemma {:induction false} StepsConcat(m: Manager, a: seq<Step>, b: seq<Step>)
    requires StepsFit(m, a) && StepsFit(Steps(m, a), b)
    ensures StepsFit(m, a + b) && Steps(m, a + b) == Steps(Steps(m, a), b)
  {
    if b == [] {
      assert a + b == a;
    } else {
      var last := |b| - 1;
      StepsConcat(m, a, b[..last]);
      StepsThen(m, a + b[..last], b[last]);
      assert a + b == a + b[..last] + [b[last]];
    }
  }

  // ------------------------------------------------------------ public calls

  datatype Call =
    | StartEach(forks: seq<(Forked, real)>)
    | StartNamed(spec: Spec, fork: Forked, now: real)
    | StopNamed(name: string, pid: int, timeout: real, now: real)
    | Supervise(outcomes: seq<Outcome>, now: real, clock: seq<real>)
    | Heartbeat(name: string, now: real)
    | StopEach(clock: seq<real>, rounds: seq<Round>)

  ghost predicate ForksFresh(m: Manager, forks: seq<(Forked, real)>, n: nat)
    requires n <= |m.procs| == |forks|
  {
    n == 0 || (
      && ForksFresh(m, forks, n - 1)
      && var m1 := StartFirst(m, forks, n - 1);
         m1.procs[n - 1].pid > 0 || Fresh(m1.children, forks[n - 1].0))
  }

  /** waitpid reports positive pids, and a restart's fork keeps clear of the unreaped children. */
  ghost predicate OutcomesReal(m: Manager, outcomes: seq<Outcome>) {
    outcomes == [] || (
      var last := |outcomes| - 1;
      && OutcomesReal(m, outcomes[..last])
      && (outcomes[last].Reaped? ==>
            && outcomes[last].pid > 0
            && Fresh(ReapAll(m, outcomes[..last]).children - {outcomes[last].pid}, outcomes[last].fork)))
  }

  ghost predicate RoundsReal(m: Manager, rounds: seq<Round>) {
    rounds == [] || (
      var last := |rounds| - 1;
      && RoundsReal(m, rounds[..last])
      && OutcomesReal(StopRounds(m, rounds[..last]), rounds[last].outcomes))
  }

  /** What the operating system and the caller may do in this state. */
  ghost predicate Real(m: Manager, c: Call) {
    match c
    case StartEach(forks) => |forks| == |m.procs| && ForksFresh(m, forks, |forks|)
    case StartNamed(_, fork, _) => Fresh(m.children, fork)
    case StopNamed(_, _, _, _) => true
    case Supervise(outcomes, _, clock) => |clock| == |m.procs| && OutcomesReal(m, outcomes)
    case Heartbeat(_, _) => true
    case StopEach(clock, rounds) => |clock| == |m.procs| && RoundsReal(BeginStopAll(m, clock), rounds)
  }

  ghost function Do(m: Manager, c: Call): Manager
    requires Real(m, c)
  {
    match c
    case StartEach(forks) => StartAll(m, forks)
    case StartNamed(spec, fork, now) => StartProcess(m, spec, fork, now).0
    case StopNamed(name, pid, timeout, now) => StopProcess(m, name, pid, timeout, now).0
    case Supervise(outcomes, now, clock) => Poll(m, outcomes, now, clock)
    case Heartbeat(name, now) => MarkHeartbeat(m, name, now).0
    case StopEach(clock, rounds) => StopRounds(BeginStopAll(m, clock), rounds)
  }

  ghost predicate RunReal(m: Manager, calls: seq<Call>)
    decreases |calls|, 0
  {
    calls == [] || (
      var last := |calls| - 1;
      RunReal(m, calls[..last]) && Real(Run(m, calls[..last]), calls[last]))
  }

  ghost function Run(m: Manager, calls: seq<Call>): Manager
    requires RunReal(m, calls)
    decreases |calls|, 1
  {
    if calls == [] then m else Do(Run(m, calls[..|calls| - 1]), calls[|calls| - 1])
  }

  // ------------------------------------------------------------ calls as steps

  /** The step starts process i, or replaces its spec, because somebody asked. */
  predicate Asks(s: Step, i: nat) {
    (s.Launch? || s.Install?) && s.i == i
  }

  predicate NoKill(steps: seq<Step>) {
    forall k | 0 <= k < |steps| :: !steps[k].Kill?
  }

  predicate NoneAsks(steps: seq<Step>, i: nat) {
    forall k | 0 <= k < |steps| :: !Asks(steps[k], i)
  }

  predicate Refused(spec: Spec) {
    Named(spec).name == "" || spec.command == ""
  }

  /** The call starts process i explicitly: it addresses i, and i is not live. */
  predicate Starts(m: Manager, c: Call, i: nat) {
    match c
    case StartEach(_) => i < |m.procs| && m.procs[i].pid <= 0
    case StartNamed(spec, _, _) =>
      !Refused(spec) &&
      var at := NameIndexFrom(m.procs, Named(spec).name, 0);
      if at < 0 then i == |m.procs| else i == at && m.procs[i].pid <= 0
    case _ => false
  }

  lemma {:induction false} StartAsSteps(m: Manager, forks: seq<(Forked, real)>, n: nat) returns (steps: seq<Step>)
    requires n <= |m.procs| == |forks| && ForksFresh(m, forks, n)
    ensures StepsFit(m, steps) && Steps(m, steps) == StartFirst(m, forks, n)
    ensures NoKill(steps)
    ensures forall i: nat | i >= n || m.procs[i].pid > 0 :: NoneAsks(steps, i)
    ensures forall i | n <= i < |m.procs| :: StartFirst(m, forks, n).procs[i] == m.procs[i]
  {
    if n == 0 {
      steps := [];
    } else {
      steps := StartAsSteps(m, forks, n - 1);
      if m.procs[n - 1].pid <= 0 {
        var s := Launch(n - 1, forks[n - 1].0, forks[n - 1].1);
        StepsThen(m, steps, s);
        steps := steps + [s];
      }
    }
  }

  lemma {:induction false} ReapAsSteps(m: Manager, outcomes: seq<Outcome>) returns (steps: seq<Step>)
    requires OutcomesReal(m, outcomes)
    ensures StepsFit(m, steps) && Steps(m, steps) == ReapAll(m, outcomes)
    ensures forall k | 0 <= k < |steps| :: steps[k].Exit?
  {
    if outcomes == [] {
      steps := [];
    } else {
      var last := outcomes[|outcomes| - 1];
      steps := ReapAsSteps(m, outcomes[..|outcomes| - 1]);
      if last.Reaped? {
        var s := Exit(last.pid, last.status, last.fork, last.now);
        StepsThen(m, steps, s);
        steps := steps + [s];
      }
    }
  }

  lemma {:induction false} CheckAsSteps(m: Manager, now: real, clock: seq<real>, n: nat) returns (steps: seq<Step>)
    requires n <= |m.procs| == |clock|
    ensures StepsFit(m, steps) && Steps(m, steps) == CheckFirst(m, now, clock, n)
    ensures forall k | 0 <= k < |steps| :: steps[k].Stop?
  {
    if n == 0 {
      steps := [];
    } else {
      steps := CheckAsSteps(m, now, clock, n - 1);
      if HeartbeatLate(CheckFirst(m, now, clock, n - 1).procs[n - 1], now) {
        var s := Stop(n - 1, 0.0, false, clock[n - 1]);
        StepsThen(m, steps, s);
        steps := steps + [s];
      }
    }
  }

  lemma {:induction false} StopAsSteps(m: Manager, clock: seq<real>, n: nat) returns (steps: seq<Step>)
    requires n <= |m.procs| == |clock|
    ensures StepsFit(m, steps) && Steps(m, steps) == StopFirst(m, clock, n)
    ensures forall k | 0 <= k < |steps| :: steps[k].Stop?
  {
    if n == 0 {
      steps := [];
    } else {
      var before := StopAsSteps(m, clock, n - 1);
      var s := Stop(n - 1, 0.0, true, clock[n - 1]);
      StepsThen(m, before, s);
      steps := before + [s];
    }
  }

  lemma {:induction false} SweepAsSteps(m: Manager, now: real, n: nat) returns (steps: seq<Step>)
    requires n <= |m.procs|
    ensures StepsFit(m, steps) && Steps(m, steps) == SweepFirst(m, now, n)
    ensures forall k | 0 <= k < |steps| :: steps[k].Kill?
  {
    if n == 0 {
      steps := [];
    } else {
      var before := SweepAsSteps(m, now, n - 1);
      StepsThen(m, before, Kill(n - 1, now));
      steps := before + [Kill(n - 1, now)];
    }
  }

  lemma {:induction false} RoundsAsSteps(m: Manager, rounds: seq<Round>) returns (steps: seq<Step>)
    requires RoundsReal(m, rounds)
    ensures StepsFit(m, steps) && Steps(m, steps) == StopRounds(m, rounds)
    ensures forall k | 0 <= k < |steps| :: steps[k].Exit? || steps[k].Kill?
  {
    if rounds == [] {
      steps := [];
    } else {
      var last := |rounds| - 1;
      var before := RoundsAsSteps(m, rounds[..last]);
      var m1 := StopRounds(m, rounds[..last]);
      var reaped := ReapAsSteps(m1, rounds[last].outcomes);
      var swept := SweepAsSteps(ReapAll(m1, rounds[last].outcomes), rounds[last].now, |m1.procs|);
      StepsConcat(m, before, reaped);
      StepsConcat(m, before + reaped, swept);
      steps := before + reaped + swept;
    }
  }

  lemma StartNamedIsFresh(m: Manager, c: Call)
    requires c.StartNamed? && Real(m, c)
    ensures Fresh(m.children, c.fork)
  {
  }

  lemma StartNamedAsSteps(m: Manager, c: Call) returns (steps: seq<Step>)
    requires c.StartNamed? && Real(m, c)
    ensures StepsFit(m, steps) && Steps(m, steps) == Do(m, c) && NoKill(steps)
    ensures forall i: nat | !Starts(m, c, i) :: NoneAsks(steps, i)
  {
    hide StartOne, NameIndexFrom, Fresh, Real;
    StartNamedIsFresh(m, c);
    var spec := Named(c.spec);
    var i := NameIndexFrom(m.procs, spec.name, 0);
    if spec.name == "" || spec.command == "" || (i >= 0 && m.procs[i].pid > 0) {
      steps := [];
    } else {
      var first := if i >= 0 then Install(i, spec) else Append(spec);
      var s := Launch(if i >= 0 then i else |m.procs|, c.fork, c.now);
      StepsThen(m, [], first);
      assert [] + [first] == [first];
      StepsThen(m, [first], s);
      steps := [first] + [s];
    }
  }

  /** One step or none. */
  lemma OneStep(m: Manager, s: Step)
    requires Fits(m, s)
    ensures StepsFit(m, [s]) && Steps(m, [s]) == Apply(m, s)
  {
    StepsThen(m, [], s);
    assert [] + [s] == [s];
  }

  lemma SuperviseAsSteps(m: Manager, outcomes: seq<Outcome>, now: real, clock: seq<real>) returns (steps: seq<Step>)
    requires |clock| == |m.procs| && OutcomesReal(m, outcomes)
    ensures StepsFit(m, steps) && Steps(m, steps) == Poll(m, outcomes, now, clock)
    ensures forall k | 0 <= k < |steps| :: steps[k].Exit? || steps[k].Stop?
  {
    steps := ReapAsSteps(m, outcomes);
    var m1 := ReapAll(m, outcomes);
    if !m1.stopping {
      var checks := CheckAsSteps(m1, now, clock, |m.procs|);
      StepsConcat(m, steps, checks);
      steps := steps + checks;
    }
  }

  lemma StopEachAsSteps(m: Manager, clock: seq<real>, rounds: seq<Round>) returns (steps: seq<Step>)
    requires |clock| == |m.procs| && RoundsReal(BeginStopAll(m, clock), rounds)
    ensures StepsFit(m, steps) && Steps(m, steps) == StopRounds(BeginStopAll(m, clock), rounds)
    ensures forall i: nat :: NoneAsks(steps, i)
  {
    hide StopFirst, StopOne, StopRounds, StepsFit, Steps, RoundsReal;
    OneStep(m, Refuse);
    var stops := StopAsSteps(m.(stopping := true), clock, |m.procs|);
    StepsConcat(m, [Refuse], stops);
    var rest := RoundsAsSteps(BeginStopAll(m, clock), rounds);
    StepsConcat(m, [Refuse] + stops, rest);
    steps := [Refuse] + stops + rest;
  }

  lemma NoStep(m: Manager) returns (steps: seq<Step>)
    ensures steps == [] && StepsFit(m, steps) && Steps(m, steps) == m
  {
    steps := [];
  }

  /** Every public call is a sequence of steps, and starts process i only if the call says so. */
  lemma CallAsSteps(m: Manager, c: Call) returns (steps: seq<Step>)
    requires Real(m, c)
    ensures StepsFit(m, steps) && Steps(m, steps) == Do(m, c)
    ensures !c.StopEach? ==> NoKill(steps)
    ensures forall i: nat | !Starts(m, c, i) :: NoneAsks(steps, i)
  {
    hide StartOne, StopOne, StepsFit, Steps;
    match c {
      case StartEach(forks) => steps := StartAsSteps(m, forks, |forks|);
      case StartNamed(spec, fork, now) => steps := StartNamedAsSteps(m, c);
      case StopNamed(name, pid, timeout, now) =>
        var i := StopTarget(m, name, pid);
        if i < 0 || m.procs[i].pid <= 0 {
          steps := NoStep(m);
        } else {
          OneStep(m, Stop(i, timeout, true, now));
          steps := [Stop(i, timeout, true, now)];
        }
      case Supervise(outcomes, now, clock) => steps := SuperviseAsSteps(m, outcomes, now, clock);
      case Heartbeat(name, now) =>
        var i := NameIndexFrom(m.procs, name, 0);
        if i < 0 {
          steps := NoStep(m);
        } else {
          OneStep(m, Beat(i, now));
          steps := [Beat(i, now)];
        }
      case StopEach(clock, rounds) => steps := StopEachAsSteps(m, clock, rounds);
    }
  }

  lemma RunThen(m: Manager, calls: seq<Call>, c: Call)
    requires RunReal(m, calls) && Real(Run(m, calls), c)
    ensures RunReal(m, calls + [c]) && Run(m, calls + [c]) == Do(Run(m, calls), c)
  {
    assert (calls + [c])[..|calls|] == calls;
  }

  lemma NoCalls(m: Manager)
    ensures RunReal(m, []) && Run(m, []) == m
  {
  }

  /** No call of the run starts process i explicitly. */
  ghost predicate RunNeverStarts(m: Manager, calls: seq<Call>, i: nat)
    requires RunReal(m, calls)
  {
    calls == [] || (
      var last := |calls| - 1;
      RunNeverStarts(m, calls[..last], i) && !Starts(Run(m, calls[..last]), calls[last], i))
  }

  lemma {:induction false} RunAsSteps(m: Manager, calls: seq<Call>) returns (steps: seq<Step>)
    requires RunReal(m, calls)
    ensures StepsFit(m, steps) && Steps(m, steps) == Run(m, calls)
    ensures (forall k | 0 <= k < |calls| :: !calls[k].StopEach?) ==> NoKill(steps)
    ensures forall i: nat | RunNeverStarts(m, calls, i) :: NoneAsks(steps, i)
  {
    if calls == [] {
      steps := [];
    } else {
      var last := |calls| - 1;
      var before := RunAsSteps(m, calls[..last]);
      var more := CallAsSteps(Run(m, calls[..last]), calls[last]);
      StepsConcat(m, before, more);
      steps := before + more;
      forall i: nat | RunNeverStarts(m, calls, i) ensures NoneAsks(steps, i) {
        assert NoneAsks(before, i) && NoneAsks(more, i);
      }
    }
  }
}

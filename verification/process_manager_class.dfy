/** The process manager as the class it is, each method against the operation it implements. */
module LaunchManager {
  import opened Supervisor
  import Op = Supervisor

  class ProcessManager {
    var processes: seq<Process>
    var stopping: bool
    ghost var children: set<int>
    ghost var events: seq<Event>
    ghost var signals: seq<Signal>

    ghost function View(): Manager
      reads this
    {
      Manager(processes, stopping, children, events, signals)
    }

    constructor (specs: seq<Spec>)
      ensures View() == Created(specs)
    {
      var table: seq<Process> := [];
      for i := 0 to |specs|
        invariant table == seq(i, k requires 0 <= k < i => NewProcess(specs[k]))
      {
        table := table + [NewProcess(specs[i])];
      }
      processes, stopping := table, false;
      children, events, signals := {}, [], [];
    }

    method FindByPid(pid: int) returns (r: int)
      ensures r == PidIndexFrom(processes, pid, 0)
    {
      for i := 0 to |processes|
        invariant PidIndexFrom(processes, pid, 0) == PidIndexFrom(processes, pid, i)
      {
        if processes[i].pid == pid {
          return i;
        }
      }
      return -1;
    }

    method FindByName(name: string) returns (r: int)
      ensures r == NameIndexFrom(processes, name, 0)
    {
      for i := 0 to |processes|
        invariant NameIndexFrom(processes, name, 0) == NameIndexFrom(processes, name, i)
      {
        if processes[i].spec.name == name {
          return i;
        }
      }
      return -1;
    }

    /** EmitEvent: the installed callback receives the process as it is now. */
    ghost method EmitEvent(i: nat, state: State)
      requires i < |processes|
      modifies `events
      ensures View() == Op.Emit(old(View()), i, state)
    {
      events := events + [Event(i, processes[i].pid, state)];
    }

    method StartOne(i: nat, fork: Forked, now: real) returns (ok: bool)
      requires i < |processes|
      modifies this
      ensures View() == Op.StartOne(old(View()), i, fork, now)
      ensures ok <==> processes[i].pid > 0
    {
      if processes[i].pid > 0 {
        return true;
      }
      processes := processes[i := processes[i].(state := Starting, hasHeartbeat := false, intentionalStop := false)];
      EmitEvent(i, Starting);
      if fork < 0 {
        processes := processes[i := processes[i].(state := Failed)];
        EmitEvent(i, Failed);
        return false;
      }
      children := children + {fork};
      processes := processes[i := processes[i].(pid := fork, state := Running, startTime := now)];
      EmitEvent(i, Running);
      return true;
    }

    method StartAll(forks: seq<(Forked, real)>) returns (ok: bool)
      requires |forks| == |processes|
      modifies this
      ensures View() == Op.StartAll(old(View()), forks)
      ensures ok <==> forall i | 0 <= i < |processes| :: processes[i].pid > 0
    {
      ok := true;
      for i := 0 to |processes|
        invariant |processes| == |forks| == |old(processes)|
        invariant ok <==> forall k | 0 <= k < i :: processes[k].pid > 0
        invariant View() == StartFirst(old(View()), forks, i)
      {
        ghost var before := processes;
        var started := StartOne(i, forks[i].0, forks[i].1);
        assert forall k | 0 <= k < i :: processes[k] == before[k];
        ok := started && ok;
      }
    }

    method StartProcess(spec0: Spec, fork: Forked, now: real) returns (r: Reply)
      modifies this
      ensures (View(), r) == Op.StartProcess(old(View()), spec0, fork, now)
    {
      var spec := spec0;
      if spec.name == "" {
        spec := spec.(name := spec.command);
      }
      if spec.name == "" || spec.command == "" {
        return Invalid;
      }
      var i := FindByName(spec.name);
      if i >= 0 {
        if processes[i].pid > 0 {
          return AlreadyRunning;
        }
        processes := processes[i := processes[i].(spec := spec)];
        var _ := StartOne(i, fork, now);
        return StartRequested;
      }
      processes := processes + [NewProcess(spec)];
      var _ := StartOne(|processes| - 1, fork, now);
      return StartRequested;
    }

    method StopProcess(name: string, pid: int, timeout: real, now: real) returns (r: Reply)
      modifies this
      ensures (View(), r) == Op.StopProcess(old(View()), name, pid, timeout, now)
    {
      var i := -1;
      if name != "" {
        i := FindByName(name);
      }
      if i < 0 && pid > 0 {
        i := FindByPid(pid);
      }
      if i < 0 {
        return NotFound;
      }
      if processes[i].pid <= 0 {
        return AlreadyStopped;
      }
      StopOne(i, timeout, true, now);
      return StopRequested;
    }

    method StopOne(i: nat, timeout: real, intentional: bool, now: real)
      requires i < |processes|
      modifies this
      ensures View() == Op.StopOne(old(View()), i, timeout, intentional, now)
    {
      if processes[i].pid <= 0 {
        return;
      }
      var p := processes[i];
      p := p.(state := Stopping);
      p := p.(intentionalStop := intentional);
      p := p.(stopDeadline := now + if timeout > 0.0 then timeout else p.spec.shutdownTimeout);
      processes := processes[i := p];
      EmitEvent(i, Stopping);
      signals := signals + [Signal(p.pid, false, now, p.stopDeadline)];
    }

    /** Poll's loop takes one waitpid result after another until none is left. */
    method Poll(outcomes: seq<Outcome>, now: real, clock: seq<real>)
      requires |clock| == |processes|
      modifies this
      ensures View() == Op.Poll(old(View()), outcomes, now, clock)
    {
      ReapReported(outcomes);
      CheckHeartbeatTimeouts(now, clock);
    }

    method ReapReported(outcomes: seq<Outcome>)
      modifies this
      ensures View() == ReapAll(old(View()), outcomes)
    {
      var k := 0;
      while k < |outcomes|
        invariant 0 <= k <= |outcomes|
        invariant View() == ReapAll(old(View()), outcomes[..k])
      {
        assert outcomes[..k + 1][..k] == outcomes[..k];
        match outcomes[k] {
          case Reaped(pid, status, fork, now) => HandleExit(pid, status, fork, now);
          case Interrupted =>
        }
        k := k + 1;
      }
      assert outcomes[..|outcomes|] == outcomes;
    }

    method HandleExit(pid: int, status: Status, fork: Forked, now: real)
      modifies this
      ensures View() == Op.HandleExit(old(View()), pid, status, fork, now)
    {
      hide Op.StartOne, ShouldRestart;
      var i := FindByPid(pid);
      if i < 0 {
        return;
      }
      var intentional := processes[i].intentionalStop;
      CloseEntry(i, status);
      if !stopping && !intentional && ShouldRestart(processes[i], status) {
        processes := processes[i := processes[i].(restartCount := processes[i].restartCount + 1)];
        var _ := StartOne(i, fork, now);
      }
    }

    /** The first half of HandleExit, up to the restart decision. */
    method CloseEntry(i: nat, status: Status)
      requires i < |processes|
      modifies this
      ensures View() == Reap(old(View()), i, status)
      ensures ShouldRestart(processes[i], status) == ShouldRestart(old(processes[i]), status)
    {
      var state :=
        if stopping || processes[i].intentionalStop then Stopped else if Success(status) then Exited else Failed;
      processes := processes[i := processes[i].(state := state)];
      EmitEvent(i, state);
      children := children - {processes[i].pid};
      processes := processes[i := processes[i].(pid := -1, intentionalStop := false)];
    }

    method StopAll(clock: seq<real>, rounds: seq<Round>) returns (finished: bool)
      requires |clock| == |processes|
      modifies this
      ensures finished ==> NoneLive(View())
      ensures rounds != [] && NoneLive(View()) ==> finished
      ensures exists n | 0 <= n <= |rounds| ::
                View() == StopRounds(BeginStopAll(old(View()), clock), rounds[..n]) && (finished || n == |rounds|)
    {
      stopping := true;
      for i := 0 to |processes|
        invariant |processes| == |clock|
        invariant View() == StopFirst(old(View()).(stopping := true), clock, i)
      {
        StopOne(i, 0.0, true, clock[i]);
      }
      ghost var begun := View();
      var k, anyRunning := 0, true;
      while anyRunning && k < |rounds|
        invariant 0 <= k <= |rounds|
        invariant !anyRunning ==> NoneLive(View())
        invariant k > 0 && anyRunning ==> !NoneLive(View())
        invariant View() == StopRounds(begun, rounds[..k])
        decreases |rounds| - k
      {
        assert rounds[..k + 1][..k] == rounds[..k];
        ReapReported(rounds[k].outcomes);
        anyRunning := KillOverdue(rounds[k].now);
        k := k + 1;
      }
      finished := !anyRunning;
    }

    /** The sweep at the end of each StopAll iteration. */
    method KillOverdue(now: real) returns (anyRunning: bool)
      modifies `processes, `signals
      ensures View() == SweepFirst(old(View()), now, |old(processes)|)
      ensures anyRunning <==> !NoneLive(View())
    {
      anyRunning := false;
      for i := 0 to |processes|
        invariant |processes| == |old(processes)|
        invariant View() == SweepFirst(old(View()), now, i)
        invariant forall k | 0 <= k < |processes| :: processes[k].pid == old(processes)[k].pid
        invariant !anyRunning ==> forall k | 0 <= k < i :: old(processes)[k].pid <= 0
        invariant anyRunning ==> exists k | 0 <= k < i :: old(processes)[k].pid > 0
      {
        if processes[i].pid > 0 {
          anyRunning := true;
          if now >= processes[i].stopDeadline {
            signals := signals + [Signal(processes[i].pid, true, now, processes[i].stopDeadline)];
            processes := processes[i := processes[i].(stopDeadline := now + 1000.0)];
          }
        }
      }
    }

    method MarkHeartbeat(name: string, now: real) returns (found: bool)
      modifies this
      ensures (View(), found) == Op.MarkHeartbeat(old(View()), name, now)
    {
      var i := FindByName(name);
      if i < 0 {
        return false;
      }
      processes := processes[i := processes[i].(hasHeartbeat := true, lastHeartbeat := now)];
      return true;
    }

    method CheckHeartbeatTimeouts(now: real, clock: seq<real>)
      requires |clock| == |processes|
      modifies this
      ensures View() == CheckHeartbeats(old(View()), now, clock)
    {
      if stopping {
        return;
      }
      for i := 0 to |processes|
        invariant |processes| == |clock| == |old(processes)|
        invariant View() == CheckFirst(old(View()), now, clock, i)
      {
        var p := processes[i];
        if p.pid <= 0 || p.state == Stopping {
        } else if p.spec.heartbeatTimeout > 0.0 && !p.hasHeartbeat && p.spec.startupTimeout > 0.0
                  && now - p.startTime > p.spec.startupTimeout {
          StopOne(i, 0.0, false, clock[i]);
        } else if p.hasHeartbeat && p.spec.heartbeatTimeout > 0.0
                  && now - p.lastHeartbeat > p.spec.heartbeatTimeout {
          StopOne(i, 0.0, false, clock[i]);
        }
      }
    }
  }
}

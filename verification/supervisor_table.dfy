/** The process table agrees with the kernel, and every trace of events is well formed. */
module SupervisorTable {
  import opened Supervisor
  import opened SupervisorSteps

  predicate EntryAgrees(p: Process) {
    && (p.pid > 0 || p.pid == -1)
    && p.state != Starting
    && (p.pid > 0 <==> p.state == Running || p.state == Stopping)
    && (p.intentionalStop ==> p.state == Stopping)
  }

  predicate Distinct(procs: seq<Process>) {
    forall i, j | 0 <= i < j < |procs| && procs[i].pid > 0 :: procs[i].pid != procs[j].pid
  }

  ghost function LivePids(procs: seq<Process>): set<int> {
    set i | 0 <= i < |procs| && procs[i].pid > 0 :: procs[i].pid
  }

  /** The table holds each unreaped child exactly once and nothing else as live. */
  ghost predicate Table(m: Manager) {
    && (forall i | 0 <= i < |m.procs| :: EntryAgrees(m.procs[i]))
    && Distinct(m.procs)
    && m.children == LivePids(m.procs)
  }

  lemma PidIsLive(procs: seq<Process>, i: nat)
    requires i < |procs| && procs[i].pid > 0
    ensures procs[i].pid in LivePids(procs)
  {
  }

  /** Replacing one entry replaces at most its own pid. */
  lemma LivePidsPut(procs: seq<Process>, i: nat, p: Process)
    requires i < |procs| && Distinct(procs)
    ensures LivePids(procs[i := p]) == LivePids(procs) - {procs[i].pid} + (if p.pid > 0 then {p.pid} else {})
  {
    var after := procs[i := p];
    forall c ensures c in LivePids(after) <==>
                     c in LivePids(procs) - {procs[i].pid} + (if p.pid > 0 then {p.pid} else {})
    {
      if c in LivePids(after) {
        var k :| 0 <= k < |after| && after[k].pid > 0 && after[k].pid == c;
        if k != i {
          assert procs[k].pid == c;
        }
      }
      if c in LivePids(procs) && c != procs[i].pid {
        var k :| 0 <= k < |procs| && procs[k].pid > 0 && procs[k].pid == c;
        assert after[k].pid == c;
      }
      if p.pid > 0 && c == p.pid {
        PidIsLive(after, i);
      }
    }
  }

  /** One entry changes, and with it at most its own child. */
  lemma PutInTable(m: Manager, i: nat, p: Process, m': Manager)
    requires Table(m) && i < |m.procs| && EntryAgrees(p)
    requires p.pid > 0 ==> p.pid !in m.children - {m.procs[i].pid}
    requires m'.procs == m.procs[i := p]
    requires m'.children == m.children - {m.procs[i].pid} + (if p.pid > 0 then {p.pid} else {})
    ensures Table(m')
  {
    LivePidsPut(m.procs, i, p);
    forall j, k | 0 <= j < k < |m'.procs| && m'.procs[j].pid > 0 ensures m'.procs[j].pid != m'.procs[k].pid {
      if j == i {
        if m.procs[k].pid > 0 {
          PidIsLive(m.procs, k);
        }
      } else if k == i {
        PidIsLive(m.procs, j);
      }
    }
  }

  // ------------------------------------------------------------ traces

  /** The events process i has emitted. */
  function Trace(events: seq<Event>, i: nat): (t: seq<Event>)
    ensures forall e | e in t :: e.index == i
  {
    if events == [] then []
    else
      var last := events[|events| - 1];
      Trace(events[..|events| - 1], i) + if last.index == i then [last] else []
  }

  datatype Phase = Idle | Launching | Live(pid: int, stopping: bool) | Broken

  /** Starting (Failed | Running Stopping* (Stopped | Exited | Failed)); from Running on with the child's pid. */
  function Next(phase: Phase, e: Event): Phase {
    match phase
    case Idle => if e.state == Starting && e.pid == -1 then Launching else Broken
    case Launching =>
      if e.state == Failed && e.pid == -1 then Idle
      else if e.state == Running && e.pid > 0 then Live(e.pid, false)
      else Broken
    case Live(pid, _) =>
      if e.pid != pid then Broken
      else if e.state == Stopping then Live(pid, true)
      else if e.state == Stopped || e.state == Exited || e.state == Failed then Idle
      else Broken
    case Broken => Broken
  }

  function PhaseOf(t: seq<Event>): Phase {
    if t == [] then Idle else Next(PhaseOf(t[..|t| - 1]), t[|t| - 1])
  }

  function Expected(p: Process): Phase {
    if p.pid > 0 then Live(p.pid, p.state == Stopping) else Idle
  }

  /** Each process has emitted a well-formed trace that ends where the table says it is. */
  ghost predicate Traced(m: Manager) {
    && (forall i: nat | i < |m.procs| :: PhaseOf(Trace(m.events, i)) == Expected(m.procs[i]))
    && (forall e | e in m.events :: e.index < |m.procs|)
  }

  ghost predicate Inv(m: Manager) {
    Table(m) && Traced(m)
  }

  lemma TraceThen(events: seq<Event>, e: Event, i: nat)
    ensures Trace(events + [e], i) == Trace(events, i) + if e.index == i then [e] else []
  {
    assert (events + [e])[..|events|] == events;
  }

  lemma PhaseThen(t: seq<Event>, e: Event)
    ensures PhaseOf(t + [e]) == Next(PhaseOf(t), e)
  {
    assert (t + [e])[..|t|] == t;
  }

  lemma {:induction false} TraceOfNobody(events: seq<Event>, i: nat)
    requires forall e | e in events :: e.index < i
    ensures Trace(events, i) == []
  {
    if events != [] {
      TraceOfNobody(events[..|events| - 1], i);
      assert events[|events| - 1] in events;
    }
  }

  /** What one more event of process i does to every phase. */
  lemma PhaseOfEmit(events: seq<Event>, e: Event, j: nat)
    ensures PhaseOf(Trace(events + [e], j)) ==
            if e.index == j then Next(PhaseOf(Trace(events, j)), e) else PhaseOf(Trace(events, j))
  {
    TraceThen(events, e, j);
    PhaseThen(Trace(events, j), e);
    assert Trace(events, j) + [] == Trace(events, j);
  }

  /** Entry i changes and emits one event that its phase allows. */
  lemma EmitInTrace(m: Manager, i: nat, e: Event, m': Manager)
    requires i < |m.procs| && |m'.procs| == |m.procs|
    requires forall e' | e' in m.events :: e'.index < |m.procs|
    requires forall j: nat | j < |m.procs| && j != i ::
               m'.procs[j] == m.procs[j] && PhaseOf(Trace(m.events, j)) == Expected(m.procs[j])
    requires e.index == i && m'.events == m.events + [e]
    requires Next(PhaseOf(Trace(m.events, i)), e) == Expected(m'.procs[i])
    ensures Traced(m')
  {
    forall j: nat | j < |m'.procs| ensures PhaseOf(Trace(m'.events, j)) == Expected(m'.procs[j]) {
      PhaseOfEmit(m.events, e, j);
    }
  }

  // ------------------------------------------------------------ steps keep both

  lemma StartOneKeepsTable(m: Manager, i: nat, fork: Forked, now: real)
    requires Table(m) && i < |m.procs| && (m.procs[i].pid > 0 || Fresh(m.children, fork))
    ensures Table(StartOne(m, i, fork, now))
  {
    if m.procs[i].pid <= 0 {
      assert EntryAgrees(m.procs[i]);
      var m' := StartOne(m, i, fork, now);
      PutInTable(m, i, m'.procs[i], m');
    }
  }

  lemma StartOneKeepsTraced(m: Manager, i: nat, fork: Forked, now: real)
    requires Inv(m) && i < |m.procs|
    ensures Traced(StartOne(m, i, fork, now))
  {
    hide Trace, PhaseOf, LivePids, Distinct;
    if m.procs[i].pid <= 0 {
      assert EntryAgrees(m.procs[i]);
      var e := Event(i, -1, Starting);
      var m' := StartOne(m, i, fork, now);
      PhaseOfEmit(m.events, e, i);
      var m1 := m.(events := m.events + [e]);
      forall j: nat | j < |m.procs| && j != i
        ensures PhaseOf(Trace(m1.events, j)) == Expected(m1.procs[j])
      {
        PhaseOfEmit(m.events, e, j);
      }
      EmitInTrace(m1, i, if fork < 0 then Event(i, -1, Failed) else Event(i, fork, Running), m');
    }
  }

  lemma ReapKeeps(m: Manager, i: nat, status: Status)
    requires Inv(m) && i < |m.procs| && m.procs[i].pid > 0
    ensures Inv(Reap(m, i, status))
  {
    assert EntryAgrees(m.procs[i]);
    var m' := Reap(m, i, status);
    PutInTable(m, i, m'.procs[i], m');
    EmitInTrace(m, i, Event(i, m.procs[i].pid, EndState(m, m.procs[i], status)), m');
  }

  /** Changing a field no invariant mentions. */
  lemma QuietPut(m: Manager, i: nat, p: Process, m': Manager)
    requires Inv(m) && i < |m.procs|
    requires p.pid == m.procs[i].pid && p.state == m.procs[i].state && p.intentionalStop == m.procs[i].intentionalStop
    requires m'.procs == m.procs[i := p] && m'.children == m.children && m'.events == m.events
    ensures Inv(m')
  {
    assert EntryAgrees(m.procs[i]);
    if p.pid > 0 {
      PidIsLive(m.procs, i);
    } else {
      assert p.pid !in m.children;
    }
    assert m.children == m.children - {p.pid} + (if p.pid > 0 then {p.pid} else {});
    PutInTable(m, i, p, m');
  }

  lemma HandleExitKeeps(m: Manager, pid: int, status: Status, fork: Forked, now: real)
    requires Inv(m) && pid > 0 && Fresh(m.children - {pid}, fork)
    ensures Inv(HandleExit(m, pid, status, fork, now))
  {
    hide StartOne, ShouldRestart, Traced, Table, Reap;
    var i := PidIndexFrom(m.procs, pid, 0);
    if i >= 0 {
      ReapKeeps(m, i, status);
      var m1 := Reap(m, i, status);
      ReapFrees(m, i, status);
      if Restarts(m, m.procs[i], status) {
        var p := m1.procs[i].(restartCount := m.procs[i].restartCount + 1);
        var m2 := Put(m1, i, p);
        QuietPut(m1, i, p, m2);
        assert m2.procs[i].pid <= 0;
        StartOneKeepsTable(m2, i, fork, now);
        StartOneKeepsTraced(m2, i, fork, now);
      }
    }
  }

  lemma ReapFrees(m: Manager, i: nat, status: Status)
    requires i < |m.procs|
    ensures var r := Reap(m, i, status); r.children == m.children - {m.procs[i].pid} && r.procs[i].pid == -1
  {
  }

  lemma StopOneKeeps(m: Manager, i: nat, timeout: real, intentional: bool, now: real)
    requires Inv(m) && i < |m.procs|
    ensures Inv(StopOne(m, i, timeout, intentional, now))
  {
    if m.procs[i].pid > 0 {
      var m' := StopOne(m, i, timeout, intentional, now);
      var p := m'.procs[i];
      PidIsLive(m.procs, i);
      assert m.children == m.children - {p.pid} + {p.pid};
      PutInTable(m, i, p, m');
      EmitInTrace(m, i, Event(i, p.pid, Stopping), m');
    }
  }

  /** A process that is not running adds no pid. */
  lemma LivePidsAppend(procs: seq<Process>, p: Process)
    requires p.pid <= 0
    ensures LivePids(procs + [p]) == LivePids(procs)
  {
    var after := procs + [p];
    forall c | c in LivePids(procs) ensures c in LivePids(after) {
      var k :| 0 <= k < |procs| && procs[k].pid > 0 && procs[k].pid == c;
      assert after[k].pid == c;
    }
  }

  lemma AppendKeeps(m: Manager, spec: Spec)
    requires Inv(m)
    ensures Inv(m.(procs := m.procs + [NewProcess(spec)]))
  {
    hide LivePids, Trace, PhaseOf;
    TraceOfNobody(m.events, |m.procs|);
    assert PhaseOf([]) == Idle by { EmptyIsIdle(); }
    LivePidsAppend(m.procs, NewProcess(spec));
  }

  lemma EmptyIsIdle()
    ensures PhaseOf([]) == Idle
  {
  }

  lemma StepKeepsInv(m: Manager, s: Step)
    requires Inv(m) && Fits(m, s)
    ensures Inv(Apply(m, s))
  {
    hide Traced, Table, StartOne, HandleExit, StopOne;
    match s {
      case Launch(i, fork, now) =>
        StartOneKeepsTable(m, i, fork, now);
        StartOneKeepsTraced(m, i, fork, now);
      case Exit(pid, status, fork, now) => HandleExitKeeps(m, pid, status, fork, now);
      case Stop(i, timeout, intentional, now) => StopOneKeeps(m, i, timeout, intentional, now);
      case Kill(i, now) =>
        if Overdue(m.procs[i], now) {
          QuietPut(m, i, m.procs[i].(stopDeadline := now + 1000.0), KillOne(m, i, now));
        }
      case Beat(i, now) => QuietPut(m, i, m.procs[i].(hasHeartbeat := true, lastHeartbeat := now), Apply(m, s));
      case Install(i, spec) => QuietPut(m, i, m.procs[i].(spec := spec), Apply(m, s));
      case Append(spec) => AppendKeeps(m, spec);
      case Refuse => RefuseKeeps(m);
    }
  }

  lemma RefuseKeeps(m: Manager)
    requires Inv(m)
    ensures Inv(m.(stopping := true))
  {
  }

  lemma {:induction false} StepsKeepInv(m: Manager, steps: seq<Step>)
    requires Inv(m) && StepsFit(m, steps)
    ensures Inv(Steps(m, steps))
  {
    hide Inv;
    if steps != [] {
      var last := |steps| - 1;
      StepsKeepInv(m, steps[..last]);
      StepKeepsInv(Steps(m, steps[..last]), steps[last]);
    }
  }

  lemma CreatedIsInv(specs: seq<Spec>)
    ensures Inv(Created(specs))
  {
    assert LivePids(Created(specs).procs) == {};
  }

  /** After any calls, the positive pids in the table are pairwise distinct and exactly the unreaped children. */
  lemma TableAgreesWithKernel(specs: seq<Spec>, calls: seq<Call>)
    requires RunReal(Created(specs), calls)
    ensures Table(Run(Created(specs), calls))
  {
    var m := Created(specs);
    CreatedIsInv(specs);
    var steps := RunAsSteps(m, calls);
    StepsKeepInv(m, steps);
  }

  // ------------------------------------------------------------ the trace grammar

  predicate FailedStart(t: seq<Event>) {
    |t| == 2 && t[0].state == Starting && t[0].pid == -1 && t[1].state == Failed && t[1].pid == -1
  }

  /** Starting, Running and any number of Stopping, all but the first with the same pid. */
  predicate Unfinished(t: seq<Event>, pid: int) {
    && |t| >= 2 && pid > 0
    && t[0].state == Starting && t[0].pid == -1
    && t[1].state == Running && t[1].pid == pid
    && (forall k | 2 <= k < |t| :: t[k].state == Stopping && t[k].pid == pid)
  }

  predicate Finished(t: seq<Event>) {
    && |t| >= 3
    && var last := t[|t| - 1];
       Unfinished(t[..|t| - 1], last.pid) && (last.state == Stopped || last.state == Exited || last.state == Failed)
  }

  function Flatten(parts: seq<seq<Event>>): seq<Event> {
    if parts == [] then [] else Flatten(parts[..|parts| - 1]) + parts[|parts| - 1]
  }

  /** The incarnations a trace consists of, and the start of the current one. */
  ghost predicate Incarnations(t: seq<Event>, parts: seq<seq<Event>>, open: seq<Event>) {
    && t == Flatten(parts) + open
    && (forall k | 0 <= k < |parts| :: FailedStart(parts[k]) || Finished(parts[k]))
  }

  /** What has been seen of the current incarnation in each phase. */
  predicate Opened(phase: Phase, open: seq<Event>) {
    match phase
    case Idle => open == []
    case Launching => |open| == 1 && open[0].state == Starting && open[0].pid == -1
    case Live(pid, stopping) => Unfinished(open, pid) && (stopping <==> |open| > 2)
    case Broken => false
  }

  lemma OpenStep(phase: Phase, open: seq<Event>, e: Event)
    requires Opened(phase, open) && Next(phase, e) != Broken
    ensures Next(phase, e) != Idle ==> Opened(Next(phase, e), open + [e])
    ensures Next(phase, e) == Idle ==> FailedStart(open + [e]) || Finished(open + [e])
  {
    if phase.Live? {
      assert (open + [e])[..|open|] == open;
    }
  }

  lemma ClosePart(t: seq<Event>, parts: seq<seq<Event>>, part: seq<Event>)
    requires Incarnations(t, parts, part) && (FailedStart(part) || Finished(part))
    ensures Incarnations(t, parts + [part], [])
  {
    assert (parts + [part])[..|parts|] == parts;
    assert Flatten(parts + [part]) + [] == Flatten(parts) + part;
  }

  lemma ExtendOpen(t: seq<Event>, parts: seq<seq<Event>>, open: seq<Event>, e: Event)
    requires Incarnations(t, parts, open)
    ensures Incarnations(t + [e], parts, open + [e])
  {
    hide Flatten, FailedStart, Finished;
    assert Flatten(parts) + open + [e] == Flatten(parts) + (open + [e]);
  }

  lemma NothingOpened()
    ensures PhaseOf([]) == Idle && Incarnations([], [], []) && Opened(Idle, [])
  {
  }

  /** One more event, in the phase the trace is in. */
  lemma GrammarStep(t: seq<Event>, phase: Phase, parts: seq<seq<Event>>, open: seq<Event>, e: Event)
    returns (parts': seq<seq<Event>>, open': seq<Event>)
    requires Incarnations(t, parts, open) && Opened(phase, open) && Next(phase, e) != Broken
    ensures Incarnations(t + [e], parts', open') && Opened(Next(phase, e), open')
  {
    hide *;
    OpenStep(phase, open, e);
    ExtendOpen(t, parts, open, e);
    parts', open' := parts, open + [e];
    if Next(phase, e) == Idle {
      ClosePart(t + [e], parts', open');
      NothingOpened();
      parts', open' := parts' + [open'], [];
    }
  }

  /** An unbroken trace is a sequence of incarnations, then the current one if the process is live. */
  lemma {:induction false} TraceGrammar(t: seq<Event>) returns (parts: seq<seq<Event>>, open: seq<Event>)
    requires PhaseOf(t) != Broken
    ensures Incarnations(t, parts, open) && Opened(PhaseOf(t), open)
  {
    hide *;
    if t == [] {
      NothingOpened();
      parts, open := [], [];
    } else {
      var front, e := t[..|t| - 1], t[|t| - 1];
      assert t == front + [e];
      PhaseThen(front, e);
      if PhaseOf(front) == Broken {
        BrokenStays(t);
      }
      parts, open := TraceGrammar(front);
      parts, open := GrammarStep(front, PhaseOf(front), parts, open, e);
    }
  }

  lemma BrokenStays(t: seq<Event>)
    requires t != [] && PhaseOf(t[..|t| - 1]) == Broken
    ensures PhaseOf(t) == Broken
  {
  }

  /** In every run each process's events are complete incarnations, then the current one if it is live. */
  lemma TracesAreWellFormed(specs: seq<Spec>, calls: seq<Call>, i: nat)
    returns (parts: seq<seq<Event>>, open: seq<Event>)
    requires RunReal(Created(specs), calls)
    requires i < |Run(Created(specs), calls).procs|
    ensures var m := Run(Created(specs), calls);
            && Incarnations(Trace(m.events, i), parts, open)
            && if m.procs[i].pid > 0
               then Unfinished(open, m.procs[i].pid) && (m.procs[i].state == Stopping <==> |open| > 2)
               else open == []
  {
    var m0 := Created(specs);
    CreatedIsInv(specs);
    var steps := RunAsSteps(m0, calls);
    StepsKeepInv(m0, steps);
    var m := Run(m0, calls);
    assert PhaseOf(Trace(m.events, i)) == Expected(m.procs[i]);
    parts, open := TraceGrammar(Trace(m.events, i));
  }
}

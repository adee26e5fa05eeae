/**
 The launch manager's supervisor as operations on values.

 Answers of the operating system are parameters: what fork() returns, which child
 waitpid() reports and how it ended, and what the steady clock reads (milliseconds, as
 reals). `children`, `events` and `signals` record the forked and unreaped children, the
 emitted process events and the signals sent; the table's own fields are `procs` and
 `stopping`.
 */
module Supervisor {

  datatype Policy = Never | OnFailure | Always

  datatype Spec = Spec(
    name: string, command: string, restart: Policy, restartLimit: nat,
    startupTimeout: real, shutdownTimeout: real, heartbeatTimeout: real)

  datatype State = Starting | Running | Stopping | Stopped | Exited | Failed

  datatype Process = Process(
    spec: Spec, pid: int, state: State, restartCount: nat,
    startTime: real, hasHeartbeat: bool, lastHeartbeat: real,
    intentionalStop: bool, stopDeadline: real)

  /** How a child ended. */
  datatype Status = ExitCode(code: int) | Signaled(signal: int) | OtherStatus

  datatype Event = Event(index: nat, pid: int, state: State)

  /** kill() with SIGTERM, or with SIGKILL when `hard`; the deadline is the one in force. */
  datatype Signal = Signal(pid: int, hard: bool, at: real, deadline: real)

  /** What fork() returns to the parent: an error or a child's pid. */
  type Forked = f: int | f != 0 witness 1

  /** One return of waitpid: a reaped child (with what a fork on its behalf would return), or EINTR. */
  datatype Outcome = Reaped(pid: int, status: Status, fork: Forked, now: real) | Interrupted

  datatype Manager = Manager(
    procs: seq<Process>, stopping: bool,
    children: set<int>, events: seq<Event>, signals: seq<Signal>)

  function NewProcess(spec: Spec): Process {
    Process(spec, -1, Stopped, 0, 0.0, false, 0.0, false, 0.0)
  }

  function Created(specs: seq<Spec>): Manager {
    Manager(seq(|specs|, i requires 0 <= i < |specs| => NewProcess(specs[i])), false, {}, [], [])
  }

  predicate Success(status: Status) {
    status == ExitCode(0)
  }

  // ------------------------------------------------------------ look-up

  /** The first process, from `from` on, with this pid; -1 when there is none. */
  function PidIndexFrom(procs: seq<Process>, pid: int, from: nat): (r: int)
    requires from <= |procs|
    ensures r == -1 || (from <= r < |procs| && procs[r].pid == pid)
    ensures forall k | from <= k < if r == -1 then |procs| else r :: procs[k].pid != pid
    decreases |procs| - from
  {
    if from == |procs| then -1
    else if procs[from].pid == pid then from
    else PidIndexFrom(procs, pid, from + 1)
  }

  function NameIndexFrom(procs: seq<Process>, name: string, from: nat): (r: int)
    requires from <= |procs|
    ensures r == -1 || (from <= r < |procs| && procs[r].spec.name == name)
    ensures forall k | from <= k < if r == -1 then |procs| else r :: procs[k].spec.name != name
    decreases |procs| - from
  {
    if from == |procs| then -1
    else if procs[from].spec.name == name then from
    else NameIndexFrom(procs, name, from + 1)
  }

  // ------------------------------------------------------------ one process

  function Put(m: Manager, i: nat, p: Process): (r: Manager)
    requires i < |m.procs|
    ensures |r.procs| == |m.procs|
  {
    m.(procs := m.procs[i := p])
  }

  function Emit(m: Manager, i: nat, state: State): (r: Manager)
    requires i < |m.procs|
    ensures r.procs == m.procs
  {
    m.(events := m.events + [Event(i, m.procs[i].pid, state)])
  }

  function StartOne(m: Manager, i: nat, fork: Forked, now: real): (r: Manager)
    requires i < |m.procs|
    ensures |r.procs| == |m.procs|
  {
    var p := m.procs[i];
    if p.pid > 0 then m
    else
      var p1 := p.(state := Starting, hasHeartbeat := false, intentionalStop := false);
      var m1 := Emit(Put(m, i, p1), i, Starting);
      if fork < 0 then Emit(Put(m1, i, p1.(state := Failed)), i, Failed)
      else
        var p2 := p1.(pid := fork, state := Running, startTime := now);
        Emit(Put(m1, i, p2), i, Running).(children := m.children + {fork})
  }

  function ShouldRestart(p: Process, status: Status): bool {
    if p.spec.restart == Never then false
    else if p.spec.restartLimit != 0 && p.restartCount >= p.spec.restartLimit then false
    else if p.spec.restart == Always then true
    else !Success(status)
  }

  /** The state an ended process is left in. */
  function EndState(m: Manager, p: Process, status: Status): State {
    if m.stopping || p.intentionalStop then Stopped else if Success(status) then Exited else Failed
  }

  function Restarts(m: Manager, p: Process, status: Status): bool {
    !m.stopping && !p.intentionalStop && ShouldRestart(p, status)
  }

  /** The child has been reaped and its table entry closed. */
  function Reap(m: Manager, i: nat, status: Status): (r: Manager)
    requires i < |m.procs|
    ensures |r.procs| == |m.procs|
  {
    var p := m.procs[i];
    var state := EndState(m, p, status);
    var m1 := Emit(Put(m, i, p.(state := state)), i, state);
    Put(m1, i, p.(state := state, pid := -1, intentionalStop := false)).(children := m.children - {p.pid})
  }

  function HandleExit(m: Manager, pid: int, status: Status, fork: Forked, now: real): (r: Manager)
    ensures |r.procs| == |m.procs|
  {
    var i := PidIndexFrom(m.procs, pid, 0);
    if i < 0 then m
    else
      var p, m1 := m.procs[i], Reap(m, i, status);
      if Restarts(m, p, status) then
        StartOne(Put(m1, i, m1.procs[i].(restartCount := p.restartCount + 1)), i, fork, now)
      else m1
  }

  function StopOne(m: Manager, i: nat, timeout: real, intentional: bool, now: real): (r: Manager)
    requires i < |m.procs|
    ensures |r.procs| == |m.procs|
  {
    var p := m.procs[i];
    if p.pid <= 0 then m
    else
      var deadline := now + if timeout > 0.0 then timeout else p.spec.shutdownTimeout;
      var m1 := Put(m, i, p.(state := Stopping, intentionalStop := intentional, stopDeadline := deadline));
      Emit(m1, i, Stopping).(signals := m.signals + [Signal(p.pid, false, now, deadline)])
  }

  // ------------------------------------------------------------ whole table

  /** One pass of the start loop: the first n processes have been started. */
  function StartFirst(m: Manager, forks: seq<(Forked, real)>, n: nat): (r: Manager)
    requires n <= |m.procs| == |forks|
    ensures |r.procs| == |m.procs|
  {
    if n == 0 then m else StartOne(StartFirst(m, forks, n - 1), n - 1, forks[n - 1].0, forks[n - 1].1)
  }

  function StartAll(m: Manager, forks: seq<(Forked, real)>): Manager
    requires |m.procs| == |forks|
  {
    StartFirst(m, forks, |m.procs|)
  }

  datatype Reply = Invalid | AlreadyRunning | StartRequested | NotFound | AlreadyStopped | StopRequested

  function Named(spec: Spec): Spec {
    if spec.name == "" then spec.(name := spec.command) else spec
  }

  function StartProcess(m: Manager, spec0: Spec, fork: Forked, now: real): (Manager, Reply) {
    var spec := Named(spec0);
    if spec.name == "" || spec.command == "" then (m, Invalid)
    else
      var i := NameIndexFrom(m.procs, spec.name, 0);
      if i >= 0 then
        if m.procs[i].pid > 0 then (m, AlreadyRunning)
        else (StartOne(Put(m, i, m.procs[i].(spec := spec)), i, fork, now), StartRequested)
      else
        (StartOne(m.(procs := m.procs + [NewProcess(spec)]), |m.procs|, fork, now), StartRequested)
  }

  /** By name first, then by pid. */
  function StopTarget(m: Manager, name: string, pid: int): (r: int)
    ensures r == -1 || 0 <= r < |m.procs|
  {
    var byName := if name != "" then NameIndexFrom(m.procs, name, 0) else -1;
    if byName < 0 && pid > 0 then PidIndexFrom(m.procs, pid, 0) else byName
  }

  function StopProcess(m: Manager, name: string, pid: int, timeout: real, now: real): (Manager, Reply) {
    var i := StopTarget(m, name, pid);
    if i < 0 then (m, NotFound)
    else if m.procs[i].pid <= 0 then (m, AlreadyStopped)
    else (StopOne(m, i, timeout, true, now), StopRequested)
  }

  function MarkHeartbeat(m: Manager, name: string, now: real): (Manager, bool) {
    var i := NameIndexFrom(m.procs, name, 0);
    if i < 0 then (m, false)
    else (Put(m, i, m.procs[i].(hasHeartbeat := true, lastHeartbeat := now)), true)
  }

  predicate HeartbeatLate(p: Process, now: real) {
    && p.pid > 0 && p.state != Stopping && p.spec.heartbeatTimeout > 0.0
    && if !p.hasHeartbeat then p.spec.startupTimeout > 0.0 && now - p.startTime > p.spec.startupTimeout
       else now - p.lastHeartbeat > p.spec.heartbeatTimeout
  }

  /** The first n processes have been checked against `now`; `clock[k]` is read when process k is stopped. */
  function CheckFirst(m: Manager, now: real, clock: seq<real>, n: nat): (r: Manager)
    requires n <= |m.procs| == |clock|
    ensures |r.procs| == |m.procs|
  {
    if n == 0 then m
    else
      var m1 := CheckFirst(m, now, clock, n - 1);
      if HeartbeatLate(m1.procs[n - 1], now) then StopOne(m1, n - 1, 0.0, false, clock[n - 1]) else m1
  }

  function CheckHeartbeats(m: Manager, now: real, clock: seq<real>): (r: Manager)
    requires |m.procs| == |clock|
    ensures |r.procs| == |m.procs|
  {
    if m.stopping then m else CheckFirst(m, now, clock, |m.procs|)
  }

  /** The reaping loop of Poll over everything waitpid reports. */
  function ReapAll(m: Manager, outcomes: seq<Outcome>): (r: Manager)
    ensures |r.procs| == |m.procs|
  {
    if outcomes == [] then m
    else
      var m1 := ReapAll(m, outcomes[..|outcomes| - 1]);
      match outcomes[|outcomes| - 1]
      case Interrupted => m1
      case Reaped(pid, status, fork, now) => HandleExit(m1, pid, status, fork, now)
  }

  function Poll(m: Manager, outcomes: seq<Outcome>, now: real, clock: seq<real>): (r: Manager)
    requires |m.procs| == |clock|
    ensures |r.procs| == |m.procs|
  {
    CheckHeartbeats(ReapAll(m, outcomes), now, clock)
  }

  function StopFirst(m: Manager, clock: seq<real>, n: nat): (r: Manager)
    requires n <= |m.procs| == |clock|
    ensures |r.procs| == |m.procs|
  {
    if n == 0 then m else StopOne(StopFirst(m, clock, n - 1), n - 1, 0.0, true, clock[n - 1])
  }

  predicate Overdue(p: Process, now: real) {
    p.pid > 0 && now >= p.stopDeadline
  }

  /** What the kill sweep of StopAll does to one process. */
  function KillOne(m: Manager, i: nat, now: real): (r: Manager)
    requires i < |m.procs|
    ensures |r.procs| == |m.procs|
  {
    var p := m.procs[i];
    if Overdue(p, now) then
      Put(m, i, p.(stopDeadline := now + 1000.0)).(signals := m.signals + [Signal(p.pid, true, now, p.stopDeadline)])
    else m
  }

  /** The kill sweep over the first n processes. */
  function SweepFirst(m: Manager, now: real, n: nat): (r: Manager)
    requires n <= |m.procs|
    ensures |r.procs| == |m.procs|
  {
    if n == 0 then m else KillOne(SweepFirst(m, now, n - 1), n - 1, now)
  }

  /** One iteration of StopAll's loop. Poll's heartbeat check does nothing while stopping. */
  datatype Round = Round(outcomes: seq<Outcome>, now: real)

  function StopRound(m: Manager, r: Round): (m': Manager)
    ensures |m'.procs| == |m.procs|
  {
    var m1 := ReapAll(m, r.outcomes);
    SweepFirst(m1, r.now, |m.procs|)
  }

  function StopRounds(m: Manager, rounds: seq<Round>): (r: Manager)
    ensures |r.procs| == |m.procs|
  {
    if rounds == [] then m else StopRound(StopRounds(m, rounds[..|rounds| - 1]), rounds[|rounds| - 1])
  }

  function BeginStopAll(m: Manager, clock: seq<real>): (r: Manager)
    requires |m.procs| == |clock|
    ensures |r.procs| == |m.procs|
  {
    StopFirst(m.(stopping := true), clock, |m.procs|)
  }

  predicate NoneLive(m: Manager) {
    forall i | 0 <= i < |m.procs| :: m.procs[i].pid <= 0
  }
}

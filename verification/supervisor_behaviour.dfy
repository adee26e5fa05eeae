/**
 What each supervisor operation comes to, in the words of the requirement: exit codes, time
 limits, names and pids, without the predicates the operations are made of.
 */
module SupervisorBehaviour {
  import opened Supervisor
  import opened SupervisorSteps
  import opened SupervisorTable
  import opened SupervisorRestarts

  // ------------------------------------------------------------ exits

  lemma PidFindsEntry(m: Manager, i: nat)
    requires Distinct(m.procs) && i < |m.procs| && m.procs[i].pid > 0
    ensures PidIndexFrom(m.procs, m.procs[i].pid, 0) == i
  {
  }

  /** Whether the end of a live process calls for a new start: the policy, the limit, and nobody wants it stopped. */
  predicate StartsAgain(m: Manager, p: Process, status: Status) {
    && !m.stopping && !p.intentionalStop
    && (p.spec.restart == Always || (p.spec.restart == OnFailure && status != ExitCode(0)))
    && (p.spec.restartLimit == 0 || p.restartCount < p.spec.restartLimit)
  }

  function EndsAs(m: Manager, p: Process, status: Status): State {
    if m.stopping || p.intentionalStop then Stopped else if status == ExitCode(0) then Exited else Failed
  }

  /** The end of a managed child: the event it emits, whether it is started again, and what its entry becomes. */
  lemma ExitOutcome(m: Manager, i: nat, status: Status, fork: Forked, now: real)
    requires Distinct(m.procs) && i < |m.procs| && m.procs[i].pid > 0
    ensures var p := m.procs[i];
            var r := HandleExit(m, p.pid, status, fork, now);
            var q := r.procs[i];
            var ended := Event(i, p.pid, EndsAs(m, p, status));
            && r.procs == m.procs[i := q] && q.spec == p.spec && !q.intentionalStop
            && r.stopping == m.stopping && r.signals == m.signals
            && if !StartsAgain(m, p, status) then
                 && q.pid == -1 && q.state == EndsAs(m, p, status) && q.restartCount == p.restartCount
                 && r.events == m.events + [ended] && r.children == m.children - {p.pid}
               else if fork > 0 then
                 && q.pid == fork && q.state == Running && q.restartCount == p.restartCount + 1
                 && q.startTime == now && !q.hasHeartbeat
                 && r.events == m.events + [ended] + [Event(i, -1, Starting)] + [Event(i, fork, Running)]
                 && r.children == m.children - {p.pid} + {fork}
               else
                 && q.pid == -1 && q.state == Failed && q.restartCount == p.restartCount + 1
                 && r.events == m.events + [ended] + [Event(i, -1, Starting)] + [Event(i, -1, Failed)]
                 && r.children == m.children - {p.pid}
  {
    PidFindsEntry(m, i);
  }

  /** A child the table does not know leaves everything as it is. */
  lemma UnknownExit(m: Manager, pid: int, status: Status, fork: Forked, now: real)
    requires forall i | 0 <= i < |m.procs| :: m.procs[i].pid != pid
    ensures HandleExit(m, pid, status, fork, now) == m
  {
  }

  // ------------------------------------------------------------ heartbeats

  /** Exits of other children. */
  predicate OfOthers(outcomes: seq<Outcome>, pid: int) {
    forall k | 0 <= k < |outcomes| && outcomes[k].Reaped? :: outcomes[k].pid > 0 && outcomes[k].pid != pid
  }

  lemma {:induction false} OthersDieAround(m: Manager, outcomes: seq<Outcome>, i: nat)
    requires i < |m.procs| && OfOthers(outcomes, m.procs[i].pid)
    ensures ReapAll(m, outcomes).procs[i] == m.procs[i] && ReapAll(m, outcomes).stopping == m.stopping
  {
    hide HandleExit;
    if outcomes != [] {
      var last := |outcomes| - 1;
      OthersDieAround(m, outcomes[..last], i);
      var o := outcomes[last];
      if o.Reaped? {
        HandleExitPuts(ReapAll(m, outcomes[..last]), o.pid, o.status, o.fork, o.now);
      }
    }
  }

  /** Supervised, and silent for longer than allowed: since its start if it never beat, else since its last beat. */
  predicate Silent(p: Process, now: real) {
    && p.spec.heartbeatTimeout > 0.0
    && (if p.hasHeartbeat then now - p.lastHeartbeat > p.spec.heartbeatTimeout
        else p.spec.startupTimeout > 0.0 && now - p.startTime > p.spec.startupTimeout)
  }

  function AskedToStop(p: Process, at: real): Process {
    p.(state := Stopping, intentionalStop := false, stopDeadline := at + p.spec.shutdownTimeout)
  }

  /** One poll, seen from a live process that is not among the dead. */
  lemma PollOutcome(m: Manager, i: nat, outcomes: seq<Outcome>, now: real, clock: seq<real>)
    requires i < |m.procs| == |clock| && m.procs[i].pid > 0 && m.procs[i].state != Stopping
    requires OfOthers(outcomes, m.procs[i].pid)
    ensures Poll(m, outcomes, now, clock).procs[i] ==
            if !m.stopping && Silent(m.procs[i], now) then AskedToStop(m.procs[i], clock[i]) else m.procs[i]
  {
    OthersDieAround(m, outcomes, i);
    CheckIsExact(ReapAll(m, outcomes), now, clock, |m.procs|);
  }

  /** A process that is stopping already, or not live, is not asked by a poll. */
  lemma PollSparesStopping(m: Manager, i: nat, outcomes: seq<Outcome>, now: real, clock: seq<real>)
    requires i < |m.procs| == |clock| && (m.procs[i].pid <= 0 || m.procs[i].state == Stopping)
    requires OfOthers(outcomes, m.procs[i].pid)
    ensures Poll(m, outcomes, now, clock).procs[i] == m.procs[i]
  {
    OthersDieAround(m, outcomes, i);
    CheckIsExact(ReapAll(m, outcomes), now, clock, |m.procs|);
  }

  /** A process that beats is stopped for silence exactly when the poll comes later than its timeout after the beat. */
  lemma BeatKeepsAlive(m: Manager, i: nat, at: real, outcomes: seq<Outcome>, now: real, clock: seq<real>)
    requires i < |m.procs| == |clock| && m.procs[i].pid > 0 && m.procs[i].state == Running && !m.stopping
    requires forall k | 0 <= k < i :: m.procs[k].spec.name != m.procs[i].spec.name
    requires m.procs[i].spec.heartbeatTimeout > 0.0 && OfOthers(outcomes, m.procs[i].pid)
    ensures var (m1, found) := MarkHeartbeat(m, m.procs[i].spec.name, at);
            && found && |m1.procs| == |m.procs|
            && var late := now - at > m.procs[i].spec.heartbeatTimeout;
               && (CheckHeartbeats(m1, now, clock).procs[i].state == Stopping <==> late)
               && (Poll(m1, outcomes, now, clock).procs[i].state == Stopping <==> late)
  {
    var m1 := MarkHeartbeat(m, m.procs[i].spec.name, at).0;
    assert NameIndexFrom(m.procs, m.procs[i].spec.name, 0) == i;
    CheckIsExact(m1, now, clock, |m.procs|);
    PollOutcome(m1, i, outcomes, now, clock);
  }

  /** Before its first beat, a process just started is stopped exactly when its startup timeout is over. */
  lemma StartupIsTimed(
    m: Manager, i: nat, fork: Forked, start: real, outcomes: seq<Outcome>, now: real, clock: seq<real>)
    requires i < |m.procs| == |clock| && m.procs[i].pid <= 0 && fork > 0 && !m.stopping
    requires OfOthers(outcomes, fork)
    ensures var m1 := StartOne(m, i, fork, start);
            var spec := m.procs[i].spec;
            var late := spec.heartbeatTimeout > 0.0 && spec.startupTimeout > 0.0 && now - start > spec.startupTimeout;
            && (CheckHeartbeats(m1, now, clock).procs[i].state == Stopping <==> late)
            && (Poll(m1, outcomes, now, clock).procs[i].state == Stopping <==> late)
  {
    var m1 := StartOne(m, i, fork, start);
    CheckIsExact(m1, now, clock, |m.procs|);
    PollOutcome(m1, i, outcomes, now, clock);
  }

  /** Without a heartbeat timeout no process is ever stopped for silence. */
  lemma UnsupervisedIsLeftAlone(m: Manager, i: nat, outcomes: seq<Outcome>, now: real, clock: seq<real>)
    requires i < |m.procs| == |clock| && m.procs[i].spec.heartbeatTimeout <= 0.0
    requires OfOthers(outcomes, m.procs[i].pid)
    ensures CheckHeartbeats(m, now, clock).procs[i] == m.procs[i]
    ensures Poll(m, outcomes, now, clock).procs[i] == m.procs[i]
  {
    OthersDieAround(m, outcomes, i);
    CheckIsExact(m, now, clock, |m.procs|);
    CheckIsExact(ReapAll(m, outcomes), now, clock, |m.procs|);
  }

  /** A hung process is replaced: a poll asks it to stop, and when it dies of that it is started again. */
  lemma HungIsReplaced(m: Manager, i: nat, now: real, clock: seq<real>, signal: int, fork: Forked, later: real)
    requires Distinct(m.procs) && !m.stopping && i < |m.procs| == |clock|
    requires var p := m.procs[i];
             && p.pid > 0 && p.state == Running && !p.intentionalStop && Silent(p, now)
             && p.spec.restart != Never && (p.spec.restartLimit == 0 || p.restartCount < p.spec.restartLimit)
    requires fork > 0
    ensures var m1 := Poll(m, [], now, clock);
            var m2 := HandleExit(m1, m.procs[i].pid, Signaled(signal), fork, later);
            && m1.procs[i].state == Stopping && |m2.procs| == |m.procs|
            && m2.procs[i].state == Running && m2.procs[i].pid == fork
            && m2.procs[i].restartCount == m.procs[i].restartCount + 1
  {
    var m1 := Poll(m, [], now, clock);
    CheckIsExact(m, now, clock, |m.procs|);
    assert forall k | 0 <= k < |m.procs| :: m1.procs[k].pid == m.procs[k].pid;
    PollOutcome(m, i, [], now, clock);
    ExitOutcome(m1, i, Signaled(signal), fork, later);
  }

  /** SIGTERM to process i, which is live, not stopping yet, and silent. */
  predicate Asks(m: Manager, i: nat, now: real, clock: seq<real>, s: Signal)
    requires |clock| == |m.procs|
  {
    && i < |m.procs| && m.procs[i].pid > 0 && m.procs[i].state != Stopping && Silent(m.procs[i], now)
    && s == Signal(m.procs[i].pid, false, clock[i], clock[i] + m.procs[i].spec.shutdownTimeout)
  }

  ghost predicate AsksSomeone(m: Manager, n: nat, now: real, clock: seq<real>, s: Signal)
    requires |clock| == |m.procs|
  {
    exists i: nat | i < n :: Asks(m, i, now, clock, s)
  }

  lemma {:induction false} CheckAsks(m: Manager, now: real, clock: seq<real>, n: nat)
    requires n <= |m.procs| == |clock|
    ensures m.signals <= CheckFirst(m, now, clock, n).signals
    ensures forall s :: s in CheckFirst(m, now, clock, n).signals[|m.signals|..] <==> AsksSomeone(m, n, now, clock, s)
  {
    hide Asks, CheckFirst;
    if n == 0 {
      NothingChecked(m, now, clock);
    } else {
      CheckAsks(m, now, clock, n - 1);
      OneChecked(m, now, clock, n);
      var one, two := CheckFirst(m, now, clock, n - 1).signals, CheckFirst(m, now, clock, n).signals;
      assert two[|m.signals|..] == one[|m.signals|..] + two[|one|..];
      forall s ensures AsksSomeone(m, n, now, clock, s) <==>
                       AsksSomeone(m, n - 1, now, clock, s) || Asks(m, n - 1, now, clock, s) {
        OneMoreAsked(m, n, now, clock, s);
      }
    }
  }

  lemma OneMoreAsked(m: Manager, n: nat, now: real, clock: seq<real>, s: Signal)
    requires 0 < n <= |m.procs| == |clock|
    ensures AsksSomeone(m, n, now, clock, s) <==>
            AsksSomeone(m, n - 1, now, clock, s) || Asks(m, n - 1, now, clock, s)
  {
    hide Asks;
  }

  lemma NothingChecked(m: Manager, now: real, clock: seq<real>)
    requires |clock| == |m.procs|
    ensures CheckFirst(m, now, clock, 0) == m
  {
  }

  lemma OneChecked(m: Manager, now: real, clock: seq<real>, n: nat)
    requires 0 < n <= |m.procs| == |clock|
    ensures var before, after := CheckFirst(m, now, clock, n - 1).signals, CheckFirst(m, now, clock, n).signals;
            && before <= after
            && forall s :: s in after[|before|..] <==> Asks(m, n - 1, now, clock, s)
  {
    hide Silent, HeartbeatLate, Warned, StopOne;
    var one := CheckFirst(m, now, clock, n - 1);
    CheckIsExact(m, now, clock, n - 1);
    LateIsSilent(m.procs[n - 1], now);
    OneStopped(one, n - 1, clock[n - 1]);
  }

  lemma LateIsSilent(p: Process, now: real)
    ensures HeartbeatLate(p, now) <==> p.pid > 0 && p.state != Stopping && Silent(p, now)
  {
  }

  lemma OneStopped(m: Manager, i: nat, now: real)
    requires i < |m.procs|
    ensures StopOne(m, i, 0.0, false, now).signals ==
            m.signals + if m.procs[i].pid > 0
                        then [Signal(m.procs[i].pid, false, now, now + m.procs[i].spec.shutdownTimeout)] else []
  {
  }

  lemma {:induction false} ReapingSendsNothing(m: Manager, outcomes: seq<Outcome>)
    ensures ReapAll(m, outcomes).signals == m.signals && ReapAll(m, outcomes).stopping == m.stopping
  {
    if outcomes != [] {
      ReapingSendsNothing(m, outcomes[..|outcomes| - 1]);
    }
  }

  /** A poll first buries the dead: it sends SIGTERM to exactly those who live on and are silent, and nothing else. */
  lemma PollAsksTheLiving(m: Manager, outcomes: seq<Outcome>, now: real, clock: seq<real>)
    requires |clock| == |m.procs|
    ensures var sent := Poll(m, outcomes, now, clock).signals;
            && m.signals <= sent
            && forall s :: s in sent[|m.signals|..] <==>
                 !m.stopping && AsksSomeone(ReapAll(m, outcomes), |m.procs|, now, clock, s)
  {
    hide AsksSomeone, CheckFirst, ReapAll;
    ReapingSendsNothing(m, outcomes);
    CheckAsks(ReapAll(m, outcomes), now, clock, |m.procs|);
  }

  /** One call of Poll: what waitpid reports, the time of the check, and the times of the stops. */
  datatype Polling = Polling(outcomes: seq<Outcome>, now: real, clock: seq<real>)

  function Polls(m: Manager, polls: seq<Polling>): (r: Manager)
    requires forall k | 0 <= k < |polls| :: |polls[k].clock| == |m.procs|
    ensures |r.procs| == |m.procs|
  {
    if polls == [] then m
    else
      var last := polls[|polls| - 1];
      Poll(Polls(m, polls[..|polls| - 1]), last.outcomes, last.now, last.clock)
  }

  /**
   A process stopped for silence that does not die stays as it is however often and however late
   the manager polls: it is never sent SIGKILL, whatever its deadline, and nothing replaces it.
   */
  lemma {:induction false} HungIsNeverKilled(m: Manager, i: nat, polls: seq<Polling>)
    requires i < |m.procs| && m.procs[i].pid > 0 && m.procs[i].state == Stopping
    requires forall k | 0 <= k < |polls| ::
               |polls[k].clock| == |m.procs| && OfOthers(polls[k].outcomes, m.procs[i].pid)
    ensures Polls(m, polls).procs[i] == m.procs[i]
    ensures m.signals <= Polls(m, polls).signals
    ensures forall s | s in Polls(m, polls).signals[|m.signals|..] :: !s.hard
  {
    hide Poll, OfOthers;
    if polls != [] {
      var n := |polls| - 1;
      var r, last := Polls(m, polls[..n]), polls[n];
      HungIsNeverKilled(m, i, polls[..n]);
      PollSparesStopping(r, i, last.outcomes, last.now, last.clock);
      PollKillsNobody(r, last.outcomes, last.now, last.clock);
      var r' := Polls(m, polls);
      assert r'.signals[|m.signals|..] == r.signals[|m.signals|..] + r'.signals[|r.signals|..];
    }
  }

  lemma PollKillsNobody(m: Manager, outcomes: seq<Outcome>, now: real, clock: seq<real>)
    requires |clock| == |m.procs|
    ensures var sent := Poll(m, outcomes, now, clock).signals;
            m.signals <= sent && forall s | s in sent[|m.signals|..] :: !s.hard
  {
    hide Poll, ReapAll, Silent;
    PollAsksTheLiving(m, outcomes, now, clock);
  }

  /** A stopping manager does not look at heartbeats. */
  lemma StoppingIgnoresHeartbeats(m: Manager, now: real, clock: seq<real>)
    requires m.stopping && |clock| == |m.procs|
    ensures CheckHeartbeats(m, now, clock) == m && Poll(m, [], now, clock) == m
  {
  }

  /** A heartbeat is noted on the first process of that name, and nowhere else. */
  lemma KnownHeartbeat(m: Manager, i: nat, now: real)
    requires i < |m.procs| && forall k | 0 <= k < i :: m.procs[k].spec.name != m.procs[i].spec.name
    ensures MarkHeartbeat(m, m.procs[i].spec.name, now) ==
            (m.(procs := m.procs[i := m.procs[i].(hasHeartbeat := true, lastHeartbeat := now)]), true)
  {
    assert NameIndexFrom(m.procs, m.procs[i].spec.name, 0) == i;
  }

  /** A name nobody has is no heartbeat. */
  lemma UnknownHeartbeat(m: Manager, name: string, now: real)
    requires forall i | 0 <= i < |m.procs| :: m.procs[i].spec.name != name
    ensures MarkHeartbeat(m, name, now) == (m, false)
  {
  }

  // ------------------------------------------------------------ starting

  /** The entry after a start at `now`. */
  function StartedAs(p: Process, fork: Forked, now: real): Process {
    var reset := p.(hasHeartbeat := false, intentionalStop := false);
    if fork > 0 then reset.(pid := fork, state := Running, startTime := now) else reset.(state := Failed)
  }

  /** A new manager: every process stopped and never restarted, no child, nothing said and nothing sent. */
  lemma NewManager(specs: seq<Spec>)
    ensures var m := Created(specs);
            && |m.procs| == |specs| && !m.stopping && m.children == {} && m.events == [] && m.signals == []
            && forall i | 0 <= i < |specs| ::
                 && m.procs[i].spec == specs[i] && m.procs[i].pid == -1 && m.procs[i].state == Stopped
                 && m.procs[i].restartCount == 0 && !m.procs[i].hasHeartbeat && !m.procs[i].intentionalStop
  {
  }

  /** Starting a process: nothing if it is live, otherwise two events and the new entry. */
  lemma StartOutcome(m: Manager, i: nat, fork: Forked, now: real)
    requires i < |m.procs|
    ensures var p, r := m.procs[i], StartOne(m, i, fork, now);
            && (p.pid > 0 ==> r == m)
            && (p.pid <= 0 ==>
                  && r.procs == m.procs[i := StartedAs(p, fork, now)]
                  && r.stopping == m.stopping && r.signals == m.signals
                  && r.events == m.events + [Event(i, p.pid, Starting)]
                                 + [if fork > 0 then Event(i, fork, Running) else Event(i, p.pid, Failed)]
                  && r.children == if fork > 0 then m.children + {fork} else m.children)
  {
  }

  lemma {:induction false} StartFirstOutcome(m: Manager, forks: seq<(Forked, real)>, n: nat)
    requires n <= |m.procs| == |forks|
    ensures forall i | 0 <= i < |m.procs| ::
              StartFirst(m, forks, n).procs[i] ==
              if i < n && m.procs[i].pid <= 0 then StartedAs(m.procs[i], forks[i].0, forks[i].1) else m.procs[i]
  {
    hide StartOne, StartedAs;
    if n != 0 {
      StartFirstOutcome(m, forks, n - 1);
      StartOutcome(StartFirst(m, forks, n - 1), n - 1, forks[n - 1].0, forks[n - 1].1);
    }
  }

  /** StartAll starts every process that is not live, each with its own fork. */
  lemma StartAllOutcome(m: Manager, forks: seq<(Forked, real)>)
    requires |forks| == |m.procs|
    ensures forall i | 0 <= i < |m.procs| ::
              StartAll(m, forks).procs[i] ==
              if m.procs[i].pid > 0 then m.procs[i] else StartedAs(m.procs[i], forks[i].0, forks[i].1)
  {
    StartFirstOutcome(m, forks, |m.procs|);
  }

  /** A spec without a name goes by its command; one without a command is refused. */
  lemma StartNeedsCommand(m: Manager, spec: Spec, fork: Forked, now: real)
    ensures StartProcess(m, spec, fork, now).1 == Invalid <==> spec.command == ""
    ensures spec.command == "" ==> StartProcess(m, spec, fork, now).0 == m
    ensures spec.name == "" ==>
              StartProcess(m, spec, fork, now) == StartProcess(m, spec.(name := spec.command), fork, now)
  {
  }

  /** A known name: a live process is left as it is, any other gets the new spec and is started. */
  lemma StartKnown(m: Manager, i: nat, spec: Spec, fork: Forked, now: real)
    requires i < |m.procs| && spec.command != "" && spec.name != "" && m.procs[i].spec.name == spec.name
    requires forall k | 0 <= k < i :: m.procs[k].spec.name != spec.name
    ensures var (r, reply) := StartProcess(m, spec, fork, now);
            if m.procs[i].pid > 0 then r == m && reply == AlreadyRunning
            else reply == StartRequested && r.procs == m.procs[i := StartedAs(m.procs[i].(spec := spec), fork, now)]
  {
    assert NameIndexFrom(m.procs, spec.name, 0) == i;
    StartOutcome(Put(m, i, m.procs[i].(spec := spec)), i, fork, now);
  }

  /** A new name: one more process, with no restarts counted. */
  lemma StartUnknown(m: Manager, spec: Spec, fork: Forked, now: real)
    requires spec.command != "" && spec.name != ""
    requires forall k | 0 <= k < |m.procs| :: m.procs[k].spec.name != spec.name
    ensures var (r, reply) := StartProcess(m, spec, fork, now);
            && reply == StartRequested && |r.procs| == |m.procs| + 1 && r.procs[..|m.procs|] == m.procs
            && var p := r.procs[|m.procs|];
               && p.spec == spec && p.restartCount == 0 && !p.hasHeartbeat && !p.intentionalStop
               && (if fork > 0 then p.pid == fork && p.state == Running && p.startTime == now
                   else p.pid == -1 && p.state == Failed)
  {
  }

  // ------------------------------------------------------------ stopping

  /** The process a stop request means: the first of that name, or else the first with that pid. */
  predicate Means(m: Manager, name: string, pid: int, i: nat) {
    && i < |m.procs|
    && if name != "" && (exists k | 0 <= k < |m.procs| :: m.procs[k].spec.name == name)
       then m.procs[i].spec.name == name && forall k | 0 <= k < i :: m.procs[k].spec.name != name
       else pid > 0 && m.procs[i].pid == pid && forall k | 0 <= k < i :: m.procs[k].pid != pid
  }

  /** The deadline is the requested timeout from now, or the spec's when none is requested. */
  function DeadlineFor(p: Process, timeout: real, now: real): real {
    if timeout > 0.0 then now + timeout else now + p.spec.shutdownTimeout
  }

  /** A stop request for a live process: marked as wanted, one event, one SIGTERM. */
  lemma StopOutcome(m: Manager, name: string, pid: int, timeout: real, now: real, i: nat)
    requires Means(m, name, pid, i)
    ensures var (r, reply) := StopProcess(m, name, pid, timeout, now);
            var p := m.procs[i];
            var deadline := DeadlineFor(p, timeout, now);
            if p.pid <= 0 then r == m && reply == AlreadyStopped
            else
              && reply == StopRequested
              && r.procs == m.procs[i := p.(state := Stopping, intentionalStop := true, stopDeadline := deadline)]
              && r.events == m.events + [Event(i, p.pid, Stopping)]
              && r.signals == m.signals + [Signal(p.pid, false, now, deadline)]
              && r.children == m.children && r.stopping == m.stopping
  {
    assert StopTarget(m, name, pid) == i;
  }

  lemma StopUnknown(m: Manager, name: string, pid: int, timeout: real, now: real)
    requires forall i: nat :: !Means(m, name, pid, i)
    ensures StopProcess(m, name, pid, timeout, now) == (m, NotFound)
  {
    var i := StopTarget(m, name, pid);
    assert i >= 0 ==> Means(m, name, pid, i);
  }
}

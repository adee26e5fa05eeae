/** The global stop: nobody is killed early, everybody overdue is killed, and it ends. */
module SupervisorStop {
  import opened Supervisor
  import opened SupervisorSteps
  import opened SupervisorTable

  // ------------------------------------------------------------ the opening pass

  function Term(p: Process, now: real): Signal {
    Signal(p.pid, false, now, now + p.spec.shutdownTimeout)
  }

  function Hard(p: Process, now: real): Signal {
    Signal(p.pid, true, now, p.stopDeadline)
  }

  function ToldToStop(p: Process, now: real): Process {
    if p.pid <= 0 then p
    else p.(state := Stopping, intentionalStop := true, stopDeadline := now + p.spec.shutdownTimeout)
  }

  /** The SIGTERMs of the opening pass, in table order. */
  function Terms(procs: seq<Process>, clock: seq<real>, n: nat): seq<Signal>
    requires n <= |procs| == |clock|
  {
    if n == 0 then []
    else Terms(procs, clock, n - 1) + if procs[n - 1].pid > 0 then [Term(procs[n - 1], clock[n - 1])] else []
  }

  lemma StopOneTells(m: Manager, i: nat, now: real)
    requires i < |m.procs|
    ensures var r := StopOne(m, i, 0.0, true, now);
            && r.stopping == m.stopping && r.children == m.children
            && r.signals == m.signals + (if m.procs[i].pid > 0 then [Term(m.procs[i], now)] else [])
            && r.procs == m.procs[i := ToldToStop(m.procs[i], now)]
  {
  }

  lemma {:induction false} StopFirstTells(m: Manager, clock: seq<real>, n: nat)
    requires n <= |m.procs| == |clock|
    ensures var r := StopFirst(m, clock, n);
            && r.stopping == m.stopping && r.children == m.children
            && r.signals == m.signals + Terms(m.procs, clock, n)
            && (forall i | 0 <= i < n :: r.procs[i] == ToldToStop(m.procs[i], clock[i]))
            && (forall i | n <= i < |m.procs| :: r.procs[i] == m.procs[i])
  {
    hide StopOne, Term, ToldToStop;
    if n != 0 {
      StopFirstTells(m, clock, n - 1);
      StopOneTells(StopFirst(m, clock, n - 1), n - 1, clock[n - 1]);
    }
  }

  lemma {:induction false} TermsCoverLive(procs: seq<Process>, clock: seq<real>, n: nat, i: nat)
    requires i < n <= |procs| == |clock| && procs[i].pid > 0
    ensures Term(procs[i], clock[i]) in Terms(procs, clock, n)
  {
    if i < n - 1 {
      TermsCoverLive(procs, clock, n - 1, i);
    }
  }

  /** Every live child has been told to stop, each with its own deadline, and nothing else has changed. */
  lemma StopAllBegins(m: Manager, clock: seq<real>)
    requires |m.procs| == |clock|
    ensures var b := BeginStopAll(m, clock);
            && b.stopping && b.children == m.children
            && b.signals == m.signals + Terms(m.procs, clock, |m.procs|)
            && (forall i | 0 <= i < |m.procs| :: b.procs[i] == ToldToStop(m.procs[i], clock[i]))
  {
    StopFirstTells(m.(stopping := true), clock, |m.procs|);
  }

  lemma BeginKeepsInv(m: Manager, clock: seq<real>)
    requires Inv(m) && |m.procs| == |clock|
    ensures Inv(BeginStopAll(m, clock))
  {
    RefuseKeeps(m);
    var steps := StopAsSteps(m.(stopping := true), clock, |m.procs|);
    StepsKeepInv(m.(stopping := true), steps);
  }

  // ------------------------------------------------------------ rounds as reaps and kills

  predicate Closing(steps: seq<Step>) {
    forall k | 0 <= k < |steps| :: steps[k].Exit? || steps[k].Kill?
  }

  /** From p to q: the same child with no earlier a deadline, or no child any more. */
  predicate Shrunk(p: Process, q: Process) {
    && q.spec == p.spec
    && if q.pid > 0 then q.pid == p.pid && q.state == p.state && q.stopDeadline >= p.stopDeadline
       else if p.pid > 0 then q.pid == -1 && q.state == Stopped
       else q == p
  }

  ghost predicate Shrinks(b: Manager, r: Manager) {
    && b.stopping && r.stopping
    && |r.procs| == |b.procs|
    && (forall i | 0 <= i < |b.procs| :: Shrunk(b.procs[i], r.procs[i]))
    && r.children <= b.children
  }

  lemma StepShrinks(b: Manager, r: Manager, s: Step)
    requires Shrinks(b, r) && Fits(r, s) && (s.Exit? || s.Kill?)
    ensures Shrinks(b, Apply(r, s))
  {
    if s.Exit? {
      var i := PidIndexFrom(r.procs, s.pid, 0);
      if i >= 0 {
        assert HandleExit(r, s.pid, s.status, s.fork, s.now) == Reap(r, i, s.status);
        assert Shrunk(b.procs[i], r.procs[i]);
      }
    } else {
      assert Shrunk(b.procs[s.i], r.procs[s.i]);
    }
  }

  /** The kill is one of process i of b, no earlier than its deadline. */
  predicate Due(b: Manager, s: Signal, i: nat) {
    && i < |b.procs| && b.procs[i].pid == s.pid && s.pid > 0
    && s.hard && s.at >= s.deadline >= b.procs[i].stopDeadline
  }

  /** The signals sent since b. */
  ghost function Sent(b: Manager, r: Manager): seq<Signal> {
    if |b.signals| <= |r.signals| then r.signals[|b.signals|..] else []
  }

  ghost predicate DueToSomeone(b: Manager, s: Signal) {
    exists i: nat :: Due(b, s, i)
  }

  /** Each is a SIGKILL that was due. */
  ghost predicate AllDue(b: Manager, sent: seq<Signal>) {
    forall x | 0 <= x < |sent| :: DueToSomeone(b, sent[x])
  }

  /** A child that has been sent SIGKILL is left alone for a second. */
  predicate Deferred(procs: seq<Process>, sent: seq<Signal>) {
    forall x, i | 0 <= x < |sent| && 0 <= i < |procs| && procs[i].pid > 0 && procs[i].pid == sent[x].pid
      :: procs[i].stopDeadline >= sent[x].at + 1000.0
  }

  predicate Spaced(sent: seq<Signal>) {
    forall x, y | 0 <= x < y < |sent| && sent[x].pid == sent[y].pid :: sent[y].at >= sent[x].at + 1000.0
  }

  predicate Killed(sent: seq<Signal>, pid: int) {
    exists x | 0 <= x < |sent| :: sent[x].hard && sent[x].pid == pid
  }

  /** Only a SIGKILL moves a deadline. */
  predicate MovedByKill(before: seq<Process>, procs: seq<Process>, sent: seq<Signal>)
    requires |before| == |procs|
  {
    forall i | 0 <= i < |procs| && procs[i].pid > 0
      :: procs[i].stopDeadline == before[i].stopDeadline || Killed(sent, procs[i].pid)
  }

  ghost predicate KillsInTime(b: Manager, r: Manager)
    requires |b.procs| == |r.procs|
  {
    && b.signals <= r.signals
    && var sent := Sent(b, r);
       AllDue(b, sent) && Deferred(r.procs, sent) && Spaced(sent) && MovedByKill(b.procs, r.procs, sent)
  }

  lemma ExitOnlyLoses(r: Manager, s: Step)
    requires r.stopping && Fits(r, s) && s.Exit?
    ensures var r' := Apply(r, s);
            && r'.signals == r.signals
            && forall i | 0 <= i < |r.procs| :: r'.procs[i] == r.procs[i] || r'.procs[i].pid == -1
  {
  }

  lemma ExitKeepsKills(b: Manager, r: Manager, s: Step)
    requires Shrinks(b, r) && KillsInTime(b, r) && Fits(r, s) && s.Exit?
    ensures KillsInTime(b, Apply(r, s))
  {
    hide AllDue, Spaced, Killed, HandleExit;
    ExitOnlyLoses(r, s);
    var r' := Apply(r, s);
    assert Sent(b, r') == Sent(b, r);
    forall i | 0 <= i < |r.procs| && r'.procs[i].pid > 0
      ensures r'.procs[i].stopDeadline == b.procs[i].stopDeadline || Killed(Sent(b, r), r'.procs[i].pid)
    {
      assert r'.procs[i] == r.procs[i];
    }
    assert Deferred(r'.procs, Sent(b, r'));
    assert MovedByKill(b.procs, r'.procs, Sent(b, r'));
  }

  lemma KillIsDue(b: Manager, sent: seq<Signal>, kill: Signal, i: nat)
    requires AllDue(b, sent) && Due(b, kill, i)
    ensures AllDue(b, sent + [kill])
  {
    assert DueToSomeone(b, kill);
  }

  lemma KilledStays(sent: seq<Signal>, kill: Signal, pid: int)
    ensures Killed(sent, pid) || (kill.hard && kill.pid == pid) ==> Killed(sent + [kill], pid)
  {
    var more := sent + [kill];
    if Killed(sent, pid) {
      var x :| 0 <= x < |sent| && sent[x].hard && sent[x].pid == pid;
      assert more[x].hard && more[x].pid == pid;
    } else if kill.hard && kill.pid == pid {
      assert more[|sent|].hard && more[|sent|].pid == pid;
    }
  }

  /** One SIGKILL to the child in entry i, whose deadline has passed. */
  lemma KillMoves(before: seq<Process>, procs: seq<Process>, sent: seq<Signal>, i: nat, now: real)
    requires |before| == |procs| && i < |procs| && Distinct(procs) && Overdue(procs[i], now)
    requires Deferred(procs, sent) && Spaced(sent) && MovedByKill(before, procs, sent)
    ensures var kill, after := Hard(procs[i], now), procs[i := procs[i].(stopDeadline := now + 1000.0)];
            Deferred(after, sent + [kill]) && Spaced(sent + [kill]) && MovedByKill(before, after, sent + [kill])
  {
    hide Killed;
    var kill := Hard(procs[i], now);
    forall k | 0 <= k < |procs| && procs[k].pid == kill.pid ensures k == i {
    }
    forall k | 0 <= k < |procs| ensures Killed(sent, procs[k].pid) || k == i ==> Killed(sent + [kill], procs[k].pid) {
      KilledStays(sent, kill, procs[k].pid);
    }
  }

  lemma KillKeepsKills(b: Manager, r: Manager, i: nat, now: real)
    requires Shrinks(b, r) && Table(r) && KillsInTime(b, r)
    requires i < |r.procs| && Overdue(r.procs[i], now)
    ensures KillsInTime(b, KillOne(r, i, now))
  {
    hide AllDue, Spaced, Killed, Deferred, MovedByKill;
    var r' := KillOne(r, i, now);
    var kill := Hard(r.procs[i], now);
    assert Sent(b, r') == Sent(b, r) + [kill];
    assert Shrunk(b.procs[i], r.procs[i]);
    KillIsDue(b, Sent(b, r), kill, i);
    KillMoves(b.procs, r.procs, Sent(b, r), i, now);
  }

  lemma ClosingStep(b: Manager, r: Manager, s: Step)
    requires Shrinks(b, r) && Inv(r) && KillsInTime(b, r) && Fits(r, s) && (s.Exit? || s.Kill?)
    ensures Shrinks(b, Apply(r, s)) && Inv(Apply(r, s)) && KillsInTime(b, Apply(r, s))
  {
    hide Shrinks, Traced, KillsInTime, HandleExit;
    StepShrinks(b, r, s);
    StepKeepsInv(r, s);
    if s.Exit? {
      ExitKeepsKills(b, r, s);
    } else if Overdue(r.procs[s.i], s.now) {
      KillKeepsKills(b, r, s.i, s.now);
    }
  }

  lemma {:induction false} ClosingSteps(b: Manager, steps: seq<Step>)
    requires b.stopping && Inv(b) && StepsFit(b, steps) && Closing(steps)
    ensures var r := Steps(b, steps); Shrinks(b, r) && Inv(r) && KillsInTime(b, r)
  {
    hide Shrinks, Inv, KillsInTime;
    if steps == [] {
      NothingYet(b);
    } else {
      var last := |steps| - 1;
      ClosingSteps(b, steps[..last]);
      ClosingStep(b, Steps(b, steps[..last]), steps[last]);
    }
  }

  lemma NothingYet(b: Manager)
    requires b.stopping && Inv(b)
    ensures Shrinks(b, b) && KillsInTime(b, b)
  {
    forall i | 0 <= i < |b.procs| ensures Shrunk(b.procs[i], b.procs[i]) {
      assert EntryAgrees(b.procs[i]);
    }
  }

  /** What holds after any number of rounds. */
  lemma RoundsClose(b: Manager, rounds: seq<Round>)
    requires b.stopping && Inv(b) && RoundsReal(b, rounds)
    ensures var r := StopRounds(b, rounds); Shrinks(b, r) && Inv(r) && KillsInTime(b, r)
  {
    var steps := RoundsAsSteps(b, rounds);
    ClosingSteps(b, steps);
  }

  /** A kill of a child live at the beginning, which was sent SIGTERM then and has had its whole shutdown timeout. */
  predicate InTime(m: Manager, clock: seq<real>, kill: Signal, i: nat)
    requires |clock| == |m.procs|
  {
    && i < |m.procs| && m.procs[i].pid == kill.pid && kill.pid > 0 && kill.hard
    && Term(m.procs[i], clock[i]) in Terms(m.procs, clock, |m.procs|)
    && kill.at >= clock[i] + m.procs[i].spec.shutdownTimeout
  }

  lemma DueIsInTime(m: Manager, clock: seq<real>, kill: Signal, i: nat)
    requires |clock| == |m.procs| && Due(BeginStopAll(m, clock), kill, i)
    ensures InTime(m, clock, kill, i)
  {
    StopAllBegins(m, clock);
    TermsCoverLive(m.procs, clock, |m.procs|, i);
  }

  /**
   Once StopAll has begun, the live children only ever get fewer, nobody is killed early, and
   two SIGKILLs to one child are a second apart.
   */
  lemma NobodyIsKilledEarly(m: Manager, clock: seq<real>, rounds: seq<Round>)
    requires Inv(m) && |clock| == |m.procs| && RoundsReal(BeginStopAll(m, clock), rounds)
    ensures var b := BeginStopAll(m, clock);
            var r := StopRounds(b, rounds);
            && r.children <= m.children
            && b.signals == m.signals + Terms(m.procs, clock, |m.procs|)
            && r.signals == b.signals + Sent(b, r)
            && Spaced(Sent(b, r))
            && (forall kill | kill in Sent(b, r) :: exists i: nat :: InTime(m, clock, kill, i))
  {
    hide Inv, Due, InTime, Spaced, Term;
    var b := BeginStopAll(m, clock);
    StopAllBegins(m, clock);
    BeginKeepsInv(m, clock);
    RoundsClose(b, rounds);
    forall kill | kill in Sent(b, StopRounds(b, rounds)) ensures exists i: nat :: InTime(m, clock, kill, i) {
      assert DueToSomeone(b, kill);
      var i: nat :| Due(b, kill, i);
      DueIsInTime(m, clock, kill, i);
    }
  }

  // ------------------------------------------------------------ the sweep kills exactly the overdue

  lemma {:induction false} SweepIsExact(m: Manager, now: real, n: nat)
    requires n <= |m.procs|
    ensures var r := SweepFirst(m, now, n);
            && m.signals <= r.signals
            && (forall s :: s in r.signals[|m.signals|..] <==>
                  exists i | 0 <= i < n :: Overdue(m.procs[i], now) && s == Hard(m.procs[i], now))
            && (forall i | 0 <= i < |m.procs| ::
                  r.procs[i] == if i < n && Overdue(m.procs[i], now)
                                then m.procs[i].(stopDeadline := now + 1000.0) else m.procs[i])
            && r.stopping == m.stopping && r.children == m.children && r.events == m.events
  {
    if n != 0 {
      SweepIsExact(m, now, n - 1);
      var before, r := SweepFirst(m, now, n - 1), SweepFirst(m, now, n);
      assert before.procs[n - 1] == m.procs[n - 1];
      if Overdue(m.procs[n - 1], now) {
        var kill := Hard(m.procs[n - 1], now);
        assert r.signals[|m.signals|..] == before.signals[|m.signals|..] + [kill];
      }
    }
  }

  // ------------------------------------------------------------ nobody else kills

  predicate AllSoft(signals: seq<Signal>) {
    forall s | s in signals :: !s.hard
  }

  lemma {:induction false} StepsSendNoKill(m: Manager, steps: seq<Step>)
    requires StepsFit(m, steps) && NoKill(steps)
    ensures m.signals <= Steps(m, steps).signals && AllSoft(Steps(m, steps).signals[|m.signals|..])
  {
    if steps != [] {
      var last := |steps| - 1;
      StepsSendNoKill(m, steps[..last]);
      StepSendsNoKill(Steps(m, steps[..last]), steps[last]);
      var before, after := Steps(m, steps[..last]).signals, Steps(m, steps).signals;
      assert after[|m.signals|..] == before[|m.signals|..] + after[|before|..];
    }
  }

  lemma StepSendsNoKill(m: Manager, s: Step)
    requires Fits(m, s) && !s.Kill?
    ensures m.signals <= Apply(m, s).signals && AllSoft(Apply(m, s).signals[|m.signals|..])
  {
  }

  /** Only StopAll escalates: in a run without it every signal is a SIGTERM. */
  lemma OnlyStopAllKills(specs: seq<Spec>, calls: seq<Call>)
    requires RunReal(Created(specs), calls)
    requires forall k | 0 <= k < |calls| :: !calls[k].StopEach?
    ensures AllSoft(Run(Created(specs), calls).signals)
  {
    var steps := RunAsSteps(Created(specs), calls);
    StepsSendNoKill(Created(specs), steps);
  }

  // ------------------------------------------------------------ termination

  /** The child is reported by waitpid in one of the rounds from..to. */
  ghost predicate ReapedWithin(rounds: seq<Round>, from: nat, to: nat, pid: int) {
    exists j | from <= j < to && j < |rounds| :: Reports(rounds[j].outcomes, pid)
  }

  predicate Reports(outcomes: seq<Outcome>, pid: int) {
    exists o | o in outcomes :: o.Reaped? && o.pid == pid
  }

  ghost predicate Gone(r: Manager, pid: int) {
    forall i | 0 <= i < |r.procs| :: r.procs[i].pid != pid
  }

  lemma GoneStays(b: Manager, r: Manager, pid: int)
    requires Shrinks(b, r) && Gone(b, pid) && pid > 0
    ensures Gone(r, pid)
  {
    forall i | 0 <= i < |r.procs| ensures r.procs[i].pid != pid {
      assert Shrunk(b.procs[i], r.procs[i]);
    }
  }

  lemma OutcomesClose(b: Manager, outcomes: seq<Outcome>)
    requires b.stopping && Inv(b) && OutcomesReal(b, outcomes)
    ensures var r := ReapAll(b, outcomes); Shrinks(b, r) && Inv(r) && KillsInTime(b, r)
  {
    var steps := ReapAsSteps(b, outcomes);
    ClosingSteps(b, steps);
  }

  lemma ExitRemoves(r: Manager, o: Outcome)
    requires r.stopping && Distinct(r.procs) && o.Reaped? && o.pid > 0
    ensures Gone(HandleExit(r, o.pid, o.status, o.fork, o.now), o.pid)
  {
  }

  /** A reported child is out of the table for good. */
  lemma {:induction false} ReportedIsGone(b: Manager, outcomes: seq<Outcome>, pid: int)
    requires b.stopping && Inv(b) && OutcomesReal(b, outcomes) && Reports(outcomes, pid) && pid > 0
    ensures Gone(ReapAll(b, outcomes), pid)
  {
    hide Traced, KillsInTime, HandleExit, Gone;
    var last := |outcomes| - 1;
    var o := outcomes[last];
    var r := ReapAll(b, outcomes[..last]);
    OutcomesClose(b, outcomes[..last]);
    if o.Reaped? && o.pid == pid {
      ExitRemoves(r, o);
    } else {
      var o' :| o' in outcomes && o'.Reaped? && o'.pid == pid;
      assert o' in outcomes[..last];
      ReportedIsGone(b, outcomes[..last], pid);
      if o.Reaped? {
        var s := Exit(o.pid, o.status, o.fork, o.now);
        assert Shrinks(r, r) by { NothingYet(r); }
        StepShrinks(r, r, s);
        GoneStays(r, Apply(r, s), pid);
      }
    }
  }

  // ------------------------------------------------------------ the whole of StopAll

  ghost predicate AllKilled(b: Manager, r: Manager) {
    forall i | 0 <= i < |r.procs| && r.procs[i].pid > 0 :: Killed(Sent(b, r), r.procs[i].pid)
  }

  lemma {:induction false} RoundsPrefix(b: Manager, rounds: seq<Round>, n: nat)
    requires RoundsReal(b, rounds) && n <= |rounds|
    ensures RoundsReal(b, rounds[..n])
  {
    if n == |rounds| {
      assert rounds[..n] == rounds;
    } else {
      RoundsPrefix(b, rounds[..|rounds| - 1], n);
      assert rounds[..|rounds| - 1][..n] == rounds[..n];
    }
  }

  lemma RoundThen(b: Manager, rounds: seq<Round>, n: nat)
    requires RoundsReal(b, rounds) && n < |rounds|
    ensures RoundsReal(b, rounds[..n])
    ensures var r := StopRounds(b, rounds[..n]);
            && OutcomesReal(r, rounds[n].outcomes)
            && StopRounds(b, rounds[..n + 1]) == SweepFirst(ReapAll(r, rounds[n].outcomes), rounds[n].now, |r.procs|)
  {
    RoundsPrefix(b, rounds, n + 1);
    assert rounds[..n + 1][..n] == rounds[..n];
  }

  /** One sweep later than every deadline leaves nobody alive without a SIGKILL. */
  lemma LateSweepKillsAll(b: Manager, rounds: seq<Round>, n: nat)
    requires b.stopping && Inv(b) && RoundsReal(b, rounds) && n < |rounds|
    requires forall i | 0 <= i < |b.procs| && b.procs[i].pid > 0 :: rounds[n].now >= b.procs[i].stopDeadline
    ensures RoundsReal(b, rounds[..n + 1])
    ensures AllKilled(b, StopRounds(b, rounds[..n + 1]))
  {
    hide Traced, Killed, AllDue, Deferred, Spaced, Shrunk, StopRounds, RoundsReal, OutcomesReal;
    RoundsPrefix(b, rounds, n + 1);
    RoundThen(b, rounds, n);
    var r := StopRounds(b, rounds[..n]);
    var reaped := ReapAll(r, rounds[n].outcomes);
    var swept := StopRounds(b, rounds[..n + 1]);
    RoundsClose(b, rounds[..n]);
    ReapedClose(b, r, rounds[n].outcomes);
    RoundsClose(b, rounds[..n + 1]);
    SweepIsExact(reaped, rounds[n].now, |r.procs|);
    forall i | 0 <= i < |swept.procs| && swept.procs[i].pid > 0 ensures Killed(Sent(b, swept), swept.procs[i].pid) {
      assert reaped.procs[i].pid == swept.procs[i].pid;
      if Overdue(reaped.procs[i], rounds[n].now) {
        SentBySweep(b, reaped, swept, Hard(reaped.procs[i], rounds[n].now));
      } else {
        assert Shrunk(b.procs[i], swept.procs[i]);
        LateOrMoved(b.procs[i], swept.procs[i], rounds[n].now);
      }
    }
  }

  lemma LateOrMoved(p: Process, q: Process, now: real)
    requires Shrunk(p, q) && q.pid > 0 && (p.pid > 0 ==> now >= p.stopDeadline) && !Overdue(q, now)
    ensures q.stopDeadline != p.stopDeadline
  {
  }

  lemma SentBySweep(b: Manager, r: Manager, r': Manager, kill: Signal)
    requires b.signals <= r.signals <= r'.signals && kill in r'.signals[|r.signals|..] && kill.hard
    ensures Killed(Sent(b, r'), kill.pid)
  {
    var x :| |r.signals| <= x < |r'.signals| && r'.signals[x] == kill;
    assert Sent(b, r')[x - |b.signals|] == kill;
  }

  /** Reaping in the middle of StopAll. */
  lemma ReapedClose(b: Manager, r: Manager, outcomes: seq<Outcome>)
    requires Inv(b) && Shrinks(b, r) && Inv(r) && KillsInTime(b, r) && OutcomesReal(r, outcomes)
    ensures var r' := ReapAll(r, outcomes); Shrinks(b, r') && Inv(r') && b.signals <= r'.signals
  {
    var steps := ReapAsSteps(r, outcomes);
    ClosingStepsOn(b, r, steps);
  }

  lemma {:induction false} ClosingStepsOn(b: Manager, r: Manager, steps: seq<Step>)
    requires Shrinks(b, r) && Inv(r) && KillsInTime(b, r) && StepsFit(r, steps) && Closing(steps)
    ensures var r' := Steps(r, steps); Shrinks(b, r') && Inv(r') && KillsInTime(b, r')
  {
    hide Shrinks, Inv, KillsInTime;
    if steps != [] {
      var last := |steps| - 1;
      ClosingStepsOn(b, r, steps[..last]);
      ClosingStep(b, Steps(r, steps[..last]), steps[last]);
    }
  }

  lemma {:induction false} RoundsSplit(b: Manager, rounds: seq<Round>, n: nat)
    requires RoundsReal(b, rounds) && n <= |rounds|
    ensures RoundsReal(b, rounds[..n])
    ensures var r := StopRounds(b, rounds[..n]);
            RoundsReal(r, rounds[n..]) && StopRounds(r, rounds[n..]) == StopRounds(b, rounds)
  {
    hide OutcomesReal;
    if n == |rounds| {
      assert rounds[..n] == rounds;
    } else {
      var last := |rounds| - 1;
      RoundsSplit(b, rounds[..last], n);
      assert rounds[..last][..n] == rounds[..n];
      assert rounds[n..][..last - n] == rounds[..last][n..];
    }
  }

  /** From any round on, the live set only shrinks. */
  lemma LaterRoundsShrink(b: Manager, rounds: seq<Round>, n: nat)
    requires b.stopping && Inv(b) && RoundsReal(b, rounds) && n <= |rounds|
    ensures RoundsReal(b, rounds[..n])
    ensures Shrinks(StopRounds(b, rounds[..n]), StopRounds(b, rounds))
  {
    RoundsSplit(b, rounds, n);
    var r := StopRounds(b, rounds[..n]);
    RoundsClose(b, rounds[..n]);
    RoundsClose(r, rounds[n..]);
  }

  /** A child reported in round j is gone by the end. */
  lemma ReportedStaysGone(b: Manager, rounds: seq<Round>, j: nat, pid: int)
    requires b.stopping && Inv(b) && RoundsReal(b, rounds) && j < |rounds|
    requires pid > 0 && Reports(rounds[j].outcomes, pid)
    ensures Gone(StopRounds(b, rounds), pid)
  {
    hide Inv, Gone, Shrinks, KillsInTime, StopRounds, RoundsReal, OutcomesReal;
    RoundThen(b, rounds, j);
    var r := StopRounds(b, rounds[..j]);
    RoundsClose(b, rounds[..j]);
    ShrinksKeepsStopping(b, r);
    ReportedIsGone(r, rounds[j].outcomes, pid);
    SweepLeavesGone(ReapAll(r, rounds[j].outcomes), rounds[j].now, pid);
    LaterRoundsShrink(b, rounds, j + 1);
    GoneStays(StopRounds(b, rounds[..j + 1]), StopRounds(b, rounds), pid);
  }

  lemma ShrinksKeepsStopping(b: Manager, r: Manager)
    requires Shrinks(b, r)
    ensures r.stopping && |r.procs| == |b.procs|
  {
  }

  lemma SweepLeavesGone(r: Manager, now: real, pid: int)
    requires Gone(r, pid)
    ensures Gone(SweepFirst(r, now, |r.procs|), pid)
  {
    SweepIsExact(r, now, |r.procs|);
    forall i | 0 <= i < |r.procs| ensures SweepFirst(r, now, |r.procs|).procs[i].pid != pid {
    }
  }

  /** What the kernel does for SIGKILL: a child sent it in the first n rounds is reported in the next `delay` rounds. */
  ghost predicate KillsAreReaped(b: Manager, rounds: seq<Round>, n: nat, delay: nat)
    requires n <= |rounds|
  {
    RoundsReal(b, rounds[..n]) && var r := StopRounds(b, rounds[..n]);
      forall i | 0 <= i < |r.procs| && r.procs[i].pid > 0 && Killed(Sent(b, r), r.procs[i].pid) ::
        ReapedWithin(rounds, n, n + delay, r.procs[i].pid)
  }

  /**
   StopAll ends. If round `late` sweeps after every initial deadline, and each child sent SIGKILL
   by then is reported by waitpid within the next `delay` rounds, then after those rounds no
   process is live, and none of the children forked by the manager is left.
   */
  lemma StopAllEnds(m: Manager, clock: seq<real>, rounds: seq<Round>, late: nat, delay: nat)
    requires Inv(m) && |clock| == |m.procs| && RoundsReal(BeginStopAll(m, clock), rounds)
    requires late + delay < |rounds|
    requires forall i | 0 <= i < |m.procs| && m.procs[i].pid > 0 ::
               rounds[late].now >= clock[i] + m.procs[i].spec.shutdownTimeout
    requires KillsAreReaped(BeginStopAll(m, clock), rounds, late + 1, delay)
    ensures var r := StopRounds(BeginStopAll(m, clock), rounds); NoneLive(r) && r.children == {}
  {
    hide Inv, Killed, Shrinks, KillsInTime, StopRounds, RoundsReal, BeginStopAll, Reports;
    var b := BeginStopAll(m, clock);
    BeginKeepsInv(m, clock);
    StopAllBegins(m, clock);
    LateSweepKillsAll(b, rounds, late);
    var r1, r := StopRounds(b, rounds[..late + 1]), StopRounds(b, rounds);
    RoundsClose(b, rounds);
    assert rounds[..|rounds|] == rounds;
    forall i | 0 <= i < |r.procs| ensures r.procs[i].pid <= 0 {
      if r.procs[i].pid > 0 {
        LaterRoundsShrink(b, rounds, late + 1);
        LiveBefore(r1, r, i);
        var pid := r.procs[i].pid;
        assert Killed(Sent(b, r1), pid);
        var j :| late + 1 <= j < late + 1 + delay && j < |rounds| && Reports(rounds[j].outcomes, pid);
        ReportedStaysGone(b, rounds, j, pid);
        assert false;
      }
    }
    NoneLiveNoChildren(r);
  }

  lemma LiveBefore(b: Manager, r: Manager, i: nat)
    requires Shrinks(b, r) && i < |r.procs| && r.procs[i].pid > 0
    ensures b.procs[i].pid == r.procs[i].pid
  {
    assert Shrunk(b.procs[i], r.procs[i]);
  }

  lemma NoneLiveNoChildren(r: Manager)
    requires Inv(r) && NoneLive(r)
    ensures r.children == {}
  {
  }
}

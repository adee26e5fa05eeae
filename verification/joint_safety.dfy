/** Safety of the joint controller over every run. */
module JointSafety {
  import opened JointControl

  datatype Operation =
    | OpStart(now: int)
    | OpStop
    | OpEnable
    | OpDisable
    | OpEmergencyStop
    | OpClearFault
    | OpInjectFault(code: nat)
    | OpSetCommand(cmd: Command, at: Instant)
    | OpStep(now: int, nowNs: nat)

  function Do(o: Options, infos: seq<JointInfo>, c: Control, op: Operation): Control
    requires |c.joints| == |infos|
  {
    match op
    case OpStart(now) => Start(o, c, now).0
    case OpStop => Stop(c)
    case OpEnable => Enable(c).0
    case OpDisable => Disable(c).0
    case OpEmergencyStop => EmergencyStop(c).0
    case OpClearFault => ClearFault(c).0
    case OpInjectFault(code) => InjectFault(c, code)
    case OpSetCommand(cmd, at) => SetCommand(o, infos, c, cmd, at).0
    case OpStep(now, nowNs) => Step(o, infos, c, now, nowNs).0
  }

  /**
   The controller is safe: a fault or an emergency stop means disabled, disabled means no
   joint is told to move, and enabled without a command means so too.
   */
  predicate Safe(infos: seq<JointInfo>, c: Control) {
    && |c.joints| == |infos|
    && (c.faultLatched || c.emergencyStopped ==> !c.enabled)
    && (c.enabled ==> c.running && !c.safeOutput)
    && (!c.enabled || !c.hasCommand ==> Quiet(c.joints))
    && (c.hasCommand ==> c.lastCommandNs > 0 && CommandOk(infos, c.lastCommand.items))
  }

  // ------------------------------------------------------------ single operations

  lemma SafeOutputIsSafe(infos: seq<JointInfo>, c: Control)
    requires |c.joints| == |infos|
    requires c.hasCommand ==> c.lastCommandNs > 0 && CommandOk(infos, c.lastCommand.items)
    ensures Safe(infos, ApplySafeOutput(c))
  {
  }

  lemma SetCommandIsSafe(o: Options, infos: seq<JointInfo>, c: Control, cmd: Command, at: Instant)
    requires Safe(infos, c)
    ensures Safe(infos, SetCommand(o, infos, c, cmd, at).0)
  {
    var c1 := if cmd.clearFault then FaultsCleared(c) else c;
    assert Quiet(c.joints) ==> Quiet(c1.joints);
    SafeOutputIsSafe(infos, c.(emergencyStopped := true));
    SafeOutputIsSafe(infos, c1);
  }

  /** Start keeps the controller safe exactly when no joint is moving; on a disabled controller that is given. */
  lemma StartIsSafeWhenQuiet(o: Options, infos: seq<JointInfo>, c: Control, now: int)
    requires Safe(infos, c)
    ensures Safe(infos, Start(o, c, now).0) <==> Quiet(c.joints)
    ensures !c.enabled ==> Quiet(c.joints)
  {
  }

  lemma OperationIsSafe(o: Options, infos: seq<JointInfo>, c: Control, op: Operation)
    requires Safe(infos, c) && (op.OpStart? ==> Quiet(c.joints))
    ensures Safe(infos, Do(o, infos, c, op))
  {
    hide Safe, SetCommand, Step, Start, Enable;
    match op
    case OpStart(now) => StartIsSafeWhenQuiet(o, infos, c, now);
    case OpEnable => EnableIsSafe(infos, c);
    case OpSetCommand(cmd, at) => SetCommandIsSafe(o, infos, c, cmd, at);
    case OpStep(now, nowNs) => StepIsSafe(o, infos, c, now, nowNs);
    case _ => StopsAreSafe(o, infos, c, op);
  }

  lemma EnableIsSafe(infos: seq<JointInfo>, c: Control)
    requires Safe(infos, c)
    ensures Safe(infos, Enable(c).0)
  {
    hide CommandOk;
  }

  lemma StepIsSafe(o: Options, infos: seq<JointInfo>, c: Control, now: int, nowNs: nat)
    requires Safe(infos, c)
    ensures Safe(infos, Step(o, infos, c, now, nowNs).0)
  {
    hide CommandOk, ApplyItems, Silenced, Expired;
    SafeOutputIsSafe(infos, c.(lastStepNs := now));
    SafeOutputIsSafe(infos, c.(lastStepNs := now, hasCommand := false));
  }

  /** The operations that end in safe output. */
  lemma StopsAreSafe(o: Options, infos: seq<JointInfo>, c: Control, op: Operation)
    requires Safe(infos, c)
    requires op.OpStop? || op.OpDisable? || op.OpEmergencyStop? || op.OpClearFault? || op.OpInjectFault?
    ensures Safe(infos, Do(o, infos, c, op))
  {
    hide CommandOk, Silenced, WithFault, ApplySafeOutput;
    match op
    case OpStop => SafeOutputIsSafe(infos, c.(running := false));
    case OpDisable => SafeOutputIsSafe(infos, c);
    case OpEmergencyStop => SafeOutputIsSafe(infos, c.(emergencyStopped := true));
    case OpClearFault => SafeOutputIsSafe(infos, FaultsCleared(c));
    case OpInjectFault(code) =>
      SafeOutputIsSafe(infos, c.(faultLatched := true, joints := WithFault(c.joints, code)));
    case _ =>
  }

  // ------------------------------------------------------------ runs

  /** A history starts with construction; it starts the controller only while no joint moves. */
  ghost predicate History(o: Options, infos: seq<JointInfo>, states: seq<Control>, ops: seq<Operation>) {
    && |states| == |ops| + 1
    && (exists born: int :: states[0] == Created(infos, born))
    && (forall k | 0 <= k < |ops| ::
          |states[k].joints| == |infos| && states[k + 1] == Do(o, infos, states[k], ops[k]))
    && (forall k | 0 <= k < |ops| :: ops[k].OpStart? ==> Quiet(states[k].joints))
  }

  lemma {:induction false} HistoryIsSafe(o: Options, infos: seq<JointInfo>,
                                         states: seq<Control>, ops: seq<Operation>, k: nat)
    requires History(o, infos, states, ops) && k < |states|
    ensures Safe(infos, states[k])
    ensures AvailabilityOf(states[k]) != Degraded
    ensures AvailabilityOf(states[k]) != Enabled ==> Quiet(states[k].joints)
  {
    if k > 0 {
      HistoryIsSafe(o, infos, states, ops, k - 1);
      OperationIsSafe(o, infos, states[k - 1], ops[k - 1]);
    }
  }

  /** After any Step, a joint that is told to move is enabled, unfaulted and follows a command that has not expired. */
  lemma StepMovesOnlyOnFreshCommand(o: Options, infos: seq<JointInfo>,
                                    states: seq<Control>, ops: seq<Operation>, k: nat)
    requires History(o, infos, states, ops) && k < |ops| && ops[k].OpStep?
    requires !Quiet(states[k + 1].joints)
    ensures var c := states[k + 1];
      && c.running && c.enabled && !c.faultLatched && !c.emergencyStopped && c.hasCommand
      && (o.commandTimeoutMs > 0 ==> ops[k].nowNs <= c.lastCommandNs + o.commandTimeoutMs * 1_000_000)
  {
    HistoryIsSafe(o, infos, states, ops, k);
    HistoryIsSafe(o, infos, states, ops, k + 1);
  }

  /** Positions that start within their limits stay there, whatever is commanded. */
  lemma {:induction false} PositionsStayInLimits(o: Options, infos: seq<JointInfo>,
                                                 states: seq<Control>, ops: seq<Operation>, k: nat)
    requires History(o, infos, states, ops) && k < |states|
    requires InLimits(infos, states[0].joints)
    ensures InLimits(infos, states[k].joints)
  {
    if k > 0 {
      PositionsStayInLimits(o, infos, states, ops, k - 1);
      OperationKeepsLimits(o, infos, states[k - 1], ops[k - 1]);
    }
  }

  lemma OperationKeepsLimits(o: Options, infos: seq<JointInfo>, c: Control, op: Operation)
    requires InLimits(infos, c.joints)
    ensures InLimits(infos, Do(o, infos, c, op).joints)
  {
    if op.OpStep? {
      var dt := (op.now - c.lastStepNs) as real / 1_000_000_000.0;
      ItemsStayInLimits(infos, c.lastCommand.items, c.joints, dt);
    } else {
      SamePositions(o, infos, c, op);
    }
  }

  lemma SamePositions(o: Options, infos: seq<JointInfo>, c: Control, op: Operation)
    requires |c.joints| == |infos| && !op.OpStep?
    ensures var joints := Do(o, infos, c, op).joints;
      |joints| == |infos| && forall i | 0 <= i < |infos| :: joints[i].position == c.joints[i].position
  {
    match op
    case OpSetCommand(cmd, at) => SetCommandKeepsPositions(o, infos, c, cmd, at);
    case _ =>
  }

  lemma SetCommandKeepsPositions(o: Options, infos: seq<JointInfo>, c: Control, cmd: Command, at: Instant)
    requires |c.joints| == |infos|
    ensures var joints := SetCommand(o, infos, c, cmd, at).0.joints;
      |joints| == |infos| && forall i | 0 <= i < |infos| :: joints[i].position == c.joints[i].position
  {
    hide CommandOk, ApplySafeOutput, FaultsCleared;
    QuietKeepsPositions(c);
    QuietKeepsPositions(c.(emergencyStopped := true));
    QuietKeepsPositions(FaultsCleared(c));
  }

  lemma QuietKeepsPositions(c: Control)
    ensures var r := ApplySafeOutput(c).joints;
            |r| == |c.joints| && forall i | 0 <= i < |r| :: r[i].position == c.joints[i].position
    ensures var r := FaultsCleared(c).joints;
            |r| == |c.joints| && forall i | 0 <= i < |r| :: r[i].position == c.joints[i].position
  {
  }

  lemma {:induction false} ItemsStayInLimits(infos: seq<JointInfo>, items: seq<Item>, joints: seq<JointState>, dt: real)
    requires |joints| == |infos| && InLimits(infos, joints)
    ensures InLimits(infos, ApplyItems(infos, items, joints, dt))
  {
    if items != [] {
      ItemsStayInLimits(infos, items[..|items| - 1], joints, dt);
    }
  }

  // ------------------------------------------------------------ what a command does

  /** An accepted command moves each joint by the one item that addresses it and by no other. */
  lemma {:induction false} EachJointFollowsItsItem(infos: seq<JointInfo>, items: seq<Item>,
                                                   joints: seq<JointState>, dt: real, i: nat)
    requires |joints| == |infos| && i < |infos| && CommandOk(infos, items)
    ensures var after := ApplyItems(infos, items, joints, dt)[i];
      && ((forall k | 0 <= k < |items| :: Find(infos, items[k]) != i) ==> after == joints[i])
      && (forall k | 0 <= k < |items| ::
            Find(infos, items[k]) == i ==> after == ApplyItem(infos[i], items[k], joints[i], dt))
  {
    if items != [] {
      var front := items[..|items| - 1];
      assert forall k | 0 <= k < |front| :: front[k] == items[k];
      EachJointFollowsItsItem(infos, front, joints, dt, i);
    }
  }

  /** An item that makes its joint move from rest. */
  predicate Stirs(item: Item) {
    && item.mode != ModeDisabled
    && ((item.velocityEnabled && item.velocity != 0.0) || (item.effortEnabled && item.effort != 0.0))
  }

  lemma ClampKeepsZero(effort: real, commandLimit: real, jointLimit: real)
    ensures ClampEffort(effort, commandLimit, jointLimit) == 0.0 <==> effort == 0.0
  {
  }

  lemma StirringFromRest(infos: seq<JointInfo>, items: seq<Item>, joints: seq<JointState>, dt: real)
    requires |joints| == |infos| && CommandOk(infos, items) && Quiet(joints)
    ensures !Quiet(ApplyItems(infos, items, joints, dt)) <==> exists k | 0 <= k < |items| :: Stirs(items[k])
  {
    var after := ApplyItems(infos, items, joints, dt);
    forall k | 0 <= k < |items|
      ensures var s := after[Find(infos, items[k])]; Stirs(items[k]) <==> s.velocity != 0.0 || s.effort != 0.0
    {
      var i := Find(infos, items[k]);
      assert ItemOk(infos, items[k]);
      EachJointFollowsItsItem(infos, items, joints, dt, i);
      ClampKeepsZero(items[k].effort, items[k].maxEffort, infos[i].maxEffort);
    }
    forall i | 0 <= i < |infos| && (after[i].velocity != 0.0 || after[i].effort != 0.0)
      ensures exists k | 0 <= k < |items| :: Stirs(items[k])
    {
      EachJointFollowsItsItem(infos, items, joints, dt, i);
      var k :| 0 <= k < |items| && Find(infos, items[k]) == i;
      assert Stirs(items[k]);
    }
  }

  /**
   An emergency stop does not forget the last command. After stop, clear, enable and step
   the joints move again exactly when a command is held that has not expired and stirs a joint.
   */
  lemma EmergencyStopKeepsTheCommand(o: Options, infos: seq<JointInfo>, c: Control, now: int, nowNs: nat)
    requires Safe(infos, c) && c.running
    ensures var stopped := EmergencyStop(c).0;
            var resumed := Enable(ClearFault(stopped).0).0;
            var stepped := Step(o, infos, resumed, now, nowNs).0;
      && Quiet(stopped.joints) && Quiet(resumed.joints) && resumed.enabled
      && (!Quiet(stepped.joints) <==>
            c.hasCommand && !Expired(o, c, nowNs)
            && exists k | 0 <= k < |c.lastCommand.items| :: Stirs(c.lastCommand.items[k]))
  {
    var resumed := Enable(ClearFault(EmergencyStop(c).0).0).0;
    if c.hasCommand && !Expired(o, c, nowNs) {
      var dt := (now - resumed.lastStepNs) as real / 1_000_000_000.0;
      StirringFromRest(infos, c.lastCommand.items, resumed.joints, dt);
    }
  }

  /** ClampEffort holds every effort to the joint's own limit exactly when the command does not ask for more. */
  lemma CommandCanOverrideEffortLimit(commandLimit: real, jointLimit: real)
    requires jointLimit > 0.0
    ensures (forall e: real :: -jointLimit <= ClampEffort(e, commandLimit, jointLimit) <= jointLimit)
            <==> commandLimit <= jointLimit
  {
    if commandLimit > jointLimit {
      assert ClampEffort(commandLimit, commandLimit, jointLimit) == commandLimit;
    }
  }

  const ARM := Options("arm", 100, true)
  const JOINTS := [JointInfo(1, "joint", 0.0, 0.0, 0.0)]
  const TURN := Item(1, "", Velocity, false, 0.0, true, 1.0, false, 0.0, false, 0.0, false, 0.0, 0.0)
  const GO := Command("", 1, true, false, false, false, [TURN])

  /** A fresh controller of one joint, started and then told to turn it. */
  function Commanded(): Control {
    SetCommand(ARM, JOINTS, Start(ARM, Created(JOINTS, 0), 0).0, GO, 1).0
  }

  lemma CommandedTurns()
    ensures var c := Commanded();
            Safe(JOINTS, c) && c.running && c.hasCommand && c.lastCommand.items == [TURN] && !Expired(ARM, c, 1)
    ensures var turning := Step(ARM, JOINTS, Commanded(), 0, 1).0;
            Safe(JOINTS, turning) && turning.running && turning.hasCommand && turning.lastCommand.items == [TURN]
            && !Expired(ARM, turning, 1) && turning.joints[0].velocity == 1.0
    ensures |JOINTS| == |Commanded().joints| == |Step(ARM, JOINTS, Commanded(), 0, 1).0.joints| == 1
  {
    var started := Start(ARM, Created(JOINTS, 0), 0).0;
    assert Find(JOINTS, TURN) == 0;
    OperationIsSafe(ARM, JOINTS, started, OpSetCommand(GO, 1));
    OperationIsSafe(ARM, JOINTS, Commanded(), OpStep(0, 1));
    assert [TURN][..0] == [];
  }

  /** Starting a controller that is already moving is the exception: disabled, and still moving. */
  lemma RestartCanLeaveJointsMoving() returns (o: Options, infos: seq<JointInfo>, c: Control)
    ensures Safe(infos, c)
    ensures var restarted := Start(o, c, 0).0; !restarted.enabled && !Quiet(restarted.joints)
  {
    CommandedTurns();
    o, infos, c := ARM, JOINTS, Step(ARM, JOINTS, Commanded(), 0, 1).0;
  }

  /** The operations up to an emergency stop, and after it the recovery without a new command. */
  const BEFORE_STOP := [OpStart(0), OpSetCommand(GO, 1), OpStep(0, 1)]
  const RECOVERY := [OpEmergencyStop, OpClearFault, OpEnable, OpStep(0, 1)]

  /** A history in which a joint moves again after an emergency stop although nobody has sent a command since. */
  lemma EmergencyStopCanReplay() returns (states: seq<Control>)
    ensures History(ARM, JOINTS, states, BEFORE_STOP + RECOVERY)
    ensures Quiet(states[4].joints) && !Quiet(states[7].joints)
  {
    hide *;
    CommandedTurns();
    var born := Created(JOINTS, 0);
    var started := Start(ARM, born, 0).0;
    var turning := Step(ARM, JOINTS, Commanded(), 0, 1).0;
    var stopped := EmergencyStop(turning).0;
    var cleared := ClearFault(stopped).0;
    var resumed := Enable(cleared).0;
    SameJoints(turning);
    states := [born, started, Commanded(), turning, stopped, cleared, resumed, Step(ARM, JOINTS, resumed, 0, 1).0];
    TurnStirs(turning.lastCommand.items);
    EmergencyStopKeepsTheCommand(ARM, JOINTS, turning, 0, 1);
    ReplayIsHistory(states);
  }

  lemma SameJoints(c: Control)
    ensures |Enable(ClearFault(EmergencyStop(c).0).0).0.joints| == |c.joints|
  {
  }

  lemma TurnStirs(items: seq<Item>)
    requires items == [TURN]
    ensures Stirs(items[0])
  {
  }

  lemma ReplayIsHistory(states: seq<Control>)
    requires |states| == 8 && states[0] == Created(JOINTS, 0) && states[1] == Start(ARM, states[0], 0).0
    requires states[2] == Commanded() && |states[2].joints| == 1 && |states[3].joints| == 1
    requires states[3] == Step(ARM, JOINTS, states[2], 0, 1).0 && states[4] == EmergencyStop(states[3]).0
    requires states[5] == ClearFault(states[4]).0 && states[6] == Enable(states[5]).0
    requires |states[6].joints| == 1 && states[7] == Step(ARM, JOINTS, states[6], 0, 1).0
    ensures History(ARM, JOINTS, states, BEFORE_STOP + RECOVERY)
  {
    hide Step, SetCommand, ApplyItems, Safe, Expired;
  }
}

/**
 What the joint controller's operations come to, field by field and over histories, without
 the helper predicates the operations are made of.
 */
module JointBehaviour {
  import opened JointControl
  import opened JointSafety

  // ------------------------------------------------------------ safe output

  /** Every joint is disabled and told to stand still where it is. */
  predicate StandsStill(before: seq<JointState>, after: seq<JointState>) {
    && |after| == |before|
    && forall i | 0 <= i < |before| ::
         after[i] == JointState(ModeDisabled, before[i].position, 0.0, 0.0, before[i].faultCode)
  }

  predicate StandsStillWith(before: seq<JointState>, after: seq<JointState>, code: nat) {
    && |after| == |before|
    && forall i | 0 <= i < |before| :: after[i] == JointState(ModeDisabled, before[i].position, 0.0, 0.0, code)
  }

  /** The command held, its time and the time of the last step are as before. */
  predicate KeepsCommand(c: Control, r: Control) {
    && r.hasCommand == c.hasCommand && r.lastCommand == c.lastCommand && r.lastCommandNs == c.lastCommandNs
    && r.lastStepNs == c.lastStepNs
  }

  /** What the operations that stop the joints leave: the flags one by one, every joint, and the command held. */
  lemma SafeOutputs(c: Control, code: nat)
    ensures var r := EmergencyStop(c).0; c.running ==>
              && KeepsCommand(c, r) && StandsStill(c.joints, r.joints) && r.safeOutput
              && (r.running, r.enabled, r.faultLatched, r.emergencyStopped) == (true, false, c.faultLatched, true)
    ensures var r := Disable(c).0; c.running ==>
              && KeepsCommand(c, r) && StandsStill(c.joints, r.joints) && r.safeOutput
              && (r.running, r.enabled, r.faultLatched, r.emergencyStopped) ==
                 (true, false, c.faultLatched, c.emergencyStopped)
    ensures var r := ClearFault(c).0; c.running ==>
              && KeepsCommand(c, r) && StandsStillWith(c.joints, r.joints, 0) && r.safeOutput
              && (r.running, r.enabled, r.faultLatched, r.emergencyStopped) == (true, false, false, false)
    ensures var r := InjectFault(c, code);
              && KeepsCommand(c, r) && StandsStillWith(c.joints, r.joints, code) && r.safeOutput
              && (r.running, r.enabled, r.faultLatched, r.emergencyStopped) ==
                 (c.running, false, true, c.emergencyStopped)
    ensures var r := Stop(c);
              && KeepsCommand(c, r) && StandsStill(c.joints, r.joints) && r.safeOutput
              && (r.running, r.enabled, r.faultLatched, r.emergencyStopped) ==
                 (false, false, c.faultLatched, c.emergencyStopped)
  {
  }

  /** A new controller is off, holds no command and has every joint disabled at position 0. */
  lemma NewController(infos: seq<JointInfo>, now: int)
    ensures var c := Created(infos, now);
            && AvailabilityOf(c) == Offline && !c.enabled && !c.faultLatched && !c.emergencyStopped && !c.hasCommand
            && c.lastStepNs == now && |c.joints| == |infos|
            && forall i | 0 <= i < |infos| :: c.joints[i] == JointState(ModeDisabled, 0.0, 0.0, 0.0, 0)
  {
  }

  // ------------------------------------------------------------ latches

  /** An emergency stop on a running controller latches: it is reported, and nothing but a clear lets it be enabled. */
  lemma EmergencyStopLatches(c: Control)
    requires c.running
    ensures var (r, code) := EmergencyStop(c);
            && code == NoError && r.emergencyStopped && !r.enabled && Quiet(r.joints)
            && AvailabilityOf(r) == EmergencyStopped
            && Enable(r) == (r, SafetyViolation)
  {
  }

  /** A fault does so with its code on every joint. */
  lemma FaultLatches(c: Control, code: nat)
    ensures var r := InjectFault(c, code);
            && r.faultLatched && !r.enabled && Quiet(r.joints) && |r.joints| == |c.joints|
            && (forall i | 0 <= i < |r.joints| :: r.joints[i].faultCode == code)
            && (c.running && !c.emergencyStopped ==> AvailabilityOf(r) == Fault)
            && (c.running ==> Enable(r) == (r, SafetyViolation))
  {
  }

  /** A command that carries an emergency stop and is for this controller stops like the call. */
  predicate StopsByCommand(o: Options, c: Control, cmd: Command) {
    c.running && (cmd.controllerId == "" || cmd.controllerId == o.controllerId) && cmd.emergencyStop
  }

  lemma StopCommandLatches(o: Options, infos: seq<JointInfo>, c: Control, cmd: Command, at: Instant)
    requires StopsByCommand(o, c, cmd)
    ensures SetCommand(o, infos, c, cmd, at) == EmergencyStop(c)
  {
  }

  /** The operations that can undo a latch. */
  predicate CanClear(op: Operation) {
    op.OpStart? || op.OpClearFault? || (op.OpSetCommand? && op.cmd.clearFault)
  }

  predicate Held(c: Control) {
    (c.emergencyStopped || c.faultLatched) && !c.enabled && Quiet(c.joints)
  }

  /** Nobody enables a held controller: the call changes nothing, a command does not get its way. */
  lemma HeldRefusesEnable(o: Options, infos: seq<JointInfo>, c: Control, cmd: Command, at: Instant)
    requires Held(c) && cmd.enable && !cmd.clearFault && !cmd.disable && !cmd.emergencyStop
    ensures Enable(c).0 == c && Enable(c).1 != NoError
    ensures SetCommand(o, infos, c, cmd, at).0 == c && SetCommand(o, infos, c, cmd, at).1 != NoError
  {
  }

  lemma OperationKeepsHeld(o: Options, infos: seq<JointInfo>, c: Control, op: Operation)
    requires |c.joints| == |infos| && Held(c) && !CanClear(op)
    ensures var r := Do(o, infos, c, op);
            && Held(r)
            && (c.emergencyStopped ==> r.emergencyStopped) && (c.faultLatched ==> r.faultLatched)
            && (!op.OpInjectFault? ==> forall i | 0 <= i < |infos| ::
                  |r.joints| == |infos| && r.joints[i].faultCode == c.joints[i].faultCode)
  {
    hide CommandOk, ApplyItems;
  }

  /** Once held, a controller stays held, disabled and silent over every history until something clears it. */
  lemma {:induction false} HeldUntilCleared(
    o: Options, infos: seq<JointInfo>, states: seq<Control>, ops: seq<Operation>, j: nat, k: nat)
    requires History(o, infos, states, ops) && j <= k < |states|
    requires |states[j].joints| == |infos| && Held(states[j])
    requires forall i | j <= i < k :: !CanClear(ops[i])
    ensures Held(states[k]) && |states[k].joints| == |infos|
    ensures states[j].emergencyStopped ==> states[k].emergencyStopped
    ensures states[j].faultLatched ==> states[k].faultLatched
    ensures k < |ops| && ops[k].OpEnable? ==> states[k + 1] == states[k]
    decreases k - j
  {
    hide Held, Do;
    if j < k {
      HeldUntilCleared(o, infos, states, ops, j, k - 1);
      OperationKeepsHeld(o, infos, states[k - 1], ops[k - 1]);
      SameCount(o, infos, states[k - 1], ops[k - 1]);
    }
    if k < |ops| && ops[k].OpEnable? {
      EnableOfHeld(o, infos, states[k]);
    }
  }

  lemma SameCount(o: Options, infos: seq<JointInfo>, c: Control, op: Operation)
    requires |c.joints| == |infos|
    ensures |Do(o, infos, c, op).joints| == |infos|
  {
    if op.OpStep? {
      hide CommandOk, ApplyItems, Silenced, Expired;
    } else {
      SamePositions(o, infos, c, op);
    }
  }

  lemma EnableOfHeld(o: Options, infos: seq<JointInfo>, c: Control)
    requires |c.joints| == |infos| && Held(c)
    ensures Do(o, infos, c, OpEnable) == c
  {
  }

  /** The emergency stop, by call or by command. */
  predicate IsEmergencyStop(o: Options, c: Control, op: Operation) {
    (op.OpEmergencyStop? && c.running) || (op.OpSetCommand? && StopsByCommand(o, c, op.cmd))
  }

  /** From an emergency stop until something clears it, all is stopped, disabled and silent, and no enable helps. */
  lemma EmergencyStopHolds(
    o: Options, infos: seq<JointInfo>, states: seq<Control>, ops: seq<Operation>, j: nat, k: nat)
    requires History(o, infos, states, ops) && j < k < |states|
    requires IsEmergencyStop(o, states[j], ops[j])
    requires forall i | j < i < k :: !CanClear(ops[i])
    ensures states[k].emergencyStopped && !states[k].enabled && Quiet(states[k].joints)
    ensures AvailabilityOf(states[k]) == EmergencyStopped || AvailabilityOf(states[k]) == Offline
    ensures k < |ops| && ops[k].OpEnable? ==> states[k + 1] == states[k]
  {
    EmergencyStopLatches(states[j]);
    if ops[j].OpSetCommand? {
      StopCommandLatches(o, infos, states[j], ops[j].cmd, ops[j].at);
    }
    SameCount(o, infos, states[j], ops[j]);
    HeldUntilCleared(o, infos, states, ops, j + 1, k);
  }

  /** From a fault until something clears it, likewise, and every joint carries the code until another fault. */
  lemma {:induction false} FaultHolds(
    o: Options, infos: seq<JointInfo>, states: seq<Control>, ops: seq<Operation>, j: nat, k: nat)
    requires History(o, infos, states, ops) && j < k < |states|
    requires ops[j].OpInjectFault?
    requires forall i | j < i < k :: !CanClear(ops[i])
    ensures states[k].faultLatched && !states[k].enabled && Quiet(states[k].joints) && |states[k].joints| == |infos|
    ensures (forall i | j < i < k :: !ops[i].OpInjectFault?) ==>
              forall n | 0 <= n < |infos| :: states[k].joints[n].faultCode == ops[j].code
    ensures k < |ops| && ops[k].OpEnable? ==> states[k + 1] == states[k]
    decreases k
  {
    FaultLatches(states[j], ops[j].code);
    SameCount(o, infos, states[j], ops[j]);
    HeldUntilCleared(o, infos, states, ops, j + 1, k);
    if j + 1 < k {
      FaultHolds(o, infos, states, ops, j, k - 1);
      OperationKeepsHeld(o, infos, states[k - 1], ops[k - 1]);
    }
  }

  // ------------------------------------------------------------ clearing and enabling

  /** Clearing takes both latches and every code away, and leaves the controller disabled. */
  lemma ClearFaultClears(c: Control)
    requires c.running
    ensures var (r, code) := ClearFault(c);
            && code == NoError && !r.faultLatched && !r.emergencyStopped && !r.enabled && Quiet(r.joints)
            && (forall i | 0 <= i < |r.joints| :: r.joints[i].faultCode == 0)
            && AvailabilityOf(r) == Disabled
            && Enable(r).1 == NoError && AvailabilityOf(Enable(r).0) == Enabled
  {
  }

  /** Enabling succeeds exactly on a running controller without a latch, and touches no joint. */
  lemma EnableSucceeds(c: Control)
    ensures var (r, code) := Enable(c);
            && (code == NoError <==> c.running && !c.faultLatched && !c.emergencyStopped)
            && (code == NoError ==> r.enabled && r.joints == c.joints && r.hasCommand == c.hasCommand)
            && (code != NoError ==> r == c && code == if c.running then SafetyViolation else NotRunning)
  {
  }

  /** Disabling and stopping silence every joint; only stopping ends the run. */
  lemma DisableAndStop(c: Control)
    ensures c.running ==> Disable(c).1 == NoError
    ensures c.running ==> AvailabilityOf(Disable(c).0) ==
                          (if c.emergencyStopped then EmergencyStopped else if c.faultLatched then Fault else Disabled)
    ensures !c.running ==> Disable(c) == EmergencyStop(c) == ClearFault(c) == (c, NotRunning)
    ensures Quiet(Stop(c).joints) && !Stop(c).enabled && AvailabilityOf(Stop(c)) == Offline
    ensures c.running ==> Quiet(Disable(c).0.joints) && !Disable(c).0.enabled
  {
  }

  /** A start forgets latches and command, and enables unless told to come up disabled. */
  lemma StartOutcome(o: Options, c: Control, now: int)
    ensures var (r, code) := Start(o, c, now);
            && code == NoError && r.joints == c.joints && r.lastStepNs == now
            && !r.faultLatched && !r.emergencyStopped && !r.hasCommand
            && AvailabilityOf(r) == if o.disabledOnStart then Disabled else Enabled
  {
  }

  // ------------------------------------------------------------ commands

  /** Joint i is the first one the item means, by a non-zero id or a non-empty name. */
  predicate MeansJoint(infos: seq<JointInfo>, item: Item, i: nat) {
    && i < |infos|
    && ((item.id != 0 && infos[i].id == item.id) || (item.name != "" && infos[i].name == item.name))
    && forall k | 0 <= k < i ::
         (item.id == 0 || infos[k].id != item.id) && (item.name == "" || infos[k].name != item.name)
  }

  lemma MeansIsFind(infos: seq<JointInfo>, item: Item, i: nat)
    ensures MeansJoint(infos, item, i) <==> Find(infos, item) == i
  {
    FirstAddressed(infos, item, 0);
  }

  lemma {:induction false} FirstAddressed(infos: seq<JointInfo>, item: Item, from: nat)
    requires from <= |infos|
    ensures var r := FindFrom(infos, item, from);
            && (forall k | from <= k < if r < 0 then |infos| else r ::
                  (item.id == 0 || infos[k].id != item.id) && (item.name == "" || infos[k].name != item.name))
            && (r >= 0 ==> (item.id != 0 && infos[r].id == item.id) || (item.name != "" && infos[r].name == item.name))
    decreases |infos| - from
  {
    if from < |infos| {
      FirstAddressed(infos, item, from + 1);
    }
  }

  /** The item says what to control, and no limit or gain of it is negative. */
  predicate Usable(item: Item) {
    && (item.mode == ModeDisabled ||
        (item.mode != Unspecified &&
           (item.positionEnabled || item.velocityEnabled || item.effortEnabled
            || item.stiffnessEnabled || item.dampingEnabled)))
    && !(item.maxEffort < 0.0) && !(item.stiffness < 0.0) && !(item.damping < 0.0)
  }

  /** Every item means some joint and is usable, and no two mean the same joint. */
  ghost predicate Wellformed(infos: seq<JointInfo>, items: seq<Item>) {
    && (forall k | 0 <= k < |items| :: Usable(items[k]) && MeansSome(infos, items[k]))
    && (forall j, k | 0 <= j < k < |items| :: Apart(infos, items[j], items[k]))
  }

  ghost predicate MeansSome(infos: seq<JointInfo>, item: Item) {
    exists i: nat :: MeansJoint(infos, item, i)
  }

  ghost predicate Apart(infos: seq<JointInfo>, a: Item, b: Item) {
    forall i: nat | MeansJoint(infos, a, i) :: !MeansJoint(infos, b, i)
  }

  /** Both notions, in terms of the look-up. */
  lemma MeansAndApart(infos: seq<JointInfo>, a: Item, b: Item)
    ensures MeansSome(infos, a) <==> Find(infos, a) >= 0
    ensures MeansSome(infos, a) ==> (Apart(infos, a, b) <==> Find(infos, a) != Find(infos, b))
  {
    hide MeansJoint, Find;
    forall i: nat ensures MeansJoint(infos, a, i) <==> Find(infos, a) == i
                  ensures MeansJoint(infos, b, i) <==> Find(infos, b) == i
    {
      MeansIsFind(infos, a, i);
      MeansIsFind(infos, b, i);
    }
    if Find(infos, a) >= 0 {
      assert MeansJoint(infos, a, Find(infos, a));
    }
  }

  lemma ItemIsUsable(infos: seq<JointInfo>, item: Item)
    ensures ItemOk(infos, item) <==> Usable(item) && Find(infos, item) >= 0
  {
  }

  lemma WellformedIsOk(infos: seq<JointInfo>, items: seq<Item>)
    ensures Wellformed(infos, items) <==> CommandOk(infos, items)
  {
    hide ItemOk, Usable, MeansSome, Apart, Find;
    forall k | 0 <= k < |items|
      ensures ItemOk(infos, items[k]) <==> Usable(items[k]) && MeansSome(infos, items[k])
    {
      ItemIsUsable(infos, items[k]);
      MeansAndApart(infos, items[k], items[k]);
    }
    forall j, k | 0 <= j < k < |items| && MeansSome(infos, items[j])
      ensures Apart(infos, items[j], items[k]) <==> Find(infos, items[j]) != Find(infos, items[k])
    {
      MeansAndApart(infos, items[j], items[k]);
    }
  }

  /** A plain motion command: items only. */
  predicate Plain(cmd: Command) {
    !cmd.enable && !cmd.disable && !cmd.emergencyStop && !cmd.clearFault && cmd.items != []
  }

  /** When a motion command is taken, why it is refused, and what is kept of it. */
  lemma CommandOutcome(o: Options, infos: seq<JointInfo>, c: Control, cmd: Command, at: Instant)
    requires Plain(cmd)
    ensures var (r, code) := SetCommand(o, infos, c, cmd, at);
            && (code == NotRunning <==> !c.running)
            && (c.running && cmd.controllerId != "" && cmd.controllerId != o.controllerId ==> code == InvalidData)
            && (c.running && (cmd.controllerId == "" || cmd.controllerId == o.controllerId) ==>
                  code == if !c.enabled || c.faultLatched || c.emergencyStopped then SafetyViolation
                          else if !Wellformed(infos, cmd.items) then InvalidData else NoError)
            && (code != NoError ==> r == c)
            && (code == NoError ==>
                  && r.hasCommand && r.lastCommand.items == cmd.items && r.joints == c.joints && r.enabled
                  && r.lastCommand.controllerId == (if cmd.controllerId == "" then o.controllerId else cmd.controllerId)
                  && r.lastCommandNs == if cmd.timeNs != 0 then cmd.timeNs else at)
  {
    hide CommandOk, Wellformed;
    WellformedIsOk(infos, cmd.items);
  }

  predicate KeepsCodes(before: seq<JointState>, after: seq<JointState>) {
    |after| == |before| && forall i | 0 <= i < |before| :: after[i].faultCode == before[i].faultCode
  }

  /** What clear, disable and enable do when they come with a command for this controller. */
  lemma CommandsWithoutItems(o: Options, infos: seq<JointInfo>, c: Control, cmd: Command, at: Instant)
    requires c.running && !cmd.emergencyStop && (cmd.controllerId == "" || cmd.controllerId == o.controllerId)
    ensures var (r, code) := SetCommand(o, infos, c, cmd, at);
            && (cmd.clearFault ==>
                  !r.faultLatched && !r.emergencyStopped && KeepsCodes(WithFault(c.joints, 0), r.joints))
            && (!cmd.clearFault ==> KeepsCodes(c.joints, r.joints))
            && (cmd.disable ==>
                  && code == NoError && !r.enabled && r.safeOutput && KeepsCommand(c, r)
                  && if cmd.clearFault then StandsStillWith(c.joints, r.joints, 0) else StandsStill(c.joints, r.joints))
            && (!cmd.disable && cmd.items == [] ==>
                  && KeepsCommand(c, r)
                  && (!cmd.enable && !cmd.clearFault ==> r == c && code == NoError)
                  && (cmd.enable ==> (code == NoError <==>
                                      cmd.clearFault || (!c.faultLatched && !c.emergencyStopped)))
                  && (cmd.enable && code == NoError ==> r.enabled && !r.safeOutput))
  {
    hide CommandOk;
  }

  /**
   A refused command is not always without effect: one that is refused leaves a disabled
   controller enabled exactly when it asks for that, nothing latched is left to prevent it,
   and its items are not well formed.
   */
  lemma RefusedCommandCanEnable(o: Options, infos: seq<JointInfo>, c: Control, cmd: Command, at: Instant)
    requires c.running && !c.enabled
    ensures var (r, code) := SetCommand(o, infos, c, cmd, at);
            code != NoError && r.enabled <==>
              && (cmd.controllerId == "" || cmd.controllerId == o.controllerId)
              && !cmd.emergencyStop && !cmd.disable && cmd.enable
              && (cmd.clearFault || (!c.faultLatched && !c.emergencyStopped))
              && cmd.items != [] && !Wellformed(infos, cmd.items)
  {
    hide CommandOk, Wellformed;
    WellformedIsOk(infos, cmd.items);
  }

  /** Such a command: enable, with one item for a joint nobody has. */
  lemma RefusedCommandEnables()
    ensures var cmd := Command("", 1, true, false, false, false, [TURN.(id := 9)]);
            var c := Start(ARM, Created(JOINTS, 0), 0).0;
            var (r, code) := SetCommand(ARM, JOINTS, c, cmd, 1);
            !c.enabled && code == InvalidData && r.enabled
  {
    assert Find(JOINTS, TURN.(id := 9)) == -1;
    var items := [TURN.(id := 9)];
    assert !ItemOk(JOINTS, items[0]);
    assert !CommandOk(JOINTS, items);
  }

  // ------------------------------------------------------------ one step

  /** Within the joint's limits, if it has any. */
  predicate Nearest(info: JointInfo, wanted: real, got: real) {
    if info.minPosition < info.maxPosition
    then info.minPosition <= got <= info.maxPosition
         && (info.minPosition <= wanted <= info.maxPosition ==> got == wanted)
         && (wanted < info.minPosition ==> got == info.minPosition)
         && (wanted > info.maxPosition ==> got == info.maxPosition)
    else got == wanted
  }

  /** The effort is cut to a positive limit, the command's before the joint's, and left alone when neither gives one. */
  predicate Cut(commandLimit: real, jointLimit: real, wanted: real, got: real) {
    var limit := if commandLimit > 0.0 then commandLimit else jointLimit;
    if limit <= 0.0 then got == wanted
    else -limit <= got <= limit && (-limit <= wanted <= limit ==> got == wanted)
         && (wanted > limit ==> got == limit) && (wanted < -limit ==> got == -limit)
  }

  lemma ClampCuts(effort: real, commandLimit: real, jointLimit: real)
    ensures Cut(commandLimit, jointLimit, effort, ClampEffort(effort, commandLimit, jointLimit))
  {
  }

  /** What the item does to its joint over an elapsed time in nanoseconds. */
  predicate Driven(info: JointInfo, item: Item, elapsed: int, before: JointState, after: JointState) {
    && after.mode == item.mode && after.faultCode == before.faultCode
    && Nearest(info,
         if item.positionEnabled then item.position
         else if item.mode == Velocity && item.velocityEnabled
         then before.position + item.velocity * (elapsed as real / 1_000_000_000.0)
         else before.position,
         after.position)
    && (item.mode == ModeDisabled ==> after.velocity == 0.0 && after.effort == 0.0)
    && (item.mode != ModeDisabled ==>
          && after.velocity == (if item.velocityEnabled then item.velocity
                                else if item.mode == Velocity then 0.0 else before.velocity)
          && (item.effortEnabled ==> Cut(item.maxEffort, info.maxEffort, item.effort, after.effort))
          && (!item.effortEnabled ==> after.effort == if item.mode == Effort then 0.0 else before.effort))
  }

  lemma ItemDrives(info: JointInfo, item: Item, elapsed: int, s: JointState)
    ensures Driven(info, item, elapsed, s, ApplyItem(info, item, s, elapsed as real / 1_000_000_000.0))
  {
    ClampCuts(item.effort, item.maxEffort, info.maxEffort);
  }

  /** The command held is older than the timeout, if there is one. */
  predicate TooOld(o: Options, c: Control, nowNs: nat) {
    o.commandTimeoutMs > 0 && nowNs > c.lastCommandNs + o.commandTimeoutMs * 1_000_000
  }

  predicate AnyMeans(infos: seq<JointInfo>, items: seq<Item>, i: nat) {
    exists k | 0 <= k < |items| :: MeansJoint(infos, items[k], i)
  }

  /** A step drives every joint by the item that means it, and leaves the others, while the command is fresh. */
  lemma StepDrives(o: Options, infos: seq<JointInfo>, c: Control, now: int, nowNs: nat)
    requires Safe(infos, c) && c.enabled && c.hasCommand && !TooOld(o, c, nowNs)
    ensures var (r, code) := Step(o, infos, c, now, nowNs);
            && code == NoError && |r.joints| == |infos| && r.enabled && r.hasCommand && r.lastStepNs == now
            && (forall k, i: nat | 0 <= k < |c.lastCommand.items| && MeansJoint(infos, c.lastCommand.items[k], i) ::
                  Driven(infos[i], c.lastCommand.items[k], now - c.lastStepNs, c.joints[i], r.joints[i]))
            && (forall i: nat | i < |infos| && !AnyMeans(infos, c.lastCommand.items, i) ::
                  r.joints[i] == c.joints[i])
  {
    var items, dt := c.lastCommand.items, (now - c.lastStepNs) as real / 1_000_000_000.0;
    var r := Step(o, infos, c, now, nowNs).0;
    assert r.joints == ApplyItems(infos, items, c.joints, dt);
    hide ApplyItem, ApplyItems, Step, Driven, MeansJoint;
    forall k, i: nat | 0 <= k < |items| && MeansJoint(infos, items[k], i)
      ensures Driven(infos[i], items[k], now - c.lastStepNs, c.joints[i], r.joints[i])
    {
      MeansIsFind(infos, items[k], i);
      EachJointFollowsItsItem(infos, items, c.joints, dt, i);
      ItemDrives(infos[i], items[k], now - c.lastStepNs, c.joints[i]);
    }
    forall i: nat | i < |infos| && !AnyMeans(infos, items, i)
      ensures r.joints[i] == c.joints[i]
    {
      forall k | 0 <= k < |items| ensures Find(infos, items[k]) != i {
        MeansIsFind(infos, items[k], i);
      }
      EachJointFollowsItsItem(infos, items, c.joints, dt, i);
    }
  }

  /** An old command is dropped, and with it every motion; without one a step does nothing but note the time. */
  lemma StepWithoutFreshCommand(o: Options, infos: seq<JointInfo>, c: Control, now: int, nowNs: nat)
    requires Safe(infos, c) && c.running
    ensures var (r, code) := Step(o, infos, c, now, nowNs);
            && code == NoError && r.lastStepNs == now
            && (c.enabled && c.hasCommand && TooOld(o, c, nowNs) ==>
                  !r.enabled && !r.hasCommand && r.safeOutput && StandsStill(c.joints, r.joints))
            && (c.enabled && !c.hasCommand ==> r == c.(lastStepNs := now))
            && (!c.enabled ==>
                  !r.enabled && r.safeOutput && StandsStill(c.joints, r.joints) && r.hasCommand == c.hasCommand)
    ensures Step(o, infos, c.(running := false), now, nowNs) == (c.(running := false), NotRunning)
  {
    hide CommandOk, ApplyItems;
  }

  /** The three joints a controller has when it is given none: distinct, and limited. */
  lemma DefaultJointsAreLimited()
    ensures |DEFAULT_JOINTS| == 3
    ensures forall i | 0 <= i < 3 ::
              DEFAULT_JOINTS[i].id == i + 1 && DEFAULT_JOINTS[i].minPosition == -3.14159
              && DEFAULT_JOINTS[i].maxPosition == 3.14159 && DEFAULT_JOINTS[i].maxEffort == 20.0
    ensures DEFAULT_JOINTS[0].name == "joint_1" && DEFAULT_JOINTS[1].name == "joint_2"
    ensures DEFAULT_JOINTS[2].name == "joint_3"
  {
  }
}

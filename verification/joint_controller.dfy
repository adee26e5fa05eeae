/** The mock joint controller as operations on values: commands, faults and time. */
module JointControl {

  datatype Mode = Unspecified | ModeDisabled | Position | Velocity | Effort | Mit

  datatype JointInfo = JointInfo(id: nat, name: string, minPosition: real, maxPosition: real, maxEffort: real)

  datatype Item = Item(
    id: nat, name: string, mode: Mode,
    positionEnabled: bool, position: real,
    velocityEnabled: bool, velocity: real,
    effortEnabled: bool, effort: real,
    stiffnessEnabled: bool, stiffness: real,
    dampingEnabled: bool, damping: real,
    maxEffort: real)

  datatype Command = Command(
    controllerId: string, timeNs: nat,
    enable: bool, disable: bool, emergencyStop: bool, clearFault: bool,
    items: seq<Item>)

  datatype JointState = JointState(mode: Mode, position: real, velocity: real, effort: real, faultCode: nat)

  datatype Options = Options(controllerId: string, commandTimeoutMs: nat, disabledOnStart: bool)

  datatype ErrorCode = NoError | NotRunning | SafetyViolation | InvalidData

  datatype Availability = Offline | EmergencyStopped | Fault | Degraded | Enabled | Disabled

  /** A reading of the monotonic clock, in nanoseconds since boot. */
  type Instant = t: nat | t > 0 witness 1

  datatype Control = Control(
    running: bool, enabled: bool, faultLatched: bool, emergencyStopped: bool,
    hasCommand: bool, safeOutput: bool,
    lastCommand: Command, lastCommandNs: nat, lastStepNs: int,
    joints: seq<JointState>)

  const NO_COMMAND := Command("", 0, false, false, false, false, [])

  const DEFAULT_JOINTS := [
    JointInfo(1, "joint_1", -3.14159, 3.14159, 20.0),
    JointInfo(2, "joint_2", -3.14159, 3.14159, 20.0),
    JointInfo(3, "joint_3", -3.14159, 3.14159, 20.0)]

  // ------------------------------------------------------------ pure helpers

  function Travel(velocity: real, dt: real): real { velocity * dt }

  function Max(a: real, b: real): real { if a < b then b else a }

  function Min(a: real, b: real): real { if b < a then b else a }

  function ClampEffort(effort: real, commandLimit: real, jointLimit: real): real {
    var limit := if commandLimit > 0.0 then commandLimit else if jointLimit > 0.0 then jointLimit else 0.0;
    if limit <= 0.0 then effort else Max(-limit, Min(limit, effort))
  }

  predicate Addresses(item: Item, info: JointInfo) {
    (item.id != 0 && item.id == info.id) || (item.name != "" && item.name == info.name)
  }

  /** The first joint an item addresses, or -1. */
  function FindFrom(infos: seq<JointInfo>, item: Item, from: nat): (r: int)
    requires from <= |infos|
    ensures r == -1 || from <= r < |infos|
    decreases |infos| - from
  {
    if from == |infos| then -1
    else if Addresses(item, infos[from]) then from
    else FindFrom(infos, item, from + 1)
  }

  function Find(infos: seq<JointInfo>, item: Item): int {
    FindFrom(infos, item, 0)
  }

  predicate ItemOk(infos: seq<JointInfo>, item: Item) {
    && Find(infos, item) >= 0
    && item.mode != Unspecified
    && (item.mode == ModeDisabled || item.positionEnabled || item.velocityEnabled || item.effortEnabled
        || item.stiffnessEnabled || item.dampingEnabled)
    && item.maxEffort >= 0.0 && item.stiffness >= 0.0 && item.damping >= 0.0
  }

  /** What ValidateCommandLocked demands: every item is usable and no joint is addressed twice. */
  predicate CommandOk(infos: seq<JointInfo>, items: seq<Item>) {
    && (forall k | 0 <= k < |items| :: ItemOk(infos, items[k]))
    && (forall j, k | 0 <= j < k < |items| :: Find(infos, items[j]) != Find(infos, items[k]))
  }

  /** The effect of one command item on the joint it addresses. */
  function ApplyItem(info: JointInfo, item: Item, s: JointState, dt: real): JointState {
    var velocity := if item.velocityEnabled then item.velocity
                    else if item.mode == Velocity then 0.0 else s.velocity;
    var moved := if item.mode == Velocity && item.velocityEnabled
                 then s.position + Travel(item.velocity, dt) else s.position;
    var placed := if item.positionEnabled then item.position else moved;
    var position := if info.minPosition < info.maxPosition
                    then Max(info.minPosition, Min(info.maxPosition, placed)) else placed;
    var effort := if item.effortEnabled then ClampEffort(item.effort, item.maxEffort, info.maxEffort)
                  else if item.mode == Effort then 0.0 else s.effort;
    if item.mode == ModeDisabled then s.(mode := item.mode, position := position, velocity := 0.0, effort := 0.0)
    else s.(mode := item.mode, position := position, velocity := velocity, effort := effort)
  }

  /** The items in order; an item that addresses no joint is skipped. */
  function ApplyItems(infos: seq<JointInfo>, items: seq<Item>, joints: seq<JointState>, dt: real): (r: seq<JointState>)
    requires |joints| == |infos|
    ensures |r| == |joints|
  {
    if items == [] then joints
    else
      var before := ApplyItems(infos, items[..|items| - 1], joints, dt);
      var item := items[|items| - 1];
      var i := Find(infos, item);
      if i < 0 then before else before[i := ApplyItem(infos[i], item, before[i], dt)]
  }

  lemma NoItems(infos: seq<JointInfo>, joints: seq<JointState>, dt: real)
    requires |joints| == |infos|
    ensures ApplyItems(infos, [], joints, dt) == joints
  {
  }

  lemma ItemThen(infos: seq<JointInfo>, items: seq<Item>, joints: seq<JointState>, dt: real, k: nat)
    requires |joints| == |infos| && k < |items|
    ensures var before, i := ApplyItems(infos, items[..k], joints, dt), Find(infos, items[k]);
            ApplyItems(infos, items[..k + 1], joints, dt) ==
            if i < 0 then before else before[i := ApplyItem(infos[i], items[k], before[i], dt)]
  {
    assert items[..k + 1][..k] == items[..k];
  }

  function Silenced(joints: seq<JointState>): (r: seq<JointState>)
    ensures |r| == |joints|
  {
    seq(|joints|, i requires 0 <= i < |joints| =>
      joints[i].(mode := ModeDisabled, velocity := 0.0, effort := 0.0))
  }

  function WithFault(joints: seq<JointState>, code: nat): (r: seq<JointState>)
    ensures |r| == |joints|
  {
    seq(|joints|, i requires 0 <= i < |joints| => joints[i].(faultCode := code))
  }

  /** No joint is told to move. */
  predicate Quiet(joints: seq<JointState>) {
    forall i | 0 <= i < |joints| :: joints[i].velocity == 0.0 && joints[i].effort == 0.0
  }

  predicate InLimits(infos: seq<JointInfo>, joints: seq<JointState>) {
    && |joints| == |infos|
    && forall i | 0 <= i < |infos| :: infos[i].minPosition < infos[i].maxPosition ==>
         infos[i].minPosition <= joints[i].position <= infos[i].maxPosition
  }

  // ------------------------------------------------------------ operations on values

  type Outcome = (Control, ErrorCode)

  function ApplySafeOutput(c: Control): Control {
    c.(enabled := false, safeOutput := true, joints := Silenced(c.joints))
  }

  function Created(infos: seq<JointInfo>, now: int): Control {
    Control(false, false, false, false, false, false, NO_COMMAND, 0, now,
      seq(|infos|, _ => JointState(ModeDisabled, 0.0, 0.0, 0.0, 0)))
  }

  function Start(o: Options, c: Control, now: int): Outcome {
    var enabled := !o.disabledOnStart;
    (c.(running := true, enabled := enabled, faultLatched := false, emergencyStopped := false,
             safeOutput := !enabled, hasCommand := false, lastStepNs := now), NoError)
  }

  function Stop(c: Control): Control {
    ApplySafeOutput(c.(running := false))
  }

  function Enable(c: Control): Outcome {
    if !c.running then (c, NotRunning)
    else if c.faultLatched || c.emergencyStopped then (c, SafetyViolation)
    else (c.(enabled := true, safeOutput := false), NoError)
  }

  function Disable(c: Control): Outcome {
    if !c.running then (c, NotRunning) else (ApplySafeOutput(c), NoError)
  }

  function EmergencyStop(c: Control): Outcome {
    if !c.running then (c, NotRunning)
    else (ApplySafeOutput(c.(emergencyStopped := true)), NoError)
  }

  function FaultsCleared(c: Control): Control {
    c.(faultLatched := false, emergencyStopped := false, joints := WithFault(c.joints, 0))
  }

  function ClearFault(c: Control): Outcome {
    if !c.running then (c, NotRunning) else (ApplySafeOutput(FaultsCleared(c)), NoError)
  }

  function InjectFault(c: Control, code: nat): Control {
    ApplySafeOutput(c.(faultLatched := true, joints := WithFault(c.joints, code)))
  }

  /** SetCommand after its clear_fault and enable parts: the joint items. */
  function SetItems(o: Options, infos: seq<JointInfo>, c: Control, cmd: Command, now: Instant): Outcome {
    if cmd.items == [] then (c, NoError)
    else if !c.enabled then (c, SafetyViolation)
    else if c.faultLatched || c.emergencyStopped then (c, SafetyViolation)
    else if !CommandOk(infos, cmd.items) then
      (c, InvalidData)
    else
      (c.(lastCommand := if cmd.controllerId == "" then cmd.(controllerId := o.controllerId) else cmd,
               lastCommandNs := if cmd.timeNs != 0 then cmd.timeNs else now,
               hasCommand := true, safeOutput := false), NoError)
  }

  function SetCommand(o: Options, infos: seq<JointInfo>, c: Control, cmd: Command, now: Instant): Outcome {
    if !c.running then (c, NotRunning)
    else if cmd.controllerId != "" && cmd.controllerId != o.controllerId then (c, InvalidData)
    else if cmd.emergencyStop then (ApplySafeOutput(c.(emergencyStopped := true)), NoError)
    else
      var c1 := if cmd.clearFault then FaultsCleared(c) else c;
      if cmd.disable then (ApplySafeOutput(c1), NoError)
      else if cmd.enable && (c1.faultLatched || c1.emergencyStopped) then (c1, SafetyViolation)
      else SetItems(o, infos, if cmd.enable then c1.(enabled := true, safeOutput := false) else c1, cmd, now)
  }

  predicate Expired(o: Options, c: Control, nowNs: nat) {
    && c.hasCommand && o.commandTimeoutMs > 0
    && c.lastCommandNs != 0 && nowNs > c.lastCommandNs + o.commandTimeoutMs * 1_000_000
  }

  /** Step reads the clock twice: for the elapsed time and for the timeout. */
  function Step(o: Options, infos: seq<JointInfo>, c: Control, now: int, nowNs: nat): Outcome
    requires |c.joints| == |infos|
  {
    if !c.running then (c, NotRunning)
    else
      var dt := (now - c.lastStepNs) as real / 1_000_000_000.0;
      var c1 := c.(lastStepNs := now);
      if !c1.enabled then (ApplySafeOutput(c1), NoError)
      else if Expired(o, c1, nowNs) then
        (ApplySafeOutput(c1.(hasCommand := false)), NoError)
      else if !c1.hasCommand then (c1, NoError)
      else
        (c1.(joints := ApplyItems(infos, c1.lastCommand.items, c1.joints, dt), safeOutput := false), NoError)
  }

  function AvailabilityOf(c: Control): Availability {
    if !c.running then Offline
    else if c.emergencyStopped then EmergencyStopped
    else if c.faultLatched then Fault
    else if c.safeOutput && c.enabled then Degraded
    else if c.enabled then Enabled else Disabled
  }
}

/** The controller as the class it is, each method against the operation it implements. */
module JointController {
  import opened JointControl
  import Op = JointControl

  class MockJointController {
    const options: Options
    const infos: seq<JointInfo>
    var running: bool
    var enabled: bool
    var faultLatched: bool
    var emergencyStopped: bool
    var hasCommand: bool
    var safeOutput: bool
    var lastCommand: Command
    var lastCommandNs: nat
    var lastStepNs: int
    var joints: seq<JointState>

    function View(): Control
      reads this
    {
      Control(running, enabled, faultLatched, emergencyStopped, hasCommand, safeOutput,
        lastCommand, lastCommandNs, lastStepNs, joints)
    }

    predicate Valid()
      reads this
    {
      |joints| == |infos|
    }

    constructor (options: Options, infos: seq<JointInfo>, now: int)
      ensures this.options == options && this.infos == if infos == [] then DEFAULT_JOINTS else infos
      ensures Valid() && View() == Created(this.infos, now)
    {
      this.options := options;
      this.infos := if infos == [] then DEFAULT_JOINTS else infos;
      running, enabled, faultLatched, emergencyStopped := false, false, false, false;
      hasCommand, safeOutput := false, false;
      lastCommand, lastCommandNs, lastStepNs := NO_COMMAND, 0, now;
      new;
      joints := [];
      for i := 0 to |this.infos|
        invariant View() == Created(this.infos, now).(joints := joints)
        invariant joints == seq(i, _ => JointState(ModeDisabled, 0.0, 0.0, 0.0, 0))
      {
        joints := joints + [JointState(ModeDisabled, 0.0, 0.0, 0.0, 0)];
      }
    }

    method FindJointIndex(item: Item) returns (r: int)
      ensures r == Find(infos, item)
      ensures 0 <= r ==> r < |infos| && Addresses(item, infos[r]) && forall k | 0 <= k < r :: !Addresses(item, infos[k])
      ensures r < 0 ==> r == -1 && forall k | 0 <= k < |infos| :: !Addresses(item, infos[k])
    {
      for i := 0 to |infos|
        invariant forall k | 0 <= k < i :: !Addresses(item, infos[k])
        invariant Find(infos, item) == FindFrom(infos, item, i)
      {
        if item.id != 0 && item.id == infos[i].id {
          return i;
        }
        if item.name != "" && item.name == infos[i].name {
          return i;
        }
      }
      return -1;
    }

    method ValidateCommandLocked(items: seq<Item>) returns (ok: bool)
      ensures ok <==> CommandOk(infos, items)
    {
      var seen: set<int> := {};
      for k := 0 to |items|
        invariant forall j | 0 <= j < k :: ItemOk(infos, items[j])
        invariant forall i, j | 0 <= i < j < k :: Find(infos, items[i]) != Find(infos, items[j])
        invariant forall i :: i in seen <==> exists j | 0 <= j < k :: Find(infos, items[j]) == i
      {
        var item := items[k];
        var index := FindJointIndex(item);
        if index < 0 {
          return false;
        }
        if index in seen {
          return false;
        }
        seen := seen + {index};
        if item.mode == Unspecified {
          return false;
        }
        var hasControl := item.positionEnabled || item.velocityEnabled || item.effortEnabled
                          || item.stiffnessEnabled || item.dampingEnabled;
        if item.mode != ModeDisabled && !hasControl {
          return false;
        }
        if item.maxEffort < 0.0 || item.stiffness < 0.0 || item.damping < 0.0 {
          return false;
        }
      }
      return true;
    }

    method ApplySafeOutputLocked()
      requires Valid()
      modifies this
      ensures Valid() && View() == Op.ApplySafeOutput(old(View()))
    {
      enabled := false;
      safeOutput := true;
      ghost var before := joints;
      for i := 0 to |joints|
        invariant |joints| == |before|
        invariant View() == Op.ApplySafeOutput(old(View())).(joints := joints)
        invariant forall j | 0 <= j < |before| :: joints[j] == if j < i then Silenced(before)[j] else before[j]
      {
        joints := joints[i := joints[i].(mode := ModeDisabled, velocity := 0.0, effort := 0.0)];
      }
    }

    method SetFaultCode(code: nat)
      requires Valid()
      modifies `joints
      ensures Valid() && joints == WithFault(old(joints), code)
    {
      ghost var before := joints;
      for i := 0 to |joints|
        invariant |joints| == |before|
        invariant forall j | 0 <= j < |before| :: joints[j] == if j < i then WithFault(before, code)[j] else before[j]
      {
        joints := joints[i := joints[i].(faultCode := code)];
      }
    }

    method Start(now: int)
      requires Valid()
      modifies this
      ensures Valid() && View() == Op.Start(options, old(View()), now).0
    {
      hide Op.CommandOk, Op.ApplyItems, Op.Silenced, Op.WithFault;
      running := true;
      enabled := !options.disabledOnStart;
      faultLatched := false;
      emergencyStopped := false;
      safeOutput := !enabled;
      hasCommand := false;
      lastStepNs := now;
    }

    method Stop()
      requires Valid()
      modifies this
      ensures Valid() && View() == Op.Stop(old(View()))
    {
      hide Op.CommandOk, Op.ApplyItems, Op.Silenced, Op.WithFault;
      running := false;
      enabled := false;
      safeOutput := true;
      ApplySafeOutputLocked();
    }

    method Enable() returns (r: ErrorCode)
      requires Valid()
      modifies this
      ensures Valid() && (View(), r) == Op.Enable(old(View()))
    {
      hide Op.CommandOk, Op.ApplyItems, Op.Silenced, Op.WithFault;
      if !running {
        return NotRunning;
      }
      if faultLatched {
        return SafetyViolation;
      }
      if emergencyStopped {
        return SafetyViolation;
      }
      enabled := true;
      safeOutput := false;
      return NoError;
    }

    method Disable() returns (r: ErrorCode)
      requires Valid()
      modifies this
      ensures Valid() && (View(), r) == Op.Disable(old(View()))
    {
      hide Op.CommandOk, Op.ApplyItems, Op.Silenced, Op.WithFault;
      if !running {
        return NotRunning;
      }
      ApplySafeOutputLocked();
      return NoError;
    }

    method EmergencyStop() returns (r: ErrorCode)
      requires Valid()
      modifies this
      ensures Valid() && (View(), r) == Op.EmergencyStop(old(View()))
    {
      hide Op.CommandOk, Op.ApplyItems, Op.Silenced, Op.WithFault;
      if !running {
        return NotRunning;
      }
      emergencyStopped := true;
      ApplySafeOutputLocked();
      return NoError;
    }

    method ClearFault() returns (r: ErrorCode)
      requires Valid()
      modifies this
      ensures Valid() && (View(), r) == Op.ClearFault(old(View()))
    {
      hide Op.CommandOk, Op.ApplyItems, Op.Silenced, Op.WithFault;
      if !running {
        return NotRunning;
      }
      faultLatched := false;
      emergencyStopped := false;
      SetFaultCode(0);
      ApplySafeOutputLocked();
      return NoError;
    }

    method InjectFault(code: nat)
      requires Valid()
      modifies this
      ensures Valid() && View() == Op.InjectFault(old(View()), code)
    {
      hide Op.CommandOk, Op.ApplyItems, Op.Silenced, Op.WithFault;
      faultLatched := true;
      SetFaultCode(code);
      ApplySafeOutputLocked();
    }

    method SetCommand(cmd: Command, now: Instant) returns (r: ErrorCode)
      requires Valid()
      modifies this
      ensures Valid() && (View(), r) == Op.SetCommand(options, infos, old(View()), cmd, now)
    {
      hide Op.SetItems, Op.Silenced, Op.WithFault;
      if !running {
        return NotRunning;
      }
      if cmd.controllerId != "" && cmd.controllerId != options.controllerId {
        return InvalidData;
      }
      if cmd.emergencyStop {
        emergencyStopped := true;
        ApplySafeOutputLocked();
        return NoError;
      }
      if cmd.clearFault {
        faultLatched := false;
        emergencyStopped := false;
        SetFaultCode(0);
      }
      if cmd.disable {
        ApplySafeOutputLocked();
        return NoError;
      }
      if cmd.enable {
        if faultLatched || emergencyStopped {
          return SafetyViolation;
        }
        enabled := true;
        safeOutput := false;
      }
      r := SetItems(cmd, now);
    }

    /** The rest of SetCommand: the joint items. */
    method SetItems(cmd: Command, now: Instant) returns (r: ErrorCode)
      requires Valid()
      modifies this
      ensures Valid() && (View(), r) == Op.SetItems(options, infos, old(View()), cmd, now)
    {
      hide Op.CommandOk;
      if cmd.items == [] {
        return NoError;
      }
      if !enabled {
        return SafetyViolation;
      }
      if faultLatched || emergencyStopped {
        return SafetyViolation;
      }
      var ok := ValidateCommandLocked(cmd.items);
      if !ok {
        return InvalidData;
      }
      lastCommand := cmd;
      if lastCommand.controllerId == "" {
        lastCommand := lastCommand.(controllerId := options.controllerId);
      }
      lastCommandNs := if cmd.timeNs != 0 then cmd.timeNs else now;
      hasCommand := true;
      safeOutput := false;
      return NoError;
    }

    method Step(now: int, nowNs: nat) returns (r: ErrorCode)
      requires Valid()
      modifies this
      ensures Valid() && (View(), r) == Op.Step(options, infos, old(View()), now, nowNs)
    {
      hide Op.CommandOk, Op.ApplyItems, Op.Silenced, Op.WithFault;
      if !running {
        return NotRunning;
      }
      var dt := (now - lastStepNs) as real / 1_000_000_000.0;
      lastStepNs := now;
      if !enabled {
        ApplySafeOutputLocked();
        return NoError;
      }
      if hasCommand && options.commandTimeoutMs > 0 {
        if lastCommandNs != 0 && nowNs > lastCommandNs + options.commandTimeoutMs * 1_000_000 {
          hasCommand := false;
          ApplySafeOutputLocked();
          return NoError;
        }
      }
      if !hasCommand {
        return NoError;
      }
      ApplyLastCommand(dt);
      safeOutput := false;
      return NoError;
    }

    /** The loop of Step over the items of the last command. */
    method ApplyLastCommand(dt: real)
      requires Valid()
      modifies `joints
      ensures Valid() && joints == ApplyItems(infos, lastCommand.items, old(joints), dt)
    {
      hide ApplyItems, Travel;
      var items := lastCommand.items;
      ghost var before := joints;
      NoItems(infos, before, dt);
      for k := 0 to |items|
        invariant |joints| == |infos|
        invariant joints == ApplyItems(infos, items[..k], before, dt)
      {
        ItemThen(infos, items, before, dt, k);
        var item := items[k];
        var index := FindJointIndex(item);
        if index >= 0 {
          var info, s := infos[index], joints[index];
          s := s.(mode := item.mode);
          if item.velocityEnabled {
            s := s.(velocity := item.velocity);
          } else if item.mode == Velocity {
            s := s.(velocity := 0.0);
          }
          if item.mode == Velocity && item.velocityEnabled {
            s := s.(position := s.position + Travel(item.velocity, dt));
          }
          if item.positionEnabled {
            s := s.(position := item.position);
          }
          if info.minPosition < info.maxPosition {
            s := s.(position := Max(info.minPosition, Min(info.maxPosition, s.position)));
          }
          if item.effortEnabled {
            s := s.(effort := ClampEffort(item.effort, item.maxEffort, info.maxEffort));
          } else if item.mode == Effort {
            s := s.(effort := 0.0);
          }
          if item.mode == ModeDisabled {
            s := s.(velocity := 0.0, effort := 0.0);
          }
          assert s == ApplyItem(info, item, joints[index], dt);
          joints := joints[index := s];
        }
      }
      assert items[..|items|] == items;
    }
  }
}

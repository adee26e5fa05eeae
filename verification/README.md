# OpenEmber verification models

Dafny models of seven OpenEmber components, with proofs of what they promise. Each component
that changes state in place is a class whose methods are proved against operations on values;
the theorems are lemmas about those operations, over every input and every run. The
`*_behaviour.dfy` and `modbus_bytes.dfy` files say what each operation comes to in the terms of
the requirement (exit codes, times, bytes, characters), without the functions it is made of. Check
the project with `dafny verify dfyconfig.toml`.

| files | component |
|---|---|
| `thread_pool.dfy`, `pool_protocol.dfy`, `pool_theorems.dfy` | the thread pool: its critical sections, their interleavings, and what holds in all of them |
| `process_manager.dfy`, `process_manager_class.dfy`, `supervisor_steps.dfy`, `supervisor_table.dfy`, `supervisor_restarts.dfy`, `supervisor_stop.dfy`, `supervisor_behaviour.dfy` | the launch manager's supervisor |
| `intrusive_list.dfy` | the intrusive circular doubly linked list |
| `joint_controller.dfy`, `joint_safety.dfy`, `joint_behaviour.dfy` | the mock joint controller |
| `crc_theory.dfy`, `crc_words.dfy`, `checksum.dfy`, `crc_check_values.dfy` | the four CRCs |
| `modbus_frames.dfy`, `modbus_bytes.dfy`, `modbus_tcp.dfy`, `modbus_client.dfy`, `agri_registers.dfy`, `field_master.dfy`, `field_behaviour.dfy` | Modbus TCP client, server and the chunked poll of an IO card |
| `windows.dfy`, `mean_variance.dfy`, `rate_limiter.dfy`, `log_tail.dfy`, `log_behaviour.dfy`, `endpoint.dfy`, `endpoint_behaviour.dfy` | streaming filters, log rate limit, log collection, endpoint URIs |

## What is assumed

- Thread pool: mutexes and condition variables are the C++ library's. Each critical section is
  one atomic step; evaluating the wait predicate and going to sleep is one step because the
  lock is held; wake-ups may be spurious. `std::priority_queue` returns a maximal element.
- Supervisor: fork() returns an error or a pid no unreaped child has (a reaped pid may be
  reused at once); waitpid reports positive pids. All calls come from one thread. The clock is
  a parameter of each call. `children`, `events` and `signals` are records of what the kernel
  and the event callback have seen.
- StopAll ends under two further assumptions, both stated as preconditions: some round's clock
  is past every deadline, and a child sent SIGKILL is reported within a given number of rounds.
- Joint controller: doubles are reals and times unbounded integers. A history starts the
  controller only while no joint is told to move.
- Modbus: a connection is two byte pipes that deliver in order in pieces of any size; send and
  recv may fail at any time unless a pipe is declared reliable. The peer serves one request
  while the client waits. The bank does not change during one poll.
- The register bank's climate values use sines between -1 and 1, as std::sin returns them.

## What the code does not do

Each is proved, with the exact condition under which the expected property does hold.

- A discarding shutdown can leave a `wait_idle` caller asleep although the pool is idle
  (`PoolTheorems.WaitIdleCanBeStranded`, `PoolTheorems.StrandedForGood`). `StepServesIdlers` names the one
  step that does so.
- Starting a joint controller that is already moving leaves it disabled with its joints still
  told to move (`JointSafety.RestartCanLeaveJointsMoving`, `StartIsSafeWhenQuiet`).
- An emergency stop keeps the last command, and a still fresh one moves the joints again after
  clear, enable and step (`JointSafety.EmergencyStopKeepsTheCommand`); `EmergencyStopCanReplay` is
  such a history.
- A command that is refused can still enable the controller, because enabling comes before its items
  are looked at: exactly when it asks for that, no latch is left and its items are not well formed
  (`JointBehaviour.RefusedCommandCanEnable`, `RefusedCommandEnables`).
- A command's effort limit overrides the joint's own, upwards too
  (`JointSafety.CommandCanOverrideEffortLimit`).
- `crc8` with an even polynomial misses some one-byte changes (`Checksum.BlindPair`); with an odd
  one it misses none (`Crc8SeesEveryByte`).
- One poll of the supervisor has no bound when some live process is restarted without a limit, even
  if no pid is ever reused (`SupervisorRestarts.UnlimitedIsReachable`), and has one otherwise
  (`PollBoundIsExact`).
- A process stopped for silence is sent SIGTERM once and then only waited for: outside StopAll its
  deadline is not looked at, so one that does not die is neither killed nor replaced
  (`SupervisorBehaviour.HungIsNeverKilled`, `SupervisorStop.OnlyStopAllKills`); one that dies of it is
  replaced (`HungIsReplaced`).
- Installing a new spec does not reset the restart count. The restarts left are exactly the limit
  minus the count (`SupervisorRestarts.RestartsAreExact`), so all of a limit is available exactly
  when nothing has been counted yet (`FullLimitIsExact`); `ReinstalledIsNotRestarted` is a process
  that gets none under a new spec that allows one.
- The chunk of 120 registers is commented as a multiple of the channel stride 16 and is not: every
  channel but 7 and 22 is read in one request, and these are not (`FieldMaster.SplitChannels`).
- The Modbus client does not compare the transaction number of a reply, nor the address and value a
  write echoes: any reply of its unit with the right function code and length is taken
  (`ModbusBytes.ClientReads`, `ClientAcknowledges`).
- The log limiter does not keep to its limit in every second: it lets up to twice the limit through
  (`RateLimiter.TwiceTheLimitCanPass`). It keeps to it in the second from t exactly when the state
  then has a window that is due or starts no earlier than t, or no line left in its window
  (`LimitWithinSecondIsExact`).
- The per-file tail budget can fall short of a limit whose triple does not fit 64 bits
  (`LogTail.BudgetCanFallShort`); the result is that of a full scan exactly when the budget reaches
  the limit (`TailBudgetIsExact`), as it does for every request (`RequestsSeeFullScan`).

## Model

| member | source | states |
|---|---|---|
| `PoolCore.LessIsStrictTotalOrder` | components/thread_pool/include/openember/thread_pool/thread_pool.hpp:68-74 | the task order is a strict total order on tasks with distinct sequence numbers |
| `PoolCore.TopExists` | components/thread_pool/src/thread_pool.cpp:94-95 | a non-empty queue has exactly one top |
| `PoolCore.ThreadPool.constructor` | components/thread_pool/src/thread_pool.cpp:12-22 | a new pool is empty, accepting and idle, with its worker count |
| `PoolCore.ThreadPool.Create` | components/thread_pool/src/thread_pool.cpp:12-22 | a pool comes about exactly when it is to have workers; without any it is refused |
| `PoolCore.ThreadPool.Post` | components/thread_pool/src/thread_pool.cpp:35-49 | an empty task and a closing pool are refused without change; otherwise the task is queued under the next number |
| `PoolCore.ThreadPool.Acquire` | components/thread_pool/src/thread_pool.cpp:83-97 | a worker waits, exits or takes the top task, exactly when the wait predicate and the stop flag say so |
| `PoolCore.ThreadPool.Release` | components/thread_pool/src/thread_pool.cpp:107-113 | one task fewer is busy, and idle callers are notified exactly when the pool becomes idle |
| `PoolCore.ThreadPool.Shutdown` | components/thread_pool/src/thread_pool.cpp:57-72 | only the first call stops the pool; a discarding one empties the queue |
| `PoolProtocol.StepKeepsInv` | components/thread_pool/src/thread_pool.cpp:35-115 | every step of every interleaving keeps numbering, conservation, the busy count, the closing phases, the wake-up invariant and the order |
| `PoolProtocol.RunKeepsInv` | components/thread_pool/src/thread_pool.cpp:35-115 | that invariant holds in every state of every run |
| `PoolProtocol.StepLosesNoWakeup` | components/thread_pool/src/thread_pool.cpp:35-97 | while a worker sleeps, the queued tasks never outnumber the workers on their way to the lock plus the pending notifications |
| `PoolTheorems.TasksAreConserved` | components/thread_pool/src/thread_pool.cpp:41-115 | in every reachable state each accepted task is in exactly one of queued, held, finished, discarded, and busy_ counts the holders |
| `PoolTheorems.ShutdownLeavesNothing` | components/thread_pool/src/thread_pool.cpp:57-80 | when shutdown has joined the workers nothing is queued or held, and after a drain every accepted task has run exactly once |
| `PoolTheorems.WaitIdleIsSound` | components/thread_pool/src/thread_pool.cpp:51-55 | when wait_idle returns every accepted task has finished or was discarded |
| `PoolTheorems.DispatchOrder` | components/thread_pool/include/openember/thread_pool/thread_pool.hpp:68-74 | a task that was waiting when another was taken does not have the higher priority, and equal priorities are taken in order of acceptance over the whole run |
| `PoolTheorems.QueuedTaskIsCovered` | components/thread_pool/src/thread_pool.cpp:41-97 | a non-empty queue always has an awake worker or a notification on its way |
| `PoolTheorems.NobodySleepsThroughShutdown` | components/thread_pool/src/thread_pool.cpp:57-91 | once stopping, no worker sleeps unless notify_all is still to come |
| `PoolTheorems.StepUsesWork` | components/thread_pool/src/thread_pool.cpp:82-115 | every step of the pool lowers a measure; posts and spurious wake-ups raise it by a constant |
| `PoolTheorems.RunIsBounded` | components/thread_pool/src/thread_pool.cpp:35-115 | the steps of any run are bounded by the initial work and the posts and spurious wake-ups |
| `PoolTheorems.ShutdownIsBounded` | components/thread_pool/src/thread_pool.cpp:57-115 | once stopping, the steps left are bounded, spurious wake-ups included |
| `PoolTheorems.WorkIsNeverStuck` | components/thread_pool/src/thread_pool.cpp:57-115 | while a task is queued or held or a shutdown has not returned, some step of the pool is possible |
| `PoolTheorems.AtRestEverythingRan` | components/thread_pool/src/thread_pool.cpp:57-115 | a run that cannot go on has run every task it did not discard, and any shutdown has returned |
| `PoolTheorems.StepServesIdlers` | components/thread_pool/src/thread_pool.cpp:51-115 | a step leaves a wait_idle caller asleep on a true predicate exactly when it discards under a sleeping caller with no busy worker |
| `PoolTheorems.WaitIdleIsServed` | components/thread_pool/src/thread_pool.cpp:51-115 | without such a step no wait_idle caller ever sleeps while the pool is idle |
| `PoolTheorems.StrandedForGood` | components/thread_pool/src/thread_pool.cpp:51-72 | a stranded caller is never notified again |
| `PoolTheorems.WaitIdleCanBeStranded` | components/thread_pool/src/thread_pool.cpp:51-72 | a run that strands a caller |
| `LaunchManager.ProcessManager.constructor` | system/launch_manager/process_manager.cpp:64-69 | the table holds the given specs, all stopped |
| `LaunchManager.ProcessManager.StartAll` | system/launch_manager/process_manager.cpp:75-81 | every process is started in table order, and true means all are live |
| `LaunchManager.ProcessManager.StartProcess` | system/launch_manager/process_manager.cpp:83-116 | naming, refusal, already running, reinstalling and appending, with the reply of each |
| `LaunchManager.ProcessManager.StopProcess` | system/launch_manager/process_manager.cpp:118-145 | look-up by name, then by pid; not found, already stopped or stop requested |
| `LaunchManager.ProcessManager.StartOne` | system/launch_manager/process_manager.cpp:147-198 | the new entry, events and child set after a fork or its failure |
| `LaunchManager.ProcessManager.Poll` | system/launch_manager/process_manager.cpp:200-221 | every reported child is handled, then heartbeats are checked |
| `LaunchManager.ProcessManager.HandleExit` | system/launch_manager/process_manager.cpp:223-255 | the end state, the freed entry and the restart decision |
| `LaunchManager.ProcessManager.StopAll` | system/launch_manager/process_manager.cpp:274-304 | rounds of reaping and killing until no process is live |
| `LaunchManager.ProcessManager.KillOverdue` | system/launch_manager/process_manager.cpp:282-297 | one kill sweep, and whether any process is still live |
| `LaunchManager.ProcessManager.MarkHeartbeat` | system/launch_manager/process_manager.cpp:306-320 | the first process of that name has beaten now |
| `LaunchManager.ProcessManager.StopOne` | system/launch_manager/process_manager.cpp:322-342 | the stopping entry with its deadline, the event and the SIGTERM |
| `LaunchManager.ProcessManager.CheckHeartbeatTimeouts` | system/launch_manager/process_manager.cpp:344-383 | the heartbeat check over the table, none while stopping |
| `Supervisor.PidIndexFrom` | system/launch_manager/process_manager.cpp:385-392 | the first entry with this pid, or none |
| `Supervisor.NameIndexFrom` | system/launch_manager/process_manager.cpp:394-401 | the first entry with this name, or none |
| `SupervisorSteps.CallAsSteps` | system/launch_manager/process_manager.cpp:75-383 | every public call is a sequence of elementary steps, starts only whom it says, and kills only in StopAll |
| `SupervisorSteps.RunAsSteps` | system/launch_manager/main.cpp:628-651 | so is every run of calls |
| `SupervisorTable.StepKeepsInv` | system/launch_manager/process_manager.cpp:83-255 | each step keeps the table in agreement with the kernel and every trace well formed |
| `SupervisorTable.TableAgreesWithKernel` | system/launch_manager/process_manager.cpp:83-255 | after any run the positive pids are distinct and are exactly the unreaped children, and a pid is positive iff the state is Running or Stopping |
| `SupervisorTable.TraceGrammar` | system/launch_manager/process_manager.cpp:147-342 | a trace the phases accept is a sequence of incarnations and the start of the current one |
| `SupervisorTable.TracesAreWellFormed` | system/launch_manager/process_manager.cpp:147-342 | in every run each process's events are (Starting (Failed or Running Stopping* end))* up to the current incarnation, with one pid per incarnation |
| `SupervisorRestarts.RestartsAreBudgeted` | system/launch_manager/process_manager.cpp:242-272 | without explicit starts every start is a counted restart, the limit is never exceeded, and policy never means none; requests refused because the process is live do not count as starts |
| `SupervisorRestarts.StopRequestHalts` | system/launch_manager/process_manager.cpp:118-145 | a stop request is accepted exactly for a live process and marks it as stopped on purpose |
| `SupervisorRestarts.OperatorStopHolds` | system/launch_manager/process_manager.cpp:223-383 | such a process keeps its pid until reaped, ends as Stopped and is not started again unless asked, over every run, refused requests included |
| `SupervisorRestarts.CheckIsExact` | system/launch_manager/process_manager.cpp:344-383 | the heartbeat check stops exactly the late processes, and not on purpose |
| `SupervisorRestarts.ExitUsesCapacity` | system/launch_manager/process_manager.cpp:223-272 | each managed exit uses up one of the live children and remaining restarts |
| `SupervisorRestarts.PollIsBounded` | system/launch_manager/process_manager.cpp:200-272 | one poll handles at most live children plus remaining restarts |
| `SupervisorRestarts.CrashLoop` | system/launch_manager/process_manager.cpp:200-272 | every restart there is room for can be spent in one poll, without reusing a pid |
| `SupervisorRestarts.PollWithoutLimit` | system/launch_manager/process_manager.cpp:200-272 | a process restarted without limit can make one poll as long as you like, without reusing a pid |
| `SupervisorRestarts.PollBoundIsExact` | system/launch_manager/process_manager.cpp:200-272 | a poll has a bound if and only if every live process that could be restarted has a limit, whether or not pids are reused |
| `SupervisorRestarts.UnlimitedIsReachable` | system/launch_manager/process_manager.cpp:75-272 | starting a process that is restarted without limit leads to a state whose poll has no bound |
| `SupervisorRestarts.RestartsAreExact` | system/launch_manager/process_manager.cpp:242-272 | the numbers of automatic restarts some run can make are exactly those the policy, the limit and the count still allow |
| `SupervisorRestarts.FullLimitIsExact` | system/launch_manager/process_manager.cpp:242-272 | all restarts of the installed limit are available iff none has been counted |
| `SupervisorRestarts.ReinstalledIsNotRestarted` | system/launch_manager/process_manager.cpp:83-109 | a run after which a newly installed spec allows one restart and no further run makes it |
| `SupervisorStop.StopAllBegins` | system/launch_manager/process_manager.cpp:274-278 | every live child is sent SIGTERM with its own deadline, and nothing else changes |
| `SupervisorStop.NobodyIsKilledEarly` | system/launch_manager/process_manager.cpp:274-304 | the live set only shrinks, each SIGKILL goes to a child that was sent SIGTERM and had its whole timeout, and SIGKILLs to one child are a second apart |
| `SupervisorStop.SweepIsExact` | system/launch_manager/process_manager.cpp:286-297 | a sweep sends SIGKILL to exactly the overdue children and defers exactly their deadlines |
| `SupervisorStop.OnlyStopAllKills` | system/launch_manager/process_manager.cpp:274-342 | a run without StopAll sends no SIGKILL |
| `SupervisorStop.LateSweepKillsAll` | system/launch_manager/process_manager.cpp:280-297 | after a sweep past every deadline each child still live has been sent SIGKILL |
| `SupervisorStop.StopAllEnds` | system/launch_manager/process_manager.cpp:274-304 | given reaping of killed children in bounded time StopAll ends with no live process and no child left |
| `SupervisorBehaviour.NewManager` | system/launch_manager/process_manager.cpp:64-69 | every process is stopped and never restarted, and nothing has been sent or said |
| `SupervisorBehaviour.ExitOutcome` | system/launch_manager/process_manager.cpp:223-272 | for every way a managed child can end: Stopped on request, Exited for exit code 0 and Failed otherwise; started again exactly under always, or under on-failure unless the exit code is 0, with restarts left and nobody stopping it; with the entry, count, events and children of each case |
| `SupervisorBehaviour.UnknownExit` | system/launch_manager/process_manager.cpp:223-228 | the end of a child the table does not know changes nothing |
| `SupervisorBehaviour.PollOutcome` | system/launch_manager/process_manager.cpp:200-383 | a poll leaves a live process alone, or asks it to stop without meaning it, exactly when it has been silent too long |
| `SupervisorBehaviour.PollSparesStopping` | system/launch_manager/process_manager.cpp:200-383 | a process that is stopping or not live is not asked |
| `SupervisorBehaviour.BeatKeepsAlive` | system/launch_manager/process_manager.cpp:306-383 | after a heartbeat at time t a check, and a poll, stops the process iff it comes more than the heartbeat timeout after t |
| `SupervisorBehaviour.StartupIsTimed` | system/launch_manager/process_manager.cpp:147-383 | before its first heartbeat a started process is stopped iff it is supervised, has a startup timeout, and this is over |
| `SupervisorBehaviour.UnsupervisedIsLeftAlone` | system/launch_manager/process_manager.cpp:355-373 | with heartbeat timeout 0 a process is never stopped for silence |
| `SupervisorBehaviour.HungIsReplaced` | system/launch_manager/process_manager.cpp:200-272 | a silent process is asked to stop, and when it dies of it is started again under a restart policy with restarts left |
| `SupervisorBehaviour.PollAsksTheLiving` | system/launch_manager/process_manager.cpp:200-383 | a poll sends SIGTERM to exactly the processes that live on after the reaping and are silent, and sends nothing else |
| `SupervisorBehaviour.HungIsNeverKilled` | system/launch_manager/process_manager.cpp:200-383 | a process stopped for silence that does not die is neither killed nor replaced by any number of polls |
| `SupervisorBehaviour.StoppingIgnoresHeartbeats` | system/launch_manager/process_manager.cpp:344-347 | no heartbeat is checked while StopAll is under way |
| `SupervisorBehaviour.KnownHeartbeat` | system/launch_manager/process_manager.cpp:306-320 | a heartbeat is noted, with its time, on the first process of that name only |
| `SupervisorBehaviour.StartOutcome` | system/launch_manager/process_manager.cpp:147-198 | a start leaves a live process alone; otherwise it forgets heartbeat and intent and runs under the new pid since now, or has failed; two events, and one child more if the fork succeeds |
| `SupervisorBehaviour.StartAllOutcome` | system/launch_manager/process_manager.cpp:75-81 | every process that is not live is started by its own fork, the others are untouched |
| `SupervisorBehaviour.StartNeedsCommand` | system/launch_manager/process_manager.cpp:83-94 | a spec without a name goes by its command, and one without a command is refused without effect |
| `SupervisorBehaviour.StartKnown` | system/launch_manager/process_manager.cpp:96-108 | a live process of that name is left alone, any other gets the new spec and is started |
| `SupervisorBehaviour.StartUnknown` | system/launch_manager/process_manager.cpp:110-116 | a new name becomes the last entry, started with no restarts counted |
| `SupervisorBehaviour.StopOutcome` | system/launch_manager/process_manager.cpp:118-342 | for a live target: stopping on purpose, deadline now plus the requested timeout or else its own, one event and one SIGTERM |
| `SupervisorBehaviour.StopUnknown` | system/launch_manager/process_manager.cpp:123-136 | a request that means no process is answered not found without effect |
| `IntrusiveList.RingIsUnique` | core/inc/list.h:28-31 | the links determine the node sequence of a ring |
| `IntrusiveList.RingFrom` | core/inc/list.h:28-31 | a ring seen from any node is a ring |
| `IntrusiveList.RingsAreDisjointOrSame` | core/inc/list.h:28-31 | two rings with a common node have the same nodes |
| `IntrusiveList.InitListHead` | core/inc/list.h:38-42 | the node becomes an empty ring |
| `IntrusiveList.ListAddBetween` | core/inc/list.h:45-53 | the node is inserted at that place of a well-linked ring |
| `IntrusiveList.ListAdd` | core/inc/list.h:61-64 | list_add puts the node first |
| `IntrusiveList.ListAddTail` | core/inc/list.h:67-70 | list_add_tail puts the node last |
| `IntrusiveList.ListAddTailApart` | core/inc/list.h:67-70 | and leaves every other ring as it is |
| `IntrusiveList.ListEmpty` | core/inc/list.h:78-81 | true exactly for a ring without members |
| `IntrusiveList.ListDel` | core/inc/list.h:90-102 | list_del of any member removes that node alone and clears its links |
| `IntrusiveList.ListDelApart` | core/inc/list.h:90-102 | and leaves every other ring as it is |
| `IntrusiveList.AddThenDelete` | core/inc/list.h:67-102 | deleting what was added restores the ring |
| `IntrusiveList.MoveToOther` | core/inc/list.h:67-102 | a member can move to another ring and both stay well linked |
| `IntrusiveList.ForEachSafe` | core/inc/list.h:113-115 | list_for_each_safe visits each original node once, in order, also when the body deletes the current node, and leaves the survivors as the ring |
| `JointController.MockJointController.constructor` | components/actuator/src/mock_joint_controller.cpp:13-63 | a new controller is stopped, with silent joints, and has the three default joints when it is given none |
| `JointController.MockJointController.FindJointIndex` | components/actuator/src/mock_joint_controller.cpp:428-439 | the first joint the item addresses by id or name, or none |
| `JointController.MockJointController.ValidateCommandLocked` | components/actuator/src/mock_joint_controller.cpp:441-477 | a command is accepted iff every item is usable and no joint is addressed twice |
| `JointController.MockJointController.ApplySafeOutputLocked` | components/actuator/src/mock_joint_controller.cpp:479-488 | disabled, and every joint silent |
| `JointController.MockJointController.Start` | components/actuator/src/mock_joint_controller.cpp:97-112 | running, faults and command forgotten, joints untouched |
| `JointController.MockJointController.Stop` | components/actuator/src/mock_joint_controller.cpp:114-124 | stopped with safe output |
| `JointController.MockJointController.Enable` | components/actuator/src/mock_joint_controller.cpp:126-147 | refused when stopped, faulted or emergency stopped |
| `JointController.MockJointController.Disable` | components/actuator/src/mock_joint_controller.cpp:149-160 | safe output on a running controller |
| `JointController.MockJointController.EmergencyStop` | components/actuator/src/mock_joint_controller.cpp:162-174 | latched, with safe output |
| `JointController.MockJointController.ClearFault` | components/actuator/src/mock_joint_controller.cpp:176-194 | latches and fault codes cleared, with safe output |
| `JointController.MockJointController.SetCommand` | components/actuator/src/mock_joint_controller.cpp:196-281 | the order of its checks and the state after each outcome |
| `JointController.MockJointController.Step` | components/actuator/src/mock_joint_controller.cpp:283-373 | safe output when disabled or timed out, otherwise the last command applied |
| `JointController.MockJointController.ApplyLastCommand` | components/actuator/src/mock_joint_controller.cpp:325-366 | the items applied in order |
| `JointController.MockJointController.InjectFault` | components/actuator/src/mock_joint_controller.cpp:408-420 | latched with the code on every joint and safe output |
| `JointSafety.OperationIsSafe` | components/actuator/src/mock_joint_controller.cpp:97-373 | every operation keeps: faulted or stopped means disabled, disabled or without a command means every joint silent |
| `JointSafety.HistoryIsSafe` | components/actuator/src/mock_joint_controller.cpp:97-505 | so in every history, where degraded is never reported and anything but enabled means silent joints |
| `JointSafety.StepMovesOnlyOnFreshCommand` | components/actuator/src/mock_joint_controller.cpp:283-373 | a joint told to move after a step implies enabled, unfaulted and a command no older than the timeout |
| `JointSafety.PositionsStayInLimits` | components/actuator/src/mock_joint_controller.cpp:343-353 | positions that start within their limits stay there in every history |
| `JointSafety.EachJointFollowsItsItem` | components/actuator/src/mock_joint_controller.cpp:325-366 | an accepted command moves each joint by the one item that addresses it, and by no other |
| `JointSafety.StirringFromRest` | components/actuator/src/mock_joint_controller.cpp:325-366 | silent joints move after a step iff some item carries a non-zero velocity or effort |
| `JointSafety.StartIsSafeWhenQuiet` | components/actuator/src/mock_joint_controller.cpp:97-112 | Start keeps the controller safe iff no joint is moving |
| `JointSafety.EmergencyStopKeepsTheCommand` | components/actuator/src/mock_joint_controller.cpp:126-373 | after emergency stop, clear, enable and step the joints move iff a held command is fresh and stirs a joint |
| `JointSafety.EmergencyStopCanReplay` | components/actuator/src/mock_joint_controller.cpp:126-373 | a history from construction in which a joint moves after an emergency stop without a command in between |
| `JointSafety.CommandCanOverrideEffortLimit` | components/actuator/src/mock_joint_controller.cpp:25-37 | efforts stay within the joint's limit iff the command's limit is not above it |
| `JointSafety.RestartCanLeaveJointsMoving` | components/actuator/src/mock_joint_controller.cpp:97-112 | a restart that leaves a disabled controller with a moving joint |
| `JointBehaviour.SafeOutputs` | components/actuator/src/mock_joint_controller.cpp:114-194 | what emergency stop, disable, clear, fault and stop leave: each flag, each joint disabled and still where it is, the codes, the command held |
| `JointBehaviour.EmergencyStopLatches` | components/actuator/src/mock_joint_controller.cpp:162-174 | after an emergency stop the controller reports EmergencyStopped and refuses to be enabled |
| `JointBehaviour.FaultLatches` | components/actuator/src/mock_joint_controller.cpp:408-420 | a fault latches with its code on every joint and enabling is refused |
| `JointBehaviour.StopCommandLatches` | components/actuator/src/mock_joint_controller.cpp:196-214 | a command with emergency stop does what the call does |
| `JointBehaviour.HeldRefusesEnable` | components/actuator/src/mock_joint_controller.cpp:126-258 | a latched controller refuses enable, as call and in a command, without effect |
| `JointBehaviour.EmergencyStopHolds` | components/actuator/src/mock_joint_controller.cpp:97-505 | over every history: from an emergency stop, by call or command, until a start or clear every state is latched, disabled and silent, reports EmergencyStopped or Offline, and enabling changes nothing |
| `JointBehaviour.FaultHolds` | components/actuator/src/mock_joint_controller.cpp:97-505 | the same from a fault, with its code on every joint until another fault |
| `JointBehaviour.ClearFaultClears` | components/actuator/src/mock_joint_controller.cpp:176-194 | a clear takes latches and codes away, leaves the controller disabled, and enabling works again |
| `JointBehaviour.EnableSucceeds` | components/actuator/src/mock_joint_controller.cpp:126-147 | enabling succeeds iff running without a latch, and moves no joint |
| `JointBehaviour.DisableAndStop` | components/actuator/src/mock_joint_controller.cpp:114-160 | availability and joints after each, and not running otherwise |
| `JointBehaviour.StartOutcome` | components/actuator/src/mock_joint_controller.cpp:97-112 | a start forgets latches and command and enables unless told otherwise |
| `JointBehaviour.CommandOutcome` | components/actuator/src/mock_joint_controller.cpp:196-281 | when a motion command is taken, the error that refuses it otherwise, and the command and time then held |
| `JointBehaviour.WellformedIsOk` | components/actuator/src/mock_joint_controller.cpp:428-477 | a command is accepted iff each item means some joint, by its id or name, and is usable, and no two mean the same |
| `JointBehaviour.CommandsWithoutItems` | components/actuator/src/mock_joint_controller.cpp:216-249 | what clear, disable and enable do when a command carries them |
| `JointBehaviour.RefusedCommandCanEnable` | components/actuator/src/mock_joint_controller.cpp:233-266 | a refused command enables a disabled controller iff it asks for that, no latch is left, and its items are not well formed |
| `JointBehaviour.RefusedCommandEnables` | components/actuator/src/mock_joint_controller.cpp:233-266 | a command for an unknown joint that is refused and leaves a disabled controller enabled |
| `JointBehaviour.StepDrives` | components/actuator/src/mock_joint_controller.cpp:283-373 | with a fresh command a step drives each joint by the item that means it, over the nanoseconds since the last step, to the nearest position within its limits and with its effort cut, and leaves the others |
| `JointBehaviour.StepWithoutFreshCommand` | components/actuator/src/mock_joint_controller.cpp:283-323 | a command over its timeout in milliseconds is dropped and the joints stand still; without a command nothing moves |
| `JointBehaviour.ClampCuts` | components/actuator/src/mock_joint_controller.cpp:25-37 | the effort is cut to the positive limit that applies, and left alone without one |
| `JointBehaviour.NewController` | components/actuator/src/mock_joint_controller.cpp:13-63 | a new controller is off, without a command, with every joint disabled at 0 |
| `CrcTheory.ShiftIsInjective` | components/algorithm/src/checksum.cpp:42-45 | the shift step loses nothing iff the polynomial's last bit is set |
| `CrcTheory.ShiftsAreClock` | components/algorithm/src/checksum.cpp:40-46 | adding a byte and shifting is clocking its bits in one by one |
| `CrcTheory.ClockIsInjective` | components/algorithm/src/checksum.cpp:40-46 | different registers stay different whatever message follows |
| `CrcTheory.ClockIsLinear` | components/algorithm/src/checksum.cpp:40-46 | the register of a sum of messages is the sum of the registers |
| `CrcTheory.BurstIsDetected` | components/algorithm/src/checksum.cpp:34-92 | any error burst no wider than the register changes the checksum, whatever surrounds it |
| `CrcTheory.WiderBurstCanHide` | components/algorithm/src/checksum.cpp:34-92 | a burst one bit wider can be missed |
| `CrcTheory.ResidueIsExact` | components/algorithm/src/checksum.cpp:50-78 | exactly one trailer brings the register to zero, the register's own content |
| `CrcWords.CrcIsClock` | components/algorithm/src/checksum.cpp:34-92 | the word computation is the bit-serial machine on the message's bit string |
| `CrcWords.BurstChangesCrc` | components/algorithm/src/checksum.cpp:34-92 | equally long messages that differ only in a window of register width have different CRCs, on bit boundaries too |
| `CrcWords.ByteBurstChangesCrc` | components/algorithm/src/checksum.cpp:34-92 | so for one byte of crc8, two of the 16-bit CRCs and four of crc32, between any prefix and suffix |
| `CrcWords.TrailerCheck` | components/algorithm/src/checksum.cpp:50-78 | a trailer checks to zero iff it spells the register out |
| `Checksum.Crc8` | components/algorithm/src/checksum.cpp:34-48 | the loops compute the register after the whole message |
| `Checksum.Crc16Modbus` | components/algorithm/src/checksum.cpp:50-63 | the loops compute the register after the whole message |
| `Checksum.Crc16CcittFalse` | components/algorithm/src/checksum.cpp:65-78 | the loops compute the register after the whole message |
| `Checksum.Crc32` | components/algorithm/src/checksum.cpp:80-92 | the loops compute the complemented register |
| `Checksum.FixedPolynomialsAreProper` | components/algorithm/src/checksum.cpp:50-92 | the three fixed polynomials detect every burst of their width |
| `Checksum.Crc8SeesEveryByte` | components/algorithm/src/checksum.cpp:34-48 | crc8 sees every change within one byte iff its polynomial is odd |
| `Checksum.BlindPair` | components/algorithm/src/checksum.cpp:34-48 | for an even polynomial, two one-byte messages with the same crc8 |
| `Checksum.ModbusTrailer` | components/algorithm/src/checksum.cpp:50-63 | appending two bytes gives 0 iff they are the CRC, low byte first (section 2.5.1.2 of MODBUS over Serial Line V1.02) |
| `Checksum.CcittTrailer` | components/algorithm/src/checksum.cpp:65-78 | appending two bytes gives 0 iff they are the CRC, high byte first |
| `Checksum.Crc32Trailer` | components/algorithm/src/checksum.cpp:80-92 | appending four bytes gives the fixed residue iff they are the crc32, low byte first |
| `CrcCheckValues.Crc8Check` | test/test_algorithm.cpp:22 | crc8 of 123456789 is 0xF4 |
| `CrcCheckValues.ModbusCheck` | test/test_algorithm.cpp:23 | crc16_modbus of 123456789 is 0x4B37 |
| `CrcCheckValues.CcittCheck` | test/test_algorithm.cpp:24 | crc16_ccitt_false of 123456789 is 0x29B1 |
| `CrcCheckValues.Crc32Check` | test/test_algorithm.cpp:25 | crc32 of 123456789 is 0xCBF43926 |
| `ModbusFrames.WordsRoundTrip` | apps/agri_station_demo/agri_modbus_tcp.hpp:73-165 | registers written big-endian read back |
| `ModbusFrames.FrameIsWhole` | apps/agri_station_demo/agri_modbus_tcp.hpp:187-213 | a frame at the head of a stream is read back, and only its bytes are taken |
| `ModbusFrames.PrefixIsLost` | apps/agri_station_demo/agri_modbus_tcp.hpp:187-202 | no proper prefix of a frame is taken for a frame |
| `ModbusFrames.ReadRoundTrip` | apps/agri_station_demo/agri_modbus_tcp.hpp:132-360 | the reply to a read gives the client exactly the registers asked for iff they exist, otherwise a refusal, and nothing is left in the streams (section 6.3 of the MODBUS Application Protocol V1.1b3) |
| `ModbusFrames.WriteRoundTrip` | apps/agri_station_demo/agri_modbus_tcp.hpp:168-398 | the reply to a write is accepted and the register set iff the address exists (section 6.6) |
| `ModbusFrames.CutReplyCloses` | apps/agri_station_demo/agri_modbus_tcp.hpp:329-346 | a reply that breaks off makes the client close |
| `ModbusBytes.RequestBytes` | apps/agri_station_demo/agri_modbus_tcp.hpp:314-375 | the twelve bytes of every request, function code 3 to read and 6 to write |
| `ModbusBytes.ReadAnswer` | apps/agri_station_demo/agri_modbus_tcp.hpp:140-166 | for all registers the answer to a read: 3, twice the quantity and the registers high byte first; 0x83 3 for a quantity outside 1 to 125; 0x83 2 for registers that are not there (section 6.3) |
| `ModbusBytes.WriteAnswer` | apps/agri_station_demo/agri_modbus_tcp.hpp:168-180 | the answer to a write: the request, with the register set, or 0x86 2 (section 6.6) |
| `ModbusBytes.OtherAnswer` | apps/agri_station_demo/agri_modbus_tcp.hpp:182-184 | any other function code is answered with its top bit set and 1 (section 7) |
| `ModbusBytes.ShortIsUnanswered` | apps/agri_station_demo/agri_modbus_tcp.hpp:137-171 | no answer iff the PDU is empty or too short for its function code |
| `ModbusBytes.ServerReplies` | apps/agri_station_demo/agri_modbus_tcp.hpp:187-213 | the reply carries the request's own transaction, protocol and unit and its length; other protocols and lengths are dropped |
| `ModbusBytes.ServerWaitsForWholeFrame` | apps/agri_station_demo/agri_modbus_tcp.hpp:187-202 | a stream that ends inside the frame it announces is not served |
| `ModbusBytes.ClientReads` | apps/agri_station_demo/agri_modbus_tcp.hpp:326-359 | for any reply of any peer: taken for values iff it is from that unit, says 3 and the right byte count and holds as many bytes; the values high byte first; closed iff the length or the unit is wrong |
| `ModbusBytes.ClientAcknowledges` | apps/agri_station_demo/agri_modbus_tcp.hpp:379-395 | likewise for the reply to a write |
| `ModbusTcp.ReadFull` | apps/agri_station_demo/agri_modbus_tcp.hpp:47-58 | success means exactly the next bytes, however they arrive |
| `ModbusTcp.WriteFull` | apps/agri_station_demo/agri_modbus_tcp.hpp:60-71 | success means all the bytes, failure a proper prefix |
| `ModbusTcp.RegisterBank.ReadHolding` | apps/agri_station_demo/agri_modbus_tcp.hpp:88-98 | the registers asked for, iff the range is non-empty and exists |
| `ModbusTcp.RegisterBank.WriteSingle` | apps/agri_station_demo/agri_modbus_tcp.hpp:100-107 | one register changes, iff it exists |
| `ModbusTcp.HandlePdu` | apps/agri_station_demo/agri_modbus_tcp.hpp:132-185 | the answer and the bank after any PDU, short and unknown ones included |
| `ModbusTcp.ServeOneRequest` | apps/agri_station_demo/agri_modbus_tcp.hpp:187-213 | one request taken and answered, or a failure that left at most a broken-off reply |
| `ModbusClient.TcpClient.ReceiveRegisters` | apps/agri_station_demo/agri_modbus_tcp.hpp:326-359 | the receiving half of a read, whatever the peer sent: exactly what the frame at the head of the stream says |
| `ModbusClient.TcpClient.ReceiveAcknowledgement` | apps/agri_station_demo/agri_modbus_tcp.hpp:379-395 | the receiving half of a write, likewise |
| `ModbusClient.TcpClient.ReadHoldingRegisters` | apps/agri_station_demo/agri_modbus_tcp.hpp:307-360 | success means exactly the registers asked for; afterwards nothing is in flight or the client is closed; a legal request fails only by closing, and over reliable pipes not at all |
| `ModbusClient.TcpClient.WriteSingleRegister` | apps/agri_station_demo/agri_modbus_tcp.hpp:362-398 | success means the register is written; afterwards nothing is in flight or the client is closed |
| `AgriRegisters.BlocksTile` | apps/agri_station_demo/agri_afp_regs.hpp:114-124 | the channel blocks lie one after another and end with the bank |
| `AgriRegisters.SignedRoundTrip` | apps/agri_station_demo/agri_afp_regs.hpp:132-137 | a temperature survives its register, sign included, to less than a tenth toward zero |
| `AgriRegisters.UnsignedRoundTrip` | apps/agri_station_demo/agri_afp_regs.hpp:139-151 | so does a percentage |
| `AgriRegisters.PackRoundTrip` | apps/agri_station_demo/agri_afp_regs.hpp:160-177 | a 32-bit counter survives its two registers |
| `AgriIoCard.WriteDeviceInfo` | apps/agri_station_demo/agri_io_card_mock.cpp:66-87 | the info block, leaving heartbeat and a set sample period alone |
| `AgriIoCard.WriteChannelSample` | apps/agri_station_demo/agri_io_card_mock.cpp:89-123 | the ten registers of the channel, and no others |
| `AgriIoCard.SampleAll` | apps/agri_station_demo/agri_io_card_mock.cpp:154-159 | after one sampling round every channel's block is in its place |
| `FieldBehaviour.RegisterMap` | apps/agri_station_demo/agri_afp_regs.hpp:98-124 | channel c starts at register 256 + 16c, and a bank of n channels has 256 + 16n |
| `FieldBehaviour.SignedTenths` | apps/agri_station_demo/agri_afp_regs.hpp:132-137 | every whole number of tenths a 16-bit register can hold is encoded as its two's complement and decoded exactly |
| `FieldBehaviour.UnsignedTenths` | apps/agri_station_demo/agri_afp_regs.hpp:139-151 | likewise unsigned |
| `FieldBehaviour.Halves` | apps/agri_station_demo/agri_afp_regs.hpp:160-177 | low half and high half of a counter |
| `FieldBehaviour.SampledRegisters` | apps/agri_station_demo/agri_io_card_mock.cpp:89-123 | register by register what a sampling round leaves at each channel |
| `FieldBehaviour.BlockAtRest` | apps/agri_station_demo/agri_io_card_mock.cpp:93-122 | the ten registers of each channel at the middle of every swing, as numbers |
| `FieldBehaviour.Swings` | apps/agri_station_demo/agri_io_card_mock.cpp:93-103 | how far each value swings |
| `FieldMaster.ReadChannels` | apps/agri_station_demo/agri_field_master.cpp:178-199 | the chunk loop asks for exactly the 120-register chunks of the blocks, all of them legal, and yields exactly registers 0x0100 to 0x0100 + 16n - 1 |
| `FieldMaster.ChunkAt` | apps/agri_station_demo/agri_field_master.cpp:186-196 | the k-th request starts 120k registers after the first and takes 120 or what remains |
| `FieldMaster.Master.Poll` | apps/agri_station_demo/agri_field_master.cpp:161-231 | a turn that goes through decodes exactly the card's channels and sets its heartbeat; one that does not has lost the connection |
| `FieldMaster.Master.CountFailure` | apps/agri_station_demo/agri_field_master.cpp:201-211 | the third failure in a row closes the connection |
| `FieldBehaviour.DecodedValues` | apps/agri_station_demo/agri_field_master.cpp:89-106 | which registers of a slice give which value, and their scale |
| `FieldBehaviour.DecodedQuality` | apps/agri_station_demo/agri_field_master.cpp:103-104 | a sample is good iff quality bit 0 is set and bit 5 is not |
| `FieldBehaviour.DecodedShort` | apps/agri_station_demo/agri_field_master.cpp:89-94 | a slice that is too short gives nothing |
| `FieldMaster.SampledIsDecoded` | apps/agri_station_demo/agri_field_master.cpp:89-107 | what the card sampled at a channel is what the master decodes from that channel's slice, up to the register resolution |
| `FieldMaster.SplitChannels` | apps/agri_station_demo/agri_field_master.cpp:178-199 | some request of the loop covers a channel's whole block iff the channel is neither 7 nor 22 |
| `FieldMaster.SampleAndPoll` | apps/agri_station_demo/agri_field_master.cpp:161-231 | one sampling round and one turn of the master: a turn that goes through carries the climate of every channel, and over reliable pipes it goes through |
| `Windows.RingStep` | components/algorithm/include/openember/algorithm/filter.hpp:20-29 | the ring holds the last samples before and after each update |
| `Windows.SlidingWindow.Push` | components/algorithm/include/openember/algorithm/statistics.hpp:17-28 | the window holds exactly the last min(n, Window) samples of the history and sum_ is their sum |
| `Windows.SlidingWindow.MeanValue` | components/algorithm/include/openember/algorithm/statistics.hpp:30-33 | the mean of those samples |
| `Windows.UpdateAverage` | components/algorithm/include/openember/algorithm/filter.hpp:18-36 | each update returns the mean of the last samples |
| `Windows.MedianFilter.Update` | components/algorithm/include/openember/algorithm/filter.hpp:122-133 | the order statistic of rank (count - 1) / 2 of the last samples |
| `Windows.OrderStatisticIsUnique` | components/algorithm/include/openember/algorithm/filter.hpp:132 | there is only one value of that rank |
| `MeanVariances.RunningStep` | components/algorithm/include/openember/algorithm/statistics.hpp:92-99 | one update keeps mean_ the mean and m2_ the sum of squared deviations from it |
| `MeanVariances.RunningIsTwoPass` | components/algorithm/include/openember/algorithm/statistics.hpp:102-103 | the running mean and variance are the two-pass ones, and the variance is not negative |
| `MeanVariances.MeanVariance.Update` | components/algorithm/include/openember/algorithm/statistics.hpp:92-99 | the state stays that of the whole sample sequence |
| `MeanVariances.MeanVariance.Variance` | components/algorithm/include/openember/algorithm/statistics.hpp:103 | the sample variance of everything seen |
| `MeanVariances.VarianceBySquares` | components/algorithm/include/openember/algorithm/statistics.hpp:103 | the sample variance is the sum of squares less count times mean squared, over count less one |
| `MeanVariances.VarianceOfTwo` | components/algorithm/include/openember/algorithm/statistics.hpp:103 | of two samples half the square of their distance |
| `RateLimiter.TopicSink.SinkIt` | components/logging/src/logger.cpp:102-119 | one message against the window and the threshold |
| `RateLimiter.EachMessage` | components/logging/src/logger.cpp:102-119 | for every limit, the fate of each message of any run and the state after it: dropped without effect below the threshold; passed without a limit; otherwise passed iff a second is over since the window began or the window has lines left |
| `RateLimiter.UnlimitedPassesAll` | components/logging/src/logger.cpp:108 | with limit 0 or less a message of any run passes iff it reaches the threshold |
| `RateLimiter.NothingIsLost` | components/logging/src/logger.cpp:102-119 | a run loses no line that reaches the threshold when it is not limited or no more of them come than the limit still has |
| `RateLimiter.WindowIsLimited` | components/logging/src/logger.cpp:108-119 | no window lets more than the limit through |
| `RateLimiter.AtMostTwiceTheLimit` | components/logging/src/logger.cpp:108-119 | any messages within one second let at most twice the limit through, over every run |
| `RateLimiter.TwiceTheLimitCanPass` | components/logging/src/logger.cpp:108-119 | that bound is reached, within a nanosecond |
| `RateLimiter.LimitWithinSecondIsExact` | components/logging/src/logger.cpp:108-119 | exactly how many lines the second from t can let through, and that it keeps to the limit iff the state at its start has a window due or not older than t or none of it left |
| `LogTail.ToLower` | services/logger/main.cpp:61-65 | each character in lower case, and nothing else changed |
| `LogTail.Find` | services/logger/main.cpp:77-82 | the first place of the part in the text, or none |
| `LogTail.MatchLine` | services/logger/main.cpp:72-85 | true iff the level stands in brackets and the tag stands anywhere in the line, character by character in any case; empty filters match |
| `LogTail.CaseDoesNotMatter` | services/logger/main.cpp:60-85 | lines and filters that differ only in case match alike |
| `LogBehaviour.LettersBecomeLower` | services/logger/main.cpp:61-65 | the 26 upper-case letters become the lower-case ones, and every other character stays |
| `LogBehaviour.MatchesIsHolds` | services/logger/main.cpp:72-85 | a line matches iff it is made up of something, the bracketed level in any case, and something, and so for the tag |
| `LogBehaviour.InfoIsFound` | services/logger/main.cpp:72-78 | every line that holds [info] matches level INFO |
| `LogBehaviour.BracketsAreNeeded` | services/logger/main.cpp:74-78 | a line without brackets is of no level |
| `LogTail.ReadTail` | services/logger/main.cpp:110-116 | the deque ends with the last matching lines of the file |
| `LogTail.CollectLogs` | services/logger/main.cpp:105-125 | the tails of all files, trimmed to the limit |
| `LogTail.TailsSuffice` | services/logger/main.cpp:105-125 | bounded tails give the last lines of a full scan when the budget reaches the limit |
| `LogTail.TailBudgetIsExact` | services/logger/main.cpp:105 | the result is that of a full scan for all files iff the budget reaches the limit |
| `LogTail.BudgetCanFallShort` | services/logger/main.cpp:105 | a limit for which the budget is too small |
| `LogTail.RequestsSeeFullScan` | services/logger/main.cpp:105-165 | for every limit a request can ask for the result is that of a full scan |
| `LogBehaviour.MatchingInOrder` | services/logger/main.cpp:110-118 | the matching lines of a file, each once and in order |
| `LogBehaviour.ScanInOrder` | services/logger/main.cpp:106-119 | file after file, unreadable ones left out |
| `LogBehaviour.LimitOfRequest` | services/logger/main.cpp:161-165 | a request's limit is what it asks for from 1 to 4999, and 200 otherwise |
| `LogBehaviour.AnswerIsEndOfScan` | services/logger/main.cpp:105-165 | the answer to every request is the end of the full scan, all of it or as many items as its limit |
| `Endpoints.ParsePort` | components/network/socket_uri.cpp:53-62 | digits are accepted iff their value is at most 65535, leading zeros included: the early reject is exact |
| `Endpoints.ParseHostPort` | components/network/socket_uri.cpp:32-66 | the host and port found, or the endpoint left alone |
| `Endpoints.ParseEndpoint` | components/network/socket_uri.cpp:17-80 | the result and endpoint for every URI, failing ones included |
| `Endpoints.AcceptsExactly` | components/network/socket_uri.cpp:32-66 | a text is accepted with a host and port iff it denotes them, bracketed (section 3.2.2 of RFC 3986) or plain |
| `Endpoints.RoundTrip` | components/network/socket_uri.cpp:17-80 | printing a host and port, bracketed or plain, and parsing gives them back |
| `EndpointBehaviour.UnixPath` | components/network/socket_uri.cpp:25-30 | unix:// and a path give that path, and an empty path is invalid |
| `EndpointBehaviour.TcpText` | components/network/socket_uri.cpp:68-71 | tcp:// and a text give host and port iff the text denotes them, and otherwise an invalid argument with the scheme alone |
| `EndpointBehaviour.UdpText` | components/network/socket_uri.cpp:73-76 | udp:// likewise |
| `EndpointBehaviour.OtherText` | components/network/socket_uri.cpp:21-79 | a text is unsupported iff it is not empty and has none of the three prefixes |
| `EndpointBehaviour.ValueByPlace` | components/network/socket_uri.cpp:52-62 | the digits of a port count by their place |
| `EndpointBehaviour.LastPort` | components/network/socket_uri.cpp:58-60 | 65535 is the last port, whatever zeros stand in front |

## Left out

- `PoolCore.ThreadPool.constructor`: the worker threads it starts are the workers of the initial state in `PoolProtocol`.
- Thread pool: what a task does. Its callable is opaque and its exceptions are swallowed as in the source. A task that calls shutdown on its own pool, or wait_idle, which then never returns because the task itself is busy, is not modelled; `submit` and futures are wrappers around `post`.
- 64-bit wrap-around of the pool's sequence number and busy count, of the supervisor's restart count and of command timestamps.
- Supervisor: exec, arguments, environment, working directory, exit codes and unix timestamps inside events, and the text of replies. The event callback is taken as installed.
- Intrusive list: `container_of`, `list_entry` and the entry-typed loops, which add a constant offset to the same pointers; reading the links of a head that is being deleted.
- Joint controller: messages, sequence, error and timeout counters, `last_error`, temperatures and the waiting in `ReadState`.
- Modbus: connecting, listening, receive timeouts and the finer interleaving of client and server; a peer other than this register server, but for the client's receiving halves; the sampler thread writing during a poll.
- `FieldMaster.Master.Poll`: publishing, printing and reconnecting are not modelled.
- Filters: `ExponentialMovingAverage`, `LowPassFilter`, `OutlierRejector`, `Hysteresis`, `MinMax`, `RateCounter` and `FrequencyEstimator`, one-line updates; array-valued samples, which are the scalar case per component.
- Floating-point rounding, infinities and NaN everywhere.
- Log service: directory listing, the HTTP interface and JSON escaping; the sink's publisher and its reconnection.
- Zenoh transport, protobuf messages, user interfaces, OSAL wrappers and registries, whose code is plumbing or foreign.

# Verified model of agent-sim

agent-sim runs firmware models in lock-step from a set of daemons. This project models the parts
of it that carry state or arithmetic, and proves what they promise over every input and every run.
Each module follows one component; `Common` holds the shared result types and saturating
arithmetic, `Arithmetic` a few facts about division, `Traces` what the env trace and the instance
trace have in common.

**Shared snapshots** (`Slots`, `Seqlock`, `SeqlockProgress`, `SharedRegion`). One writer publishes
a slot list through a memory map that many readers copy. `Seqlock` is an interleaved machine with
one step per load or store of the generation, the flag and every word of every slot, and a history
of publishes; its theorems quantify over all interleavings. `SeqlockProgress` shows what the steps
achieve when nobody interferes: a publish finishes, and a read that it held up is tried again and
returns it. `SharedRegion` holds the methods as the runtime runs them, the file they open, and the
order in which an env attaches a channel. Hypotheses of the interleaved theorems: steps are
sequentially consistent, there is one writer, nobody re-initialises the region while readers are
attached (it would reset the generation), and fewer than 2^63 publishes happen during one read
attempt (the predicate `Paced`).

**Env lock-step and CAN schedules** (`WorkerLink`, `CanFrames`, `EnvModel`, `EnvLockstep`,
`EnvSchedule`, `EnvDaemon`). `WorkerLink` is the request and response link to one instance, with
an instance that may write anything at any time, except that it cannot name a request that has not
been sent yet (request ids are fresh). The env machine takes its rules for a link (first come
first served, dead after the first failure) from there (`WorkerLink.NothingOwedBefore`).
`EnvModel` is the env daemon as an event machine in which every failure is part of the event, so
one theorem covers every pattern of failing and retried ticks and resets. `EnvDaemon` is the
daemon as the runtime keeps it; each of its actions is proved to be one event of the machine.

**Instance time** (`TimeEngine`, `InstanceModel`, `InstanceDaemon`). Fractional time measured from
the wall-clock instants and speeds alone, the realtime backlog with its capped batches, the clock
and the instance trace, again as a machine with failures and a class whose methods are its events.

**DBC signals** (`Bits`, `Dbc`, `DbcValues`). Packing of 1 to 64 bits into 64 bytes in both bit
orders, two's complement, and physical values. Signal sizes are 1 to 64, which loading a DBC file
checks. `raw |= bit << idx` is written as an addition, which is the same because that bit is still
clear.

**Flash images** (`Hex`, `TextLines`, `Checksums`, `Flash`, `FlashTarget`, `IntelHex`, `Srec`). A
sparse byte memory, its canonical regions, the flash they are written into, and the two text
formats with a printer for each. Offsets do not wrap inside a 64K segment: the code adds them to
the base, unlike Intel's Hexadecimal Object File Format Specification, Rev. A, 1988, which wraps
them for segment addresses; the model follows the code.

**Recipes** (`Recipe`). The compiler from nested steps to a flat op list against a direct
interpreter of the nested steps.

**Signal selectors** (`SignalCatalog`, `EnvReads`). The catalog, its selectors, and the grouped
reads scattered back.

**Thermostat** (`Thermostat`) and **FFI drain** (`CanTx`).

Some promises hold only in part, and the model says exactly when.

- The env is never ahead of an instance, except that a local instance reset puts that instance
  behind exactly when the env clock has moved (`EnvLockstep.LocalResetBehindIff`), and a failed
  env reset does so, at once or later, exactly when the env clock has moved and the reset reached
  the instance (`EnvLockstep.FailedResetAheadIff`, `FailedResetOvertakesIff`, with runs in
  `FailedResetExample` and `FailedDiscardExample`).
- The clock of an instance counts its ticks exactly when every worker step that failed after
  `sim_tick` was followed by a reset (`InstanceModel.ClockCountsTicks`, `LostTickExample`).
- `signed_from_raw` overflows an `i64` exactly at size 63 with the sign bit set
  (`DbcValues.SignedIsTwosComplement`, `OverflowExample`).
- An encoded value is within half a factor exactly when its quotient lies in the range of an
  `i64`, give or take a half (`DbcValues.EncodedDecodes`).
- Exact lookup agrees with a scan exactly when every entry is named instance, colon, signal with
  no colon in the instance, or no exact selector reaches it (`SignalCatalog.LookupIsScanIff`,
  `HarmfulColonExample`, `HarmfulNameExample`). The env names its entries that way and name
  validation keeps colons out of instance names.

`dafny verify dfyconfig.toml` checks the whole project.

## Model

| member | source | states |
|---|---|---|
| `Slots.FromRawToRaw` | runtime/src/sim/types.rs:328-362 | A slot stored as raw words decodes to itself at its own index |
| `Slots.FromRawIff` | runtime/src/sim/types.rs:328-362 | Words are read as a slot exactly when they are the ones stored for it, under its own index, and which error anything else gives |
| `Slots.DecodeEncode` | runtime/src/sim/types.rs:328-362 | A whole dense slot list encodes to words that decode to exactly that list |
| `Slots.DecodeIff` | runtime/src/shared/mod.rs:177-195 | Decoding yields every slot read under its own index, and fails exactly with the first slot that is malformed or carries another id |
| `Seqlock.CheckPassesIff` | runtime/src/shared/mod.rs:169-199 | The second generation check of an attempt passes exactly when no publish began since the first one, the wrap of the generation included, for fewer than 2^63 publishes in between |
| `Seqlock.NextKeepsInv` | runtime/src/shared/mod.rs:135-205 | Every single load or store of the writer or of any reader keeps the protocol's invariant |
| `Seqlock.RunKeepsInv` | runtime/src/shared/mod.rs:135-205 | The invariant holds after every interleaving |
| `Seqlock.SnapshotIsOnePublish` | runtime/src/shared/mod.rs:167-205 | In every interleaving a returned snapshot is the slot list of one single publish, no older than the last one completed before the read began |
| `Seqlock.SnapshotsNeverGoBack` | runtime/src/shared/mod.rs:167-205 | Successive snapshots of one reader never show an older publish after a newer one |
| `Seqlock.OnlyOverlapDisturbs` | runtime/src/shared/mod.rs:167-205 | After a completed publish no read reports an unpublished region, and a read that no publish overlaps is neither busy nor invalid |
| `Seqlock.BusyAfterAllAttempts` | runtime/src/shared/mod.rs:168-204 | In every interleaving a read samples the generation 1 to 32 times, and reports busy only after the 32nd attempt was disturbed |
| `SeqlockProgress.QuietReadSucceeds` | runtime/src/shared/mod.rs:167-205 | A read that runs alone over a published region returns its last publish at the first attempt |
| `SeqlockProgress.SpinningReadSucceeds` | runtime/src/shared/mod.rs:168-173 | A read that finds the generation odd up to 31 times goes on trying, and when the writer has finished it returns that publish, at the attempt after |
| `SeqlockProgress.RejectedCopyIsRetried` | runtime/src/shared/mod.rs:196-203 | A copy the second check rejects before the 32nd attempt is made again, and when the writer has finished the read returns the last publish |
| `SeqlockProgress.SpinsRunOut` | runtime/src/shared/mod.rs:168-204 | The 32nd odd sample ends the read as busy |
| `SeqlockProgress.LastCopyGivesUp` | runtime/src/shared/mod.rs:196-204 | A copy of the 32nd attempt that the second check rejects ends the read as busy |
| `SharedRegions.SharedRegion.Publish` | runtime/src/shared/mod.rs:135-165 | Accepts exactly dense lists of the right length, else names the first wrong id; the generation two further, the flag and the words are stated outright, and a refused list changes nothing |
| `SharedRegions.SharedRegion.ReadSnapshot` | runtime/src/shared/mod.rs:167-205 | The retry loop with nobody writing: odd generation is busy, then the flag, then the first bad slot, then the slots |
| `SharedRegions.ReadMeans` | runtime/src/shared/mod.rs:167-205 | With nobody writing, a read returns exactly the dense slots the words were stored from; an odd generation is busy after 32 attempts, then comes the flag, then bad words |
| `SharedRegions.SharedRegion.constructor` | runtime/src/shared/mod.rs:107-121 | A fresh region has generation 0, no publish, and zeroed slots |
| `SharedRegions.PublishThenRead` | runtime/src/shared/mod.rs:135-205 | Reading after a publish returns the published list, also where the generation wraps to 0 |
| `SharedRegions.PublishAlone` | runtime/src/shared/mod.rs:151-160 | The writer's steps of the interleaved machine, run without interruption, do what the method promises |
| `SharedRegions.ChannelHost.Open` | runtime/src/shared/mod.rs:49-133 | Opening succeeds exactly when a writer can create or clear the region, or a reader finds one of its own size; only a writer changes the file |
| `SharedRegions.ChannelHost.SharedAttach` | runtime/src/daemon/server/action_router.rs:234-269 | When an attach succeeds and what it leaves, failing or not; a writer leaves the region primed with one publish, a reader never changes it |
| `SharedRegions.AllAttach` | runtime/src/envd/server/bootstrap.rs:348-362 | Members that agree on a size attach one and all once the writer goes first with its full first slots |
| `SharedRegions.WriterFirstIsStable` | runtime/src/envd/server/bootstrap.rs:348-352 | The attaching order keeps every member, puts the writer's first, and leaves any other two in the order they came in |
| `SharedRegions.ChannelHost.AttachSharedChannel` | runtime/src/envd/server/bootstrap.rs:337-363 | Attaching succeeds exactly when the writer is a member and every member attaches in turn; then the region is primed, because the writer goes first |
| `SharedRegions.NeverUninitialized` | runtime/src/envd/server/bootstrap.rs:348-362 | From then on no reader is told in any interleaving that the region was never published |
| `WorkerLink.Connection.SendRequest` | runtime/src/envd/server/instance_worker.rs:126-182 | Ok exactly for a successful reply with this request's id and a payload; one line is consumed at most |
| `WorkerLink.JudgeIff` | runtime/src/envd/server/instance_worker.rs:126-182 | Only a successful reply to this request's own id with a payload is an answer; every other reading has its own error, a stranger's id first |
| `WorkerLink.Connection.RunWorker` | runtime/src/envd/server/instance_worker.rs:83-124 | Queued requests are answered in order up to the first that fails by its own write or reading; that caller gets its error, all later ones a closed channel |
| `WorkerLink.ServedIsOne` | runtime/src/envd/server/instance_worker.rs:83-124 | So the outcomes are determined by what was written and read |
| `WorkerLink.NextKeepsInv` | runtime/src/envd/server/instance_worker.rs:67-182 | Accepting, taking, reading, timing out and any line the instance writes keep the link's invariant |
| `WorkerLink.AnswersAreOnesOwn` | runtime/src/envd/server/instance_worker.rs:147-182 | In every run an answer a caller receives is one the instance wrote for that caller's own request |
| `WorkerLink.AnsweredInOrder` | runtime/src/envd/server/instance_worker.rs:93-123 | Requests are answered strictly in the order they were accepted |
| `WorkerLink.QueueIsServed` | runtime/src/envd/server/instance_worker.rs:83-124 | With an instance that answers each request in turn, every queued caller gets the answer to its own request and the link lives on |
| `WorkerLink.HoldsSixtyFour` | runtime/src/envd/server/instance_worker.rs:67-82 | In every run at most 64 requests wait, and a living link takes another exactly below that |
| `WorkerLink.NothingOwedBefore` | runtime/src/envd/server/instance_worker.rs:93-123 | A request is answered or fails only when nothing before it is owed, and a failure leaves every later one unserved: the rules the env machine assumes of a link |
| `WorkerLink.FailureIsFinal` | runtime/src/envd/server/instance_worker.rs:111-123 | After the first failure nobody else is answered or accepted, and every caller is told |
| `WorkerLink.FailureReasons` | runtime/src/envd/server/instance_worker.rs:111-123 | Whatever ends the link, the caller being served is told that reason and everyone still queued that the channel is closed |
| `EnvDaemon.Daemon.constructor` | runtime/src/envd/server/bootstrap.rs:216-285 | A bootstrapped env: clock 0, no schedules, all workers alive and in step |
| `EnvDaemon.Daemon.SendBus` | runtime/src/envd/server/tick.rs:20-33 | Sends each due job of a bus once, re-arms exactly the sent ones, and stops at a refused send |
| `EnvDaemon.Daemon.SendDue` | runtime/src/envd/server/tick.rs:20-33 | All due jobs of all buses are sent unless one is refused |
| `EnvDaemon.Daemon.Broadcast` | runtime/src/envd/server/tick.rs:35-55 | Begins the request at every worker up to a dead one and succeeds exactly when all acknowledge |
| `EnvDaemon.Daemon.AdvanceSingleTick` | runtime/src/envd/server/tick.rs:16-62 | The whole tick, failing or not, is one event of the env machine; it succeeds, and moves the clock, exactly when no due send is refused, every worker lives and acknowledges, both observations succeed and a due row is sampled |
| `EnvDaemon.Daemon.Reset` | runtime/src/envd/server/dispatch.rs:28-73 | The env reset, failing or not, is one event of the machine; a successful one puts the clock and every job's due tick at 0 and changes nothing else of the schedules, a failed one neither |
| `EnvDaemon.Daemon.LocateSchedule` | runtime/src/envd/server.rs:367-386 | Finds the one bus that holds a job, or that none does |
| `EnvDaemon.Daemon.AddSchedule` | runtime/src/envd/server/dispatch.rs:166-200 | Accepted exactly when period and frame are valid and the id is free; then the job holds the request, enabled and due now, and every other job is untouched; a refused one changes nothing |
| `EnvDaemon.Daemon.UpdateSchedule` | runtime/src/envd/server/dispatch.rs:201-217 | Succeeds exactly when the job exists and its new period and frame are valid; then the job holds the requested period in ticks, id, flags, text and frame, is due now and enabled as before, and every other job is untouched; otherwise nothing changes |
| `EnvDaemon.Daemon.RemoveSchedule` | runtime/src/envd/server/dispatch.rs:218-227 | Afterwards no bus holds the job and every other job is untouched |
| `EnvDaemon.Daemon.EnableSchedule` | runtime/src/envd/server/dispatch.rs:228-239 | Stop and start change the enabled flag of that job and nothing else |
| `EnvLockstep.ClocksInStep` | runtime/src/envd/server/tick.rs:35-61 | Without local resets, while all workers live every instance clock is the env clock plus the uncommitted ticks, over every run of failing and retried ticks |
| `EnvLockstep.DeadWorkerFreezesClock` | runtime/src/envd/server/instance_worker.rs:111-123 | Once a worker has failed no later event moves the env clock |
| `EnvLockstep.EnvNeverAhead` | runtime/src/envd/server/tick.rs:16-62 | The env clock never exceeds any instance clock, dead workers included, unless a local reset or a failed env reset happens after the env clock has moved |
| `EnvLockstep.AllClocksEqual` | runtime/src/envd/server/tick.rs:16-62 | While no tick and no reset has failed all clocks are equal |
| `EnvLockstep.TicksAdvanceTogether` | runtime/src/envd/server/tick.rs:5-14 | A step of n successful ticks moves the env and every instance by exactly n |
| `EnvLockstep.BootstrapInStep` | runtime/src/envd/server/bootstrap.rs:216-285 | A bootstrapped env satisfies all three relations |
| `EnvLockstep.LocalResetBehindIff` | runtime/src/daemon/server/action_router.rs:52-57 | A local reset breaks the relation exactly when the env clock has moved |
| `EnvLockstep.FailedResetAheadIff` | runtime/src/envd/server/dispatch.rs:28-73 | An env reset that fails in either of its two rounds leaves the env ahead of an instance at once exactly when that instance executed its reset and the env clock had moved, or was behind before |
| `EnvLockstep.FailedResetOvertakesIff` | runtime/src/envd/server/dispatch.rs:28-73 | Over whole runs, some continuation without further resets puts the env ahead of an instance that was not behind exactly when the env clock had moved and the reset was executed, is owed or is in flight there |
| `EnvLockstep.FailedResetExample` | runtime/src/envd/server/dispatch.rs:28-47 | A concrete two-instance run in which the resets themselves fail |
| `EnvLockstep.FailedDiscardExample` | runtime/src/envd/server/dispatch.rs:48-71 | A concrete run in which all resets are acknowledged and the discarding fails: all instances at 0, the env not |
| `EnvSchedule.TableStaysSound` | runtime/src/envd/server/dispatch.rs:166-239 | In every reachable table a job sits under its own id on one bus only, repeats every tick or slower, and carries the frame its text parses to, valid for its bus |
| `EnvSchedule.BootstrapSound` | runtime/src/envd/server/bootstrap.rs:216-229 | The empty table is sound |
| `EnvSchedule.SendsAreSpaced` | runtime/src/envd/server/tick.rs:20-29 | Over every run, failing ticks included, two sends of one job with no update, removal or env reset between them are at least its period apart |
| `EnvSchedule.StoppedStaysSilent` | runtime/src/envd/server/dispatch.rs:228-233 | A stopped job is not sent until it is started or removed, whatever updates and resets come between |
| `EnvSchedule.DueAfterTick` | runtime/src/envd/server/tick.rs:20-33 | After a successful tick every enabled job is due later than that tick |
| `EnvSchedule.TickCommitsIff` | runtime/src/envd/server/tick.rs:16-62 | The env clock moves, by one, exactly when nothing stands in a tick's way; a failed tick leaves the trace alone and counts no refused send as sent |
| `EnvSchedule.SendsAreExact` | runtime/src/envd/server/tick.rs:20-33 | A job left alone is sent exactly at its due tick and every period after it; failed ticks neither lose nor repeat a send |
| `EnvSchedule.AddedJobSends` | runtime/src/envd/server/dispatch.rs:166-200 | A job accepted at tick a with period p is sent at a, a + p, a + 2p and so on |
| `EnvSchedule.UpdatedJobSends` | runtime/src/envd/server/dispatch.rs:201-217 | An enabled job updated at tick a to a period of p ticks, the requested time rounded up, is sent at a, a + p, a + 2p and so on, whatever it was before |
| `EnvSchedule.ResetJobSends` | runtime/src/envd/server/dispatch.rs:28-73 | After a successful env reset an enabled job is sent at 0, p, 2p and so on |
| `EnvSchedule.UpdatedJob` | runtime/src/envd/server.rs:424-438 | An accepted update stores the whole request in the job that is there, started or stopped as it was, and touches no other |
| `EnvSchedule.RowsAreExact` | runtime/src/envd/server/dispatch.rs:430-449 | An env trace left alone gains a row exactly at its due tick and every period after it, whatever ticks fail |
| `EnvSchedule.TraceRowCount` | runtime/src/envd/server/dispatch.rs:451-496 | A trace started at t0 has at tick t exactly the 1 + (t - t0) / p rows t0, t0 + p, ... |
| `EnvSchedule.TraceActions` | runtime/src/envd/server/dispatch.rs:451-520 | A trace is refused while one is active, without a period or unreadable, and stopping one ends it; nothing else changes |
| `Traces.PeriodAccuracy` | runtime/src/envd/server.rs:293-303 | A period is rounded up to whole ticks by less than one tick |
| `CanFrames.ParseDataHex` | runtime/src/can/mod.rs:40-66 | The payload is the pairwise reading of the text without spaces and underscores; odd, over-long and malformed text is refused in that order |
| `CanFrames.PrintedDataParses` | runtime/src/envd/server.rs:410-422 | The text printed for a payload parses back to it up to 64 bytes and is too long beyond |
| `CanFrames.HalfByteIsOdd` | runtime/src/can/mod.rs:45-49 | Half a byte more than whole ones is odd |
| `CanFrames.SeparatorsIgnored` | runtime/src/can/mod.rs:40-44 | White space and underscores may stand anywhere in the text |
| `CanFrames.DataDigits` | runtime/src/can/mod.rs:45-66 | The rest of the text is taken exactly when it is hex digits of either case, which say the same, but for a plus sign in a first digit's place |
| `CanFrames.ValidateFrame` | runtime/src/can/mod.rs:68-124 | The checks in the order of the code, with the error each gives |
| `CanFrames.ValidFrameIff` | runtime/src/can/mod.rs:68-124 | Flag by flag, a frame is valid exactly when its id fits 11 or 29 bits and its length is up to 8, or, with any FD flag, a length code's on an FD bus without a remote request |
| `CanFrames.ReservedRefused` | runtime/src/can/mod.rs:69-74 | The three highest flag bits are refused everywhere |
| `TimeEngines.TimeEngine.constructor` | runtime/src/sim/time.rs:33-43 | A new engine is paused at speed 1 with nothing counted |
| `TimeEngines.TimeEngine.Reset` | runtime/src/sim/time.rs:46-48 | Reset restores exactly the new engine |
| `TimeEngines.TimeEngine.Start` | runtime/src/sim/time.rs:60-67 | Starts a paused engine only, at the given instant |
| `TimeEngines.TimeEngine.Pause` | runtime/src/sim/time.rs:69-77 | Pauses a running engine only and drops the remainder |
| `TimeEngines.TimeEngine.SetSpeed` | runtime/src/sim/time.rs:79-85 | Only positive speeds are taken |
| `TimeEngines.TimeEngine.StepTicks` | runtime/src/sim/time.rs:95-115 | Refused while running; otherwise the most whole ticks that fit, with the time they take |
| `TimeEngines.TimeEngine.TickRealtimeDue` | runtime/src/sim/time.rs:117-140 | Ticks handed out and time kept by one poll |
| `TimeEngines.TimeEngine.AdvanceTicks` | runtime/src/sim/time.rs:160-162 | The tick counter saturates |
| `TimeEngines.PollRemainder` | runtime/src/sim/time.rs:126-139 | A poll leaves a non-negative remainder, below one tick exactly when the ticks found fit 64 bits |
| `TimeEngines.TimeIsConserved` | runtime/src/sim/time.rs:117-140 | Over any polls and speed changes, time that was there plus the scaled time of the events, each stretch between polls times the speed last set, is ticks handed out plus remainder |
| `TimeEngines.TicksAreTheFloor` | runtime/src/sim/time.rs:117-140 | Ticks handed out since a start are the floor of that scaled time over the tick, however polls divide it and speeds change |
| `TimeEngines.ConstantSpeedTicks` | runtime/src/sim/time.rs:117-140 | At one speed v, polls at instants t0 to tn that never go back hand out exactly the whole ticks in v * (tn - t0) |
| `TimeEngines.DoubleSpeedExample` | runtime/src/sim/time.rs:126 | Half a tick of wall-clock time at double speed is one tick |
| `InstanceModel.ClockCountsTicks` | runtime/src/daemon/server/action_router.rs:383-387 | In every run from launch the clock equals the completed sim_tick calls since the last reset exactly when every worker step that failed after its tick was followed by a reset; without worker steps it always does |
| `InstanceModel.LostTickExample` | runtime/src/daemon/server/action_router.rs:383-387 | One worker step whose outputs cannot be sent: one tick done, none on the clock |
| `InstanceModel.HappenKeepsBacklog` | runtime/src/daemon/server/tick_ops.rs:30-50 | Every action and turn keeps the books of the backlog, and a turn runs at most 64 ticks |
| `InstanceModel.BacklogIsConserved` | runtime/src/daemon/server/tick_ops.rs:30-50 | In every run ticks executed plus backlog are the whole ticks in the time since the backlog was last cleared |
| `InstanceModel.TurnsRunTheFloor` | runtime/src/daemon/server/tick_ops.rs:30-50 | Once time is started and until it is paused, stepped or reset, ticks executed plus ticks waiting are the whole ticks in the wall-clock stretches since, each times its speed |
| `InstanceModel.TurnRuns` | runtime/src/daemon/server/tick_ops.rs:30-50 | A turn whose ticks complete runs all the waiting ticks up to 64 and moves the clock by as many; one that fails shuts the instance down |
| `InstanceModel.StepRuns` | runtime/src/daemon/server/action_router.rs:138-152 | A granted step moves the clock by the whole ticks of its duration |
| `InstanceModel.AttachedStaysPaused` | runtime/src/daemon/server/action_router.rs:529-536 | An instance of an env stays paused with nothing in its backlog, in every run |
| `InstanceModel.RejectedStepLosesBacklog` | runtime/src/daemon/server/action_router.rs:138-146 | A step refused because time runs loses the ticks that waited: a turn right after it runs none, a turn without it would have run them |
| `InstanceModel.RowOnTimeIff` | runtime/src/daemon/server/action_router.rs:666-686 | A tick whose row is due keeps the trace on its grid exactly when the row could be taken |
| `InstanceModel.RowTaken` | runtime/src/daemon/server/action_router.rs:666-686 | A row taken late is that of its own tick, and the next is due a period after that |
| `InstanceModel.RowsAreExactInEveryRun` | runtime/src/daemon/server/action_router.rs:555-601 | An instance trace that nothing disturbed holds exactly the rows of its first tick and every period after it, in every run |
| `InstanceModel.DisturbedIff` | runtime/src/daemon/server/action_router.rs:666-686 | A trace is disturbed exactly by a reset or by a tick that misses its due row |
| `InstanceModel.StartedTraceRows` | runtime/src/daemon/server/action_router.rs:582-598 | A trace started at t0 with no reset, missed row or lost tick since has at tick t exactly the 1 + (t - t0) / p rows t0, t0 + p, ... |
| `InstanceModel.TraceActions` | runtime/src/daemon/server/action_router.rs:555-620 | Stopping a trace ends it, and starting one while another is active changes nothing |
| `InstanceDaemons.InstanceDaemon.constructor` | runtime/src/daemon/server.rs:73-99 | The daemon at launch |
| `InstanceDaemons.InstanceDaemon.AdvanceSingleTick` | runtime/src/daemon/server/action_router.rs:470-486 | One tick up to its first failure, classed as before or after sim_tick |
| `InstanceDaemons.InstanceDaemon.AdvanceTicks` | runtime/src/daemon/server/tick_ops.rs:90-101 | Ticks up to the first failure, counting one that failed only after sim_tick |
| `InstanceDaemons.InstanceDaemon.WorkerStep` | runtime/src/daemon/server/action_router.rs:383-387 | A worker step counts only a completed tick |
| `InstanceDaemons.InstanceDaemon.RunTurn` | runtime/src/daemon/server/tick_ops.rs:30-47 | The realtime part of a turn is one event of the instance machine |
| `InstanceDaemons.InstanceDaemon.Reset` | runtime/src/daemon/server/action_router.rs:52-57 | Resets time, clock, speed and backlog, or nothing |
| `InstanceDaemons.InstanceDaemon.StartTime` | runtime/src/daemon/server/action_router.rs:114-125 | Refused in an env or while running; otherwise runs from the given instant with nothing waiting |
| `InstanceDaemons.InstanceDaemon.PauseTime` | runtime/src/daemon/server/action_router.rs:126-137 | Refused in an env or while paused; otherwise pauses with no remainder and nothing waiting |
| `InstanceDaemons.InstanceDaemon.StepTime` | runtime/src/daemon/server/action_router.rs:138-152 | Clears the backlog, then steps the whole ticks of the duration, and succeeds exactly when time is paused and all of them complete |
| `InstanceDaemons.InstanceDaemon.SetSpeed` | runtime/src/daemon/server/action_router.rs:153-164 | Sets the speed, refused in an env or for a speed that is not positive |
| `InstanceDaemons.InstanceDaemon.BeginTrace` | runtime/src/daemon/server/action_router.rs:555-601 | Starts a trace with its first row at the current tick and the next a period later, unless one is active or the period is zero |
| `Dbc.MotorolaStep` | runtime/src/can/dbc.rs:285-291 | The Motorola walk advances the sawtooth index by exactly one, and the index is its own inverse |
| `Dbc.PositionsDistinct` | runtime/src/can/dbc.rs:240-260 | No two bits of a signal share a frame bit, in either byte order |
| `Dbc.FitsIff` | runtime/src/can/dbc.rs:262-275 | A signal lies inside the frame exactly when its last bit does |
| `Dbc.BitsLie` | runtime/src/can/dbc.rs:210-291 | Which bit of which byte holds the bit of weight 2^i, in each byte order |
| `Dbc.WholeBytes` | runtime/src/can/dbc.rs:210-291 | A signal of whole bytes holds them least significant first in little-endian order and most significant first in big-endian order |
| `Dbc.SetBit` | runtime/src/can/dbc.rs:271-283 | Sets one bit and leaves the 511 others, or refuses |
| `Dbc.GetBit` | runtime/src/can/dbc.rs:262-269 | Reads one bit, or refuses |
| `Dbc.InsertRaw` | runtime/src/can/dbc.rs:240-260 | Succeeds exactly when the signal fits, then holds the number's low bits; no bit outside the signal changes even on failure |
| `Dbc.ExtractRaw` | runtime/src/can/dbc.rs:210-238 | Succeeds exactly when the signal fits and returns the number its bits spell, in both byte orders |
| `Dbc.ReadBack` | runtime/src/can/dbc.rs:210-260 | Extracting after inserting gives the number modulo 2 to the signal's size |
| `Dbc.InsertedIsOne` | runtime/src/can/dbc.rs:240-260 | The frame after an insert is determined by the frame before and the number |
| `Dbc.DisjointUntouched` | runtime/src/can/dbc.rs:240-260 | Inserting a signal leaves the value of every disjoint signal |
| `Dbc.DisjointCommute` | runtime/src/can/dbc.rs:240-260 | Inserts of disjoint signals commute |
| `DbcValues.SignedIsTwosComplement` | runtime/src/can/dbc.rs:293-306 | With wrapping subtraction the result is the two's complement reading at every size; the subtraction overflows exactly at size 63 with the sign bit set |
| `DbcValues.OverflowExample` | runtime/src/can/dbc.rs:301-305 | The smallest input at which the subtraction overflows |
| `DbcValues.IntegersRoundTrip` | runtime/src/can/dbc.rs:144-183 | An integer encodes exactly when its range allows, fills no more than the signal's bits, and decodes to itself |
| `DbcValues.RawsRoundTrip` | runtime/src/can/dbc.rs:144-183 | Every number of the signal's bits is the encoding of the in-range integer it decodes to, so the range leaves nothing out |
| `DbcValues.RoundsToNearest` | runtime/src/can/dbc.rs:143 | Rounding and saturating is off by at most a half exactly within the range of a 64-bit integer, give or take a half |
| `DbcValues.RoundsLike` | runtime/src/can/dbc.rs:143 | Rounding goes to the nearest integer, halves away from zero, and saturates at both ends of a 64-bit integer |
| `DbcValues.EncodesIff` | runtime/src/can/dbc.rs:117-183 | When a value can be encoded, and otherwise which reason comes first: outside the given range unless it is 0 to 0, a zero factor, or too large a quotient |
| `DbcValues.EncodedDecodes` | runtime/src/can/dbc.rs:108-200 | A frame with an encoded value decodes to the rounded quotient, within half a factor of the value exactly when the quotient fits a 64-bit integer |
| `DbcValues.FlagsFollow` | runtime/src/can/dbc.rs:189-198 | After encoding the FD flag says whether the frame is longer than 8 bytes and the extended flag follows the signal; other flags stay |
| `DbcValues.CanFrame.EncodeSignal` | runtime/src/can/dbc.rs:117-200 | When encoding succeeds, which bits, length and flags it leaves, and what a failure leaves alone |
| `DbcValues.CanFrame.DecodeSignal` | runtime/src/can/dbc.rs:108-115 | Decoding gives the scaled integer, or refuses a signal that does not fit |
| `Flash.CanonicalIsUnique` | runtime/src/load/mod.rs:378-414 | An image has at most one list of non-empty, ascending regions with gaps: equal images give equal lists |
| `Flash.MergedIsOne` | runtime/src/load/mod.rs:316-324 | Two merges give equal lists exactly when what they write is equal |
| `Flash.MergeIsIdempotent` | runtime/src/load/mod.rs:316-324 | Merging a merged list gives it back |
| `Flash.MergeOfMerges` | runtime/src/load/resolve.rs:121-166 | Merging pieces that were already merged gives exactly what merging all originals at once gives |
| `Flash.FlashMemory.Write` | runtime/src/load/mod.rs:370-376 | Lays the bytes over the image, last write wins, or refuses and changes nothing |
| `Flash.FlashMemory.IntoRegions` | runtime/src/load/mod.rs:378-414 | The coalescing loop yields the canonical list of exactly the image |
| `Flash.MergeRegions` | runtime/src/load/mod.rs:316-324 | Succeeds exactly when every piece is in range, fails with the first that is not, and yields the canonical list |
| `Flash.CutAllPaints` | runtime/src/load/mod.rs:370-376 | Cutting regions into small pieces changes nothing about what they write |
| `Flash.LastWriteWins` | runtime/src/load/mod.rs:370-376 | The byte at an address is that of the last region that writes it |
| `FlashTarget.NonVolatileState.FlashWrite` | template/src/adapter.zig:123-130 | Copies the bytes in, or refuses what does not lie in the 256 bytes from 0x08000000 on |
| `FlashTarget.OverlaidBytes` | template/src/adapter.zig:123-130 | Byte by byte, what the flash holds after a write |
| `FlashTarget.NonVolatileState.constructor` | template/src/adapter.zig:17-19 | Erased flash reads 0xFF |
| `FlashTarget.NonVolatileState.Load` | runtime/src/sim/project.rs:245-269 | Loads all regions exactly when the flash accepts each one, and then holds what they write |
| `FlashTarget.MergedLoadsAlike` | template/src/adapter.zig:123-130 | Flashing the merged regions is accepted exactly when flashing the originals in order is, and leaves the same flash |
| `IntelHex.ParseIntelHex` | runtime/src/load/mod.rs:97-192 | The reader's loop yields the canonical regions of the meaning of the lines, or the same error |
| `IntelHex.BytesRoundTrip` | runtime/src/load/mod.rs:120-188 | Every record's encoded bytes are read as that record |
| `IntelHex.RecordRoundTrip` | runtime/src/load/mod.rs:101-135 | A printed record line is read as that record and survives trimming and line splitting |
| `IntelHex.ReadLine` | runtime/src/load/mod.rs:107-187 | One line is checked in the order of the code and yields its record or a refusal |
| `IntelHex.ReadIff` | runtime/src/load/mod.rs:107-187 | A line is read as a record exactly when it is a colon and the digits of bytes with the right count, a zero sum, and that type and those fields |
| `IntelHex.DataBytesAreOne` | runtime/src/load/mod.rs:120-158 | Only the printer's own bytes are read as a data record |
| `IntelHex.PrintedTextPaints` | runtime/src/load/mod.rs:97-192 | The text printed for any records, of every type, writes the data up to the first end record, each piece at its address plus 16 times the paragraph or 65536 times the upper half of the last base record before it, and fails exactly with the first piece out of range |
| `IntelHex.LooseTextPaints` | runtime/src/load/mod.rs:101-135 | Any file that holds the records one a line, with indentation, carriage returns, blank lines and digits of either case, is read as those records |
| `IntelHex.StartAddressesIgnored` | runtime/src/load/mod.rs:181 | Start address records change nothing, wherever they stand |
| `IntelHex.ImageRoundTrip` | runtime/src/load/mod.rs:97-192 | However an image is cut into pieces of up to 255 bytes, and whichever base address records are used, its printed form is read back as the merge of the pieces |
| `IntelHex.RegionsRoundTrip` | runtime/src/load/mod.rs:97-192 | Every image within reach of segment or of linear base records, printed with any record size, is read back as itself |
| `IntelHex.BaseNeverOverflows` | runtime/src/load/mod.rs:151-157 | Wherever the reader gets, adding a record's offset to the base address cannot overflow |
| `IntelHex.CorruptionIsFound` | runtime/src/load/mod.rs:125-145 | Changing one encoded byte of an accepted record the reader gets to fails the whole parse at that line |
| `Srec.ParseSrec` | runtime/src/load/mod.rs:194-279 | The reader's loop yields the canonical regions of the meaning of the lines, or the same error |
| `Srec.ReadNumber` | runtime/src/load/mod.rs:270-272 | The address is the big-endian number of its bytes, without overflow |
| `Srec.LineRoundTrip` | runtime/src/load/mod.rs:229-275 | Every printable record is accepted and means the bytes it was printed from, at each address length |
| `Srec.PrintedTextPaints` | runtime/src/load/mod.rs:194-279 | Reading the text printed for any records writes exactly the data they carry, and fails exactly with the first piece that is out of range |
| `Srec.LooseTextPaints` | runtime/src/load/mod.rs:194-279 | Any file that holds the records one a line, with indentation, carriage returns, blank lines and digits of either case, is read as those records |
| `Srec.AcceptedIff` | runtime/src/load/mod.rs:229-267 | A record is accepted exactly when it is the printed form of some type, address and data |
| `Srec.ReadLine` | runtime/src/load/mod.rs:203-267 | One line is accepted exactly when type, count, checksum and length are right |
| `Srec.ReadPayload` | runtime/src/load/mod.rs:269-274 | The address and data of an accepted data record |
| `Srec.KnownTypes` | runtime/src/load/mod.rs:251-261 | The address length of every type is the one in the manual |
| `Srec.RegionsRoundTrip` | runtime/src/load/mod.rs:194-279 | Every image within reach of S1, S2 or S3 records, printed with any header and record size, is read back as itself |
| `Srec.CorruptionIsFound` | runtime/src/load/mod.rs:229-249 | Changing one encoded byte of an accepted record the reader gets to fails the whole parse at that line |
| `Checksums.OneByteShows` | runtime/src/load/mod.rs:137-140 | No single byte can change without changing the wrapping sum |
| `Hex.PrintedReads` | runtime/src/load/mod.rs:428-442 | Printed bytes are read back as themselves |
| `Hex.CaseIgnored` | runtime/src/load/mod.rs:428-442 | Text that differs only in the case of its letters is read as the same bytes |
| `Hex.HexBytesIff` | runtime/src/load/mod.rs:428-442 | Text of even length is bytes exactly when it is hex digits, but for a plus sign in a first digit's place |
| `TextLines.TrimsLayout` | runtime/src/load/mod.rs:103 | Trimming drops exactly the white space around a line |
| `TextLines.LinesOfJoined` | runtime/src/load/mod.rs:101 | Text is split into the lines it was joined from |
| `TextLines.LinesOfUnfinished` | runtime/src/load/mod.rs:101 | The last line of a text need not end in a newline |
| `Recipe.RoundRunsIff` | runtime/src/cli/recipe.rs:246-265 | Round k of a loop runs exactly when its bound is not behind and the number it writes, from plus k strides, passes the bound by at most a billionth of a stride; a loop is refused for its length exactly when it should make round 2^64 |
| `Recipe.CompilesIff` | runtime/src/cli/recipe.rs:157-280 | Steps compile exactly when every value renders, every assertion is well formed and every loop that runs has a stride and few enough rounds |
| `Recipe.RoundsLength` | runtime/src/cli/recipe.rs:265-278 | A loop compiles to two ops more than its body per round |
| `Recipe.LoopWrites` | runtime/src/cli/recipe.rs:265-278 | Round k of a compiled loop announces and writes exactly from plus k strides, the first one from itself, and then does the body |
| `Recipe.CountingExample` | runtime/src/cli/recipe.rs:265-278 | A loop from 0 to 2 by 1 writes 0 first and 2 last |
| `Recipe.StepOps` | runtime/src/cli/recipe.rs:157-239 | Any other step compiles to one op that carries it out for the nearest instance; a set writes each configured text under its own signal |
| `Recipe.CompiledMeansNested` | runtime/src/cli/recipe.rs:157-280 | Executing the compiled ops has the same requests in the same order, results and point of failure as interpreting the nested steps, each going to the nearest explicit instance |
| `Recipe.OneResultPerOp` | runtime/src/cli/recipe.rs:282-441 | A dry run sends nothing; a run reports every op exactly when it does not fail |
| `Recipe.RunSends` | runtime/src/cli/recipe.rs:293-440 | A run sends the requests of its ops in order, time requests of an attached instance to its env, up to and including the first that is refused, and fails exactly when one is |
| `Recipe.RunReports` | runtime/src/cli/recipe.rs:293-440 | Every op done is reported in order under its own action and target |
| `Recipe.RunReplies` | runtime/src/cli/recipe.rs:293-440 | The report of every request made carries the reply to that request |
| `Recipe.ExecuteRecipeOps` | runtime/src/cli/recipe.rs:293-440 | The executor's loop, which gives up at the first failure |
| `Recipe.CompileRecipeSteps` | runtime/src/cli/recipe.rs:157-239 | The compiler appends exactly the ops of its specification to the buffer, or reports the same error |
| `Recipe.CompileForStep` | runtime/src/cli/recipe.rs:241-280 | The loop's rounds are appended in order, or the first error is reported |
| `Recipe.FindIterations` | runtime/src/cli/recipe.rs:246-263 | How many rounds a loop has, and when its bounds are refused |
| `SignalCatalog.Sort` | runtime/src/signal_selectors.rs:26-27 | A sorted permutation by qualified name |
| `SignalCatalog.OrderIsOne` | runtime/src/signal_selectors.rs:26-27 | Distinct names have one order, so the catalog does not depend on how entries were listed |
| `SignalCatalog.OrderAfterPrefix` | runtime/src/signal_selectors.rs:26-27 | Names are ordered by their first differing character, a name before its continuations |
| `SignalCatalog.Catalog.Build` | runtime/src/signal_selectors.rs:25-57 | Succeeds exactly when all names are acceptable and distinct; the index then finds every entry where it stands |
| `SignalCatalog.AcceptableIff` | runtime/src/signal_selectors.rs:31-44 | An entry is acceptable exactly when its signal name has no colon and its qualified name is its instance, a colon, and something |
| `SignalCatalog.Catalog.ResolveSelectorIndices` | runtime/src/signal_selectors.rs:63-123 | The indexed lookup and the scan agree with the linear meaning of the selector, errors included |
| `SignalCatalog.WholeSelector` | runtime/src/signal_selectors.rs:64-72 | A star stands for all entries in order, other text without a colon for an error |
| `SignalCatalog.PlainSelector` | runtime/src/signal_selectors.rs:73-90 | Two plain parts name the one entry with that qualified name, or are not found; empty parts and local ids are refused first |
| `SignalCatalog.PatternSelector` | runtime/src/signal_selectors.rs:92-122 | With a pattern in either part a selector stands for exactly the entries both parts name, ascending; a bad pattern and no match are errors |
| `SignalCatalog.GatheredMeans` | runtime/src/signal_selectors.rs:125-139 | Several selectors stand for what each stands for, and fail with the first that fails |
| `SignalCatalog.Catalog.ResolveSelectors` | runtime/src/signal_selectors.rs:125-139 | The seen-set loop yields every match once, at its first occurrence |
| `SignalCatalog.FirstsInOrder` | runtime/src/signal_selectors.rs:129-138 | That list has the same elements, no duplicates, and the order of first occurrences |
| `SignalCatalog.ExactIsScan` | runtime/src/signal_selectors.rs:84-90 | For entries named instance, colon, signal, naming one signal exactly finds what a linear scan of instances and signals finds |
| `SignalCatalog.LookupIsScanIff` | runtime/src/signal_selectors.rs:84-118 | For any distinct entries, exact lookup and scan agree on all exact selectors exactly when each entry is named that way, with no colon in the instance, or is out of reach of exact selectors |
| `SignalCatalog.ScanFindsAll` | runtime/src/signal_selectors.rs:109-118 | A scan returns exactly the matching entries |
| `SignalCatalog.ScanAscends` | runtime/src/signal_selectors.rs:109-118 | The indices of a scan ascend, so none is repeated |
| `SignalCatalog.ColonInInstance` | runtime/src/signal_selectors.rs:84-90 | Whenever the signal part of a qualified name holds a colon, the selector that spells the name finds the entry and no scan for its parts does |
| `SignalCatalog.HarmfulColonExample` | runtime/src/signal_selectors.rs:31-44 | The catalog takes an entry with a colon in its instance on which lookup and scan differ |
| `SignalCatalog.HarmfulNameExample` | runtime/src/signal_selectors.rs:31-44 | It also takes one without, whose qualified name does not end in its signal name |
| `EnvReads.GroupByInstance` | runtime/src/envd/server/dispatch.rs:353-360 | One group per instance, in the order of the resolved signals |
| `EnvReads.Scatter` | runtime/src/envd/server/dispatch.rs:387-398 | One instance's answers go to the positions of its signals and nowhere else |
| `EnvReads.ValidateAnswers` | runtime/src/envd/server/dispatch.rs:407-428 | Accepts exactly answers that match the requested ids in number and order |
| `EnvReads.ServesIff` | runtime/src/envd/server/dispatch.rs:362-398 | An instance serves its group exactly when it is connected, answers, and gives one answer per item under that item's id |
| `EnvReads.ReadEnvSignalValues` | runtime/src/envd/server/dispatch.rs:348-405 | Succeeds exactly when every instance concerned serves its group; position i then holds the reading of resolved signal i, and no position is ever left empty |
| `EnvReads.EnvGet` | runtime/src/envd/server/dispatch.rs:298-302 | The whole get succeeds exactly when the selectors resolve and every instance concerned serves its group; position i then holds the reading of the i-th signal in order of first occurrence |
| `EnvReads.HonestGet` | runtime/src/envd/server/dispatch.rs:348-405 | With instances that answer per id, get gives each selected signal its own value |
| `EnvReads.HonestReading` | runtime/src/envd/server/dispatch.rs:348-405 | With instances that answer per id, the grouped read is each signal's own value |
| `Thermostat.Ctx.DoTick` | examples/hvac/src/adapter.zig:92-168 | One tick in place, in all its branches |
| `Thermostat.Ctx.WriteSignal` | examples/hvac/src/adapter.zig:202-229 | Which writes are taken, with which status, and that each id sets its own field and no other |
| `Thermostat.Ctx.ResetAll` | examples/hvac/src/adapter.zig:83-90 | Init and reset restore every default |
| `Thermostat.DriftApproaches` | examples/hvac/src/adapter.zig:233-242 | Drifting never passes the ambient temperature nor moves away from it, and goes by 0.005 while further away than that |
| `Thermostat.AlwaysConsistent` | examples/hvac/src/adapter.zig:92-168 | In every run heater, compressor, fan and error code follow from the phase |
| `Thermostat.FaultIsHeld` | examples/hvac/src/adapter.zig:110-119 | A fault is held through every powered run |
| `Thermostat.RestartIsLate` | examples/hvac/src/adapter.zig:107-154 | Within a powered run the compressor restarts no sooner than 300 ticks after it stopped, a fault stop included |
| `Thermostat.RestartIff` | examples/hvac/src/adapter.zig:107-154 | After a stop and a powered rest, a unit at rest that is too warm starts cooling again exactly from the 300th tick on |
| `Thermostat.DrainIsExact` | examples/hvac/src/adapter.zig:141-161 | The fan runs on for exactly 100 ticks, unless a fault, a power-off or a reset comes between |
| `Thermostat.TemperatureMoves` | examples/hvac/src/adapter.zig:165-167 | By how much one tick can move the temperature in each phase |
| `Thermostat.ActsIff` | examples/hvac/src/adapter.zig:122-162 | Exactly when a powered tick runs the heater and the compressor |
| `Thermostat.FaultsIff` | examples/hvac/src/adapter.zig:110-119 | A powered tick ends in a fault exactly when there was one or the temperature has reached 60 or -40, with its own code for each |
| `Thermostat.UptimeCounts` | examples/hvac/src/adapter.zig:106 | The uptime counts the ticks of a powered run and saturates |
| `Thermostat.UnpoweredTick` | examples/hvac/src/adapter.zig:93-104 | Without power everything is off and every fault and timer forgotten |
| `CanTx.CapacityGrows` | runtime/src/sim/project_loader.rs:6-13 | The capacity strictly grows and never passes the cap |
| `CanTx.CanTx` | runtime/src/sim/project.rs:404-445 | For any library whatsoever the drain makes at least one and at most twelve calls, and returns what its specification says |
| `CanTx.FirstCallDecides` | runtime/src/sim/project.rs:404-445 | For any library, the first call that does not ask for another decides: its frames complete those collected, or its status or impossible count fails the drain; a twelfth that asks for another fails it too |
| `CanTx.QueueReturnedIff` | runtime/src/sim/project.rs:404-445 | A conforming library's queue is returned whole and in order exactly when it holds at most 131040 frames, otherwise the drain fails |

## Left out

- Sockets, pipes, JSON, process spawning, pid files and the CLI's output: channels are queues and every failure is a possible outcome of an event.
- Memory maps and memory ordering below the step level, and `flush_async`: its failure would only turn a completed publish into a reported error.
- Re-initialising a shared region while readers are attached: the generation restarts at 0 and the guarantee is lost, so it is excluded by hypothesis.
- `f64` and `f32` rounding, infinities and the printing of numbers: values are reals, so what a loop bound, a scale factor or a temperature loses to rounding is not modelled. Durations arrive as whole microseconds, so `parse_duration_us` is not modelled, nor is `realtime_poll_delay`.
- The order in which buses, jobs and instances are visited where it is that of a sorted map: sends and reads are proved for any order.
- Latest-frame recording and the frames observed on a bus, which no property here depends on; `CanSend` and `CanInspect`.
- The env's own turn loop: its backlog arithmetic is that of the instance's turn, with the same bound of 64 ticks; its `advance_due_ticks` is a run of tick events (`EnvLockstep.TicksAdvanceTogether`).
- A worker answer of an unexpected payload type to `Step` or `Reset`: counted as a failed reply, which a conforming instance never sends.
- Trace files: flushing, clearing and the text of a row; a row is its tick.
- DBC start bits near 2^63, where the 64-bit index itself overflows; DBC file parsing and signal lookup; frame keys.
- Non-ASCII text in frames' hex, HEX and S-record files and names.
- `FlashFormat` names, inline value encodings and address parsing: small case tables.
- Glob matching: two uninterpreted functions say which patterns compile and what they match.
- Instance-local selectors (`select_instance_signal_ids`): a set of ids with no order to prove.
- Recipe preconditions on running instances and the comparison inside an assertion: an assertion's outcome is the world's answer.
- Units and types of signals, which are carried through unchanged; type checks of worker values.
- `StartupLock`: removing a stale lock is a check followed by a delete on the file system, so mutual exclusion does not hold unconditionally.
- Env bootstrap and its rollback beyond shared channels: the code gives no all-or-nothing guarantee.
- SocketCAN and PEAK calls, and the length and flag tables of their frames.
- The metadata loaders of a project (`load_can_buses` and its siblings): the same growing buffer as the drain, restarted instead of accumulated.
- The signal catalog of the thermostat example: a table of fields.

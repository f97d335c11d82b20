# ATS-Pi control core: a Dafny model

A Dafny 4.11 model of the control core of the ATS-Pi transfer-switch companion, with proofs about it.
`dafny verify dfyconfig.toml` checks everything.

The service exposes a transfer switch over Modbus TCP. It samples contacts at 10 Hz into a register
store, turns writes to four command registers into relay commands, drops the maintained commands when
the commanding connection falls silent or disconnects, and keeps a transfer count across power losses.

## How the model is built

Each stateful class of the program is a Dafny class whose methods are proved against functions on its
value: `RegisterStore`, `SafetyWatchdog`, `ConnectionTracker`, `Debouncer`, `AdamInputs`,
`OutputLedger`, `SamplingLoop`, and the loops of the Modbus data block in `ModbusServer`. `Persistence.Save`
is the ordered sequence of file-system calls, each of which may fail.

`ControlSystem` composes those values into one step system, because the interesting behaviour lies in
how the asyncio tasks interleave. Its events are: a request, a disconnect, the start of a queued
command task, the answer to the oldest coil write, a watchdog wake-up, a pulse-release task firing, the
stages of a sampling cycle, a re-check of the hardware fail-safe, and the passing of time. A run is any
sequence of events; an event that is not enabled changes nothing. A coil write is answered by landing,
by failing, or by acting although it is reported failed.

| file | content |
|---|---|
| Domain.dfy, Registers.dfy | vocabulary, fault word, register store |
| StoreHistory.dfy, RollingWindow.dfy, Restarts.dfy | counters, read-backs, fault word and 24 h window over histories; what a restart brings back |
| ModbusServer.dfy | write validation, command translation, register image |
| CommsLoss.dfy | watchdog and connection tracker |
| Debounce.dfy, AdamInputs.dfy, AscoSerial.dfy | the two input paths |
| AdamOutputs.dfy | commanded-versus-actual ledger |
| SamplingLoop.dfy, SamplingSteps.dfy | the sampling loop cycle by cycle, and inside the running system |
| ControlSystem.dfy, SystemShape.dfy | the step system and its structural invariant |
| ReleaseSafety.dfy, ReleaseExact.dfy, StrandedRelay.dfy | the release guarantee, exactly when it holds, and what follows when it does not |
| ReleaseTiming.dfy, CommanderExposure.dfy | when a release is made; what the bound means for the commander |
| PulseRelease.dfy, PulseTiming.dfy | who switches a pulse off, and how long it can stay on |
| Isolation.dfy, Startup.dfy, EndToEnd.dfy | non-interference, start-up, whole-system refinement |
| Persistence.dfy, Durability.dfy | crash atomicity of the save; the count across crashes, over the same file system |

Conventions: monotonic time is in integer milliseconds, wall time in integer seconds. The fault word is
the set of its set bits, so `|`, `&` and `& ~` are union, intersection and difference. Only requests with
function codes 3, 4, 6 and 16, and the refused 5, 15 and 23, are modelled.

## Main results

- **Released means off, exactly.** "`_released` implies Inhibit and Force Transfer off with nothing
  outstanding to turn them on" is not ensured by the code, in two ways. A request that lands while a
  release is in flight: the latch after the await at src/atspi/safety.py:111-122 overwrites its re-arm
  (`ReleaseSafety.RaceStrandsRelay`). And an assertion still waiting in its dispatch task when the release
  is issued, with no request in that window at all: it is written behind the release, and the latch
  follows (`QueuedAssertionStrandsRelay`). Either way Inhibit stays on and nothing but another request can
  ever turn it off (`StrandedUntilRequest`). Runs with neither keep the guarantee (`ReleasedMeansOff`).
  Weaker, and whatever fails: it is enough that no release that latches has met an assertion, that is an
  Inhibit assertion queued when it was issued or dispatched since, or a Force Transfer assertion queued
  when its second write was issued or dispatched since (`ReleaseExact.UnassertedMeansOff`). If while a
  release is in flight the fail-safe stays verified, written Inhibit assertions act and no Inhibit
  de-assertion is under way, that condition is exact (`ReleasedMeansOffExactly`). A stranded relay is not
  reported either: its record says ON, so no honest sample ever counts it as a mismatch
  (`StrandedRelay.StrandedIsNeverReported`).
- **Bounded exposure.** In quiet runs with wake-up lateness and write time bounded, an energised
  maintained relay means the watchdog was *re-armed* within 31 s plus one period per release attempt.
  That is the commander's own silence if and only if someone is in command, or the commander dropped and
  nothing was heard since, or what was heard last came from it (`CommanderExposure.RearmIsCommandersExactly`).
  Without that there is no bound: after a drop any other connection that polls re-arms the watchdog, and
  Inhibit stays on for as long as it does (`PollingDefeatsRelease`), against the purpose stated at
  src/atspi/server.py:200-213. After a drop with no request an attempt follows within 1 s plus lateness.
- **Start-up.** From any relay state, nothing is commanded and nothing but the input-fault bit and the
  rejection latch changes in the store until all four relays have been released.
- **Pulses.** Every energised Test or Bypass relay is attended by a live release task that ends only when
  its OFF write lands, exactly until an ON write acts though reported failed on a relay without a task.
  With no such hypothesis it is attended, or every honest sample from half a second after its last record
  raises the output fault. A window lasts exactly the clamped duration in every run, and in timely runs a
  pulse relay is on for at most 1.5 s, one lateness and one write, plus one retry period per failed OFF.
  A command for a relay whose pulse landed writes nothing exactly while the task it spawned is live.
- **Sampling.** In any interleaving a run publishes exactly the samples that end a cycle it began, whole, and
  every cycle, successful or not, leaves the loop ready for the next. Counts and timestamps survive restarts.
- **Non-interference.** While one connection is in command, deleting all other connections' traffic
  except command writes leaves the whole state unchanged.
- **Durability.** A power loss at any instant of a save leaves the old or the new state. The lifetime
  count never goes back under every continuation of a critical save if and only if that save replaced the
  file and synced its directory, and no executor save was in flight. The code ensures neither: a save
  returns normally when the directory cannot be opened or synced (`UnsyncedDirectoryLosesCount`), and an
  older executor save may finish last (`StaleOverwrite`). A third way: a process that crashes between the
  replace and the directory sync serves the new count after its restart, and a power loss takes it back
  (`KillIsExact`).
- **Rolling window.** Under any clock, across samples and restarts, the deque and the 24 h count are exact in
  every state if and only if every event meets a condition on the counted transfers and the clocks alone
  (`RollingWindow.WindowHoldsExactly`). A clock set back and corrected keeps an expired transfer
  (`BackwardClockKeepsExpired`), one set forward and corrected forgets a live one (`ForwardJumpForgets`).
- **Whole-system refinement.** The running system's store is a run of store operations, so the history
  theorems hold of it.

Where the code and its own documentation differ the model follows the code. The module text of
src/atspi/safety.py:9-11 says every successful read re-arms the watchdog; the code re-arms only as the
connection tracker decides. Leaving the generator and coming back counts as a transfer unless `unknown` is
the last position seen before the return (`StoreHistory.DetourCountsExactly`), so a Load Disconnect pulse
counts although the position contacts never move (`AdamInputs.PulsesCountAsTransfers`).

## Model

| member | source | states |
|---|---|---|
| Registers.RegisterStore.constructor | src/atspi/state.py:156-193 | a new store loads the persisted fields, keeps only timestamps inside 24 h, and starts with mode and position unknown |
| Registers.RegisterStore.ApplyInputSnapshot | src/atspi/state.py:197-299 | applying a sample gives the specified next store and names the save it needs |
| Registers.RegisterStore.EvictOldTransfers | src/atspi/state.py:540-543 | pops expired entries off the front only |
| Registers.RegisterStore.ApplyOutputState | src/atspi/state.py:301-312 | replaces the four read-backs and nothing else |
| Registers.RegisterStore.PublishInputFault | src/atspi/state.py:314-318 | sets or clears fault bit 0 only |
| Registers.RegisterStore.PublishOutputFault | src/atspi/state.py:320-324 | sets or clears fault bit 1 only |
| Registers.RegisterStore.ReleaseMaintainedCommands | src/atspi/state.py:326-338 | clears the two maintained read-backs only |
| Registers.RegisterStore.CanWrite | src/atspi/state.py:443-469 | answers the mode policy; latches exactly on a mode refusal |
| Registers.RegisterStore.WriteRegister | src/atspi/state.py:471-536 | intent and latch for one register write |
| StoreHistory.LifetimeCountsTransfers | src/atspi/state.py:204-256 | over any run of operations the lifetime count grows by the number of adjacent transfer pairs among applied samples |
| StoreHistory.ContactsMirrorLastSample | src/atspi/state.py:270-289 | contacts, position and mode are those of the last applied sample |
| StoreHistory.ReadBacksFollowHistory | src/atspi/state.py:301-338 | the read-backs are those of the last output read, less the maintained ones if a release came after it |
| StoreHistory.TimestampsFollowHistory | src/atspi/state.py:248-256 | the timestamps are those of the last transfer and the last retransfer, else as loaded |
| StoreHistory.RepeatsNeverCount | src/atspi/state.py:210-237 | repeating a sample never counts |
| StoreHistory.UnknownDetourNeverCounts | src/atspi/state.py:217-224 | generator, any number of unknowns, generator adds nothing, wherever it occurs |
| StoreHistory.DetourCountsExactly | src/atspi/state.py:210-237 | leaving the generator and returning adds one transfer, in any context, iff the last position before the return is not unknown |
| StoreHistory.RejectLatchHistory | src/atspi/state.py:456-468 | the latch is set iff a command was refused for its mode with none accepted since |
| StoreHistory.FaultWordHistory | src/atspi/state.py:265-289 | every bit of the wire word from the history; undefined bits are 0 |
| Restarts.RestartKeeps | src/atspi/state.py:555-562 | a saved store that is loaded again keeps its count and both timestamps and the deque inside 24 h, and starts everything else afresh |
| Restarts.CountsSurviveRestarts | src/atspi/state.py:156-193 | across samples and restarts with every save landed, store and file hold the number of transfers and the instants of the last transfer and the last retransfer ever counted |
| RollingWindow.WindowIsExact | src/atspi/state.py:183-193 | with a forward clock, across samples and restarts, deque and count are exactly the counted transfers of 24 h |
| RollingWindow.WindowHoldsExactly | src/atspi/state.py:183-193 | under any clock deque and count are exact in every state of a run iff at every sample no transfer that counts had been aged out by the last clock and no expired one stands behind one that is not, and at every restart none had been aged out when the file was saved |
| RollingWindow.StepKeepsWindowExactly | src/atspi/state.py:248-280 | the same for one sample or restart from an exact state |
| RollingWindow.EvictFiltersExactly | src/atspi/state.py:540-543 | front-only eviction is filtering iff no expired entry stands behind one that is not |
| RollingWindow.WindowIsSubsequence | src/atspi/state.py:248-258 | under any clock the deque is a subsequence of the counted transfers |
| RollingWindow.BackwardClockKeepsExpired | src/atspi/state.py:248-280 | from first boot, a clock set back by more than 24 h and forward again leaves an expired transfer in the deque and the published count |
| RollingWindow.ForwardJumpForgets | src/atspi/state.py:248-280 | from first boot, a clock set forward by more than 24 h and back again drops a transfer of this second from the deque and the published count |
| ModbusServer.Validate | src/atspi/server.py:118-142 | the write guard probes registers in order and stops at the first refusal |
| ModbusServer.SetValues | src/atspi/server.py:173-177 | writes each value and dispatches the recognised commands in order |
| ModbusServer.Execute | src/atspi/server.py:118-177 | validation then write is the specified reply |
| ModbusServer.WritesAreAllOrNothing | src/atspi/server.py:121-129 | accepted iff every register is permitted; then exactly the pattern-matching commands in order; refused, nothing but possibly the latch |
| ModbusServer.OtherRequestsAreInert | src/atspi/server.py:118-142 | a request outside the command band changes nothing; reads are answered, codes 5, 15 and 23 refused |
| ModbusServer.ModePolicy | src/atspi/state.py:75-83 | auto permits every command register, manual only Inhibit, the other modes none |
| ModbusServer.UnknownModeRefuses | src/atspi/state.py:456-469 | in mode unknown no request yields a command |
| ModbusServer.CommandsRoundTrip | src/atspi/state.py:507-516 | register and value decode to a command iff they are that command's encoding |
| ModbusServer.ReadsAreSlices | src/atspi/server.py:157-171 | a read is a slice of one 65536-word image, so split reads concatenate |
| ModbusServer.WidePairsDecode | src/atspi/state.py:388-414 | each 32-bit pair decodes to its field modulo 2^32 |
| ModbusServer.UptimeIsWholeSeconds | src/atspi/state.py:397-402 | the decoded uptime is the number of whole seconds since boot |
| ModbusServer.IdentityReads | src/atspi/state.py:416-428 | one six-word read at 0x0030 is the ICD version, the firmware version and the unit id, in this order |
| ModbusServer.FaultRegisterReads | src/atspi/state.py:379-386 | the fault word is the four defined bits by position, bit 0 also raised by the rejection latch |
| ModbusServer.CoreRoundTrips | src/atspi/state.py:368-386 | one read of the core words gives the core state back |
| ModbusServer.ImageIsWellFormed | src/atspi/state.py:342-441 | unassigned addresses read 0; every word fits 16 bits iff unit id and versions do |
| CommsLoss.SafetyWatchdog.NoteModbusRead | src/atspi/safety.py:46-57 | re-arms whatever the state was |
| CommsLoss.SafetyWatchdog.NoteCommanderLost | src/atspi/safety.py:59-67 | marks the drop and nothing else |
| CommsLoss.SafetyWatchdog.Snapshot | src/atspi/safety.py:69-76 | the report determines the last re-arm and the latch; a wake-up now would release iff it says not released and the silence is over the limit or a drop is pending |
| CommsLoss.SafetyWatchdog.Wake | src/atspi/safety.py:88-109 | attempts iff due, clearing the read-backs at once |
| CommsLoss.SafetyWatchdog.Finish | src/atspi/safety.py:110-122 | latches iff the writes landed |
| CommsLoss.ConnectionTracker.NoteRequest | src/atspi/server.py:228-247 | who becomes commander and whose requests re-arm |
| CommsLoss.ConnectionTracker.NoteDisconnect | src/atspi/server.py:249-253 | only the commander's disconnect matters |
| Debounce.Debouncer.Update | src/atspi/io_adam.py:224-239 | seeds, or integrates every channel in place |
| Debounce.PublishedLevel | src/atspi/io_adam.py:205-239 | the level is that of the most recent window of n identical samples, or the seed |
| Debounce.DeviationIsPublishedExactly | src/atspi/io_adam.py:231-238 | a deviation is published with its n-th sample and not before, for every n and history |
| Debounce.GlitchLevels | src/atspi/io_adam.py:231-238 | two histories that differ by a short glitch publish the same level at every sample |
| AdamInputs.AdamInputs.ReadInputs | src/atspi/io_adam.py:341-387 | latch, debounce and decode of one raw read |
| AdamInputs.ChannelsIntegrateColumns | src/atspi/io_adam.py:231-238 | each channel integrates its own samples and nothing else |
| AdamInputs.SeenIsLastPulse | src/atspi/io_adam.py:345-349 | the remembered instant is that of the last raw Load Disconnect pulse |
| AdamInputs.InputsClosedForm | src/atspi/io_adam.py:73-79 | every field of a reported snapshot from the settled levels of channels 1 to 5, by number, and the last pulse on channel 0 |
| AdamInputs.GlitchIsInvisible | src/atspi/io_adam.py:341-387 | a glitch shorter than the window leaves the store the same after every cycle |
| AdamInputs.PulsesCountAsTransfers | src/atspi/io_adam.py:345-372 | with the position contacts on the generator throughout, the lifetime count grows by one per Load Disconnect hold that ends |
| AdamInputs.OnePulseCounts | src/atspi/state.py:225-233 | one pulse and one quiet sample two seconds later add one transfer |
| AscoSerial.PackExtract | src/atspi/io_asco_serial.py:170-177 | packing bits into registers and extracting gives them back |
| AscoSerial.UsableMeans | src/atspi/io_asco_serial.py:137-167 | a configuration is accepted iff complete, with a mode, a register, and every bit inside the block |
| AscoSerial.RefusalMeans | src/atspi/io_asco_serial.py:137-167 | each refusal names its reason, in the order of the checks, and the first bit outside the block |
| AscoSerial.DecodeReadsConfiguredBits | src/atspi/io_asco_serial.py:227-266 | no configured bit takes the out-of-range default; nothing else matters |
| AscoSerial.PackedStatusDecodes | src/atspi/io_asco_serial.py:227-266 | packed status bits come back as position, availability, engine start, configured mode and calibration fault |
| AscoSerial.ConfiguredModeGates | src/atspi/io_asco_serial.py:264 | once such a snapshot is applied a holding write is accepted iff the configured mode permits every register |
| AdamOutputs.Clamp | src/atspi/io_adam.py:605 | the pulse window is the request clamped to 500..1500 ms |
| AdamOutputs.OutputLedger.Record | src/atspi/io_adam.py:459-490 | from half a second on, a read-back contradicting this record is a mismatch and no other is; the other relays' verdicts stay |
| AdamOutputs.OutputLedger.CheckOutputConsistency | src/atspi/io_adam.py:463-490 | false iff some relay commanded at least 0.5 s ago reads back as the opposite |
| SamplingLoop.SamplingLoop.ReleaseAllOutputs | src/atspi/io_adam.py:439-457 | OFF is recorded for each relay whose write landed; done iff all four did |
| SamplingLoop.SamplingLoop.RunCycle | src/atspi/__main__.py:165-203 | one cycle, ledger included, for whatever its awaits deliver |
| SamplingLoop.SamplingLoop.RunCycles | src/atspi/__main__.py:165-216 | the loop over its cycles |
| SamplingLoop.ResetComesFirst | src/atspi/__main__.py:167-176 | until a reset lands only the input fault is published; then it is done once |
| SamplingLoop.LoopFaultsExactly | src/atspi/__main__.py:186-192 | a successful cycle leaves the output fault up iff it was, the gate is unverified, or the newest record of some relay, reset included, is settled and contradicted |
| SamplingLoop.StreakCountsFromLastSuccess | src/atspi/__main__.py:193-203 | a success ends the failure streak and clears the input fault; then only the failures since count |
| SamplingSteps.CyclePublishes | src/atspi/__main__.py:177-192 | in the running system, every cycle after the reset that reads publishes one sample, all of it, writes nothing and leaves the loop ready |
| SamplingSteps.FailedCycleStaysReady | src/atspi/__main__.py:201-216 | a cycle that fails sets the input fault, publishes nothing else and leaves the loop ready |
| SamplingSteps.CyclesFromBootPublish | src/atspi/__main__.py:165-216 | from boot, the reset and any number of cycles publish once per successful one |
| SamplingSteps.PublishesExactly | src/atspi/__main__.py:165-216 | in any interleaving a run publishes exactly the samples that end a cycle it began |
| SamplingSteps.CycleRefinesLoop | src/atspi/__main__.py:165-203 | a cycle of the running system is a cycle of the loop taken by itself |
| SamplingSteps.GateFollowsChecksFromBoot | src/atspi/io_adam.py:579-583 | from any boot the gate is what the latest check found, else what the boot found |
| SamplingSteps.GateFollowsChecks | src/atspi/__main__.py:191-192 | the gate is what the latest check found, and a sample that finds it unverified raises the output fault |
| SamplingLoop.FailuresKeepCounters | src/atspi/__main__.py:201-203 | failed cycles move no counter or timestamp |
| SystemShape.RunKeepsShape | src/atspi/io_adam.py:595-650 | in every run each outstanding write belongs to exactly the asyncio task that awaits it |
| ReleaseSafety.SafeExactly | src/atspi/safety.py:90-122 | a run keeps the release guarantee in every state iff every latch in it is clean |
| ReleaseSafety.ResetWritesInOrder | src/atspi/io_adam.py:454-456 | the start-up reset writes OFF to Test, Force Transfer, Inhibit and Bypass in this order |
| ReleaseSafety.ReleasedMeansOff | src/atspi/safety.py:52-57 | from any boot, if no assertion is queued when a release is issued and no request dispatches one during its flight, released implies off, and an energised maintained relay an armed watchdog |
| ReleaseSafety.RaceStrandsRelay | src/atspi/safety.py:109-122 | a request landing in the release window strands the relay it asserts |
| ReleaseSafety.QueuedAssertionStrandsRelay | src/atspi/__main__.py:286-289 | so does an assertion still queued when the release is issued, with no request in the window |
| ReleaseSafety.StrandedUntilRequest | src/atspi/safety.py:88-92 | a stranded relay stays on until a new request |
| ReleaseSafety.SilenceExposes | src/atspi/safety.py:88-92 | boot, reset, a sample and a second or thirty of silence reach the states those traces start from |
| ReleaseExact.UnassertedMeansOff | src/atspi/safety.py:90-122 | whatever fails, every state is safe if no release that latches has met an assertion: Inhibit queued at its issue or dispatched since, Force Transfer queued at its second write or dispatched since |
| ReleaseExact.ReleasedMeansOffExactly | src/atspi/safety.py:90-122 | in steady runs every state is safe if and only if no release that latches has met an assertion |
| ReleaseExact.ReleasedMeansOffFromStartUp | src/atspi/__main__.py:173-181 | both from any boot, once the start-up reset is done, even with a release in flight |
| StrandedRelay.RaceLeavesOnRecorded | src/atspi/io_adam.py:428-435 | the first trace ends stranded with ON on record |
| StrandedRelay.DropRaceLeavesOnRecorded | src/atspi/io_adam.py:428-435 | so does the second |
| StrandedRelay.StrandedIsNeverReported | src/atspi/io_adam.py:463-490 | in every run without a request a stranded relay stays on and never contributes to the output fault |
| ReleaseTiming.ReleaseWindow | src/atspi/safety.py:83-122 | lower and upper time bounds of every release attempt and of its success |
| ReleaseTiming.ExposureIsBounded | src/atspi/safety.py:24-26 | how long a maintained relay can stay on after the last re-arm, by whomever |
| ReleaseTiming.DropIsAnsweredInTime | src/atspi/safety.py:59-67 | after a drop with no request since, a release is attempted within 1 s plus lateness, counted from the end of one in flight if there is one |
| CommanderExposure.RearmIsCommandersExactly | src/atspi/server.py:228-253 | the last re-arm is the commander's own iff someone is in command, or it dropped with nothing heard since, or it was heard last |
| CommanderExposure.CommanderExposureIsBounded | src/atspi/server.py:228-253 | under that condition the same bound holds since the commander was last heard |
| CommanderExposure.PollingDefeatsRelease | src/atspi/server.py:241-244 | without it there is none: a polling connection keeps Inhibit on after the commander dropped, for any number of seconds |
| ReleaseTiming.GoneExactly | src/atspi/server.py:241-253 | the drop flag is up iff the commander dropped and no request followed |
| ReleaseTiming.WakeAttemptsExactly | src/atspi/safety.py:88-92 | a due wake-up attempts iff silent too long or dropped with no request since |
| Isolation.CommanderExactly | src/atspi/server.py:228-253 | the commander is the connection of the latest command-band write unless it disconnected since |
| Isolation.BystanderChangesNothing | src/atspi/server.py:241-251 | one bystander event is the identity |
| Isolation.BystandersDoNotInterfere | src/atspi/server.py:228-253 | deleting all bystander traffic from any run changes nothing |
| Isolation.SameUpToBystanders | src/atspi/server.py:228-253 | two runs that differ only in bystander traffic, inserted or deleted anywhere, end in the same state |
| Startup.NothingBeforeReset | src/atspi/__main__.py:167-181 | before the first sample no command is dispatched, the store is as booted but for fault and latch, and inputs are read only with all relays off |
| Startup.FirstSampleFindsRelaysOff | src/atspi/__main__.py:173-181 | all relays are off when the first sample is published |
| PulseRelease.StepCoversExactly | src/atspi/io_adam.py:607-615 | a step leaves an energised pulse relay without a task iff it is an ON write that acts though reported failed on a relay with none |
| PulseRelease.CoversExactly | src/atspi/io_adam.py:595-650 | a run keeps every energised pulse relay covered in every state iff no step of it is such a write |
| PulseRelease.EnergisedPulseIsAttended | src/atspi/io_adam.py:595-650 | in such runs an energised pulse relay has a live release task, no younger than the pulse, whose next action is due |
| PulseRelease.UnreportedPulseIsUnattended | src/atspi/io_adam.py:607-611 | from any idle state a pulse command whose ON write acts though reported failed loses cover |
| PulseRelease.EnergisedIsAttendedOrReported | src/atspi/io_adam.py:463-490 | whatever fails, an energised pulse relay is attended, or every honest sample half a second after its last record raises the output fault |
| PulseRelease.TaskEndsOnlyByLanding | src/atspi/io_adam.py:625-650 | a release task ends iff its OFF write lands |
| PulseRelease.RetriggerIsIgnoredExactly | src/atspi/io_adam.py:595-615 | in every run after a pulse landed with no further pulse of that relay landing, a command for it writes nothing iff the task it spawned is live, and otherwise exactly one ON |
| PulseRelease.FirstPulseIsWritten | src/atspi/io_adam.py:595-611 | before any pulse of a relay landed every command for it is written |
| PulseRelease.ResetCancelsPulses | src/atspi/io_adam.py:451-453 | a reset leaves no live task in any slot |
| PulseTiming.PulseWindowIsClamped | src/atspi/io_adam.py:605-615 | in every run the task waits in its clamped window iff not resumed at or after its end, writes nothing before, and then writes OFF |
| PulseTiming.RetryIsPaced | src/atspi/io_adam.py:632-645 | in every run a failed OFF write is retried exactly when the task is next resumed 250 ms later |
| PulseTiming.PulseExposureIsBounded | src/atspi/io_adam.py:605-650 | in timely covered runs a pulse relay is on for at most 1.5 s + lateness + write, plus one period per failed OFF write |
| PulseRelease.PublishFaultsExactly | src/atspi/__main__.py:178-192 | when a published sample raises the output fault |
| PulseRelease.OverstayIsSurfaced | src/atspi/io_adam.py:618-645 | a relay on half a second after its window raises the output fault however its OFF write fares |
| PulseRelease.OnlyDispatchClears | src/atspi/__main__.py:219-233 | only a successful dispatch clears the output fault |
| PulseRelease.OutputFaultExactly | src/atspi/__main__.py:186-233 | after any step the output fault is up iff a dispatch failed, a sample found something wrong, or it was up and no dispatch succeeded |
| PulseRelease.InputFaultExactly | src/atspi/__main__.py:181-203 | after any step the input fault is up iff a cycle failed, or it was up and no sample was published |
| PulseRelease.RecordsExactly | src/atspi/io_adam.py:428-461 | a landed write records its relay and value, the end of a pulse window records OFF, nothing else records anything |
| EndToEnd.CommandReachesRelay | src/atspi/__main__.py:219-233 | a write the current mode permits drives exactly its relay to exactly its state and makes the sender commander |
| EndToEnd.CommandsStartInOrder | src/atspi/__main__.py:286-289 | in every run accepted commands start in order, each exactly once |
| EndToEnd.SampleReadsBack | src/atspi/state.py:430-438 | after an honest sample each read-back register reports its relay |
| EndToEnd.AttemptClearsReadBacks | src/atspi/safety.py:102-109 | a release attempt clears the two maintained read-backs at once |
| EndToEnd.GateRefusesAssertionsOnly | src/atspi/io_adam.py:406-425 | the fail-safe gate refuses assertions at call entry and never a release |
| EndToEnd.StoreIsHistory | src/atspi/__main__.py:165-233 | the running system's store is the run of the store operations it performs |
| EndToEnd.SystemCountsTransfers | src/atspi/state.py:230-256 | in any interleaving the lifetime count is the loaded one plus the published transfers |
| Persistence.Save | src/atspi/persistence.py:67-111 | the calls in order; at every instant a power loss reveals only old versions or the new state; both fsyncs make the new one durable, else every old version is still there; a raise keeps the old unless closing the directory is what failed |
| Persistence.NothingIsLeftBehind | src/atspi/persistence.py:106-111 | the temporary file is gone afterwards unless it was abandoned and its unlink failed |
| Persistence.LoadFallsBackToZeros | src/atspi/persistence.py:43-65 | a missing or unreadable file loads as zeros |
| Persistence.ReloadsAreVersions | src/atspi/persistence.py:43-65 | a power loss reveals exactly the states of the directory versions |
| Persistence.CrashIsOldOrNew | src/atspi/persistence.py:67-105 | crash atomicity |
| Persistence.FailedSaveKeepsOld | src/atspi/persistence.py:106-111 | a failed save leaves the old state exactly as durable |
| Persistence.ReturnedIsDurableExactly | src/atspi/persistence.py:91-105 | a save that returned is durable iff opening and syncing the directory succeeded, or nothing else was there to come back |
| Persistence.FileSyncIsNeeded | src/atspi/persistence.py:70-90 | a temporary file that replaces the state file unsynced may come back as anything |
| Durability.CountNeverGoesBack | src/atspi/state.py:239-247 | across any restarts and power losses, at any instant of any save, all that may be reloaded is at least every count ever read, under the proviso |
| Durability.FirstBootIsMonotone | src/atspi/state.py:239-247 | the same from the first boot over any durable file |
| Durability.InFlightDrains | src/atspi/state.py:545-568 | the executor saves in flight run one after the other until none is left, the last one's image on disk |
| Durability.ProvisoIsExact | src/atspi/state.py:291-299 | after a critical save the count is safe under every continuation iff the save replaced the file and synced the directory, and no executor save was in flight |
| Durability.KillIsExact | src/atspi/persistence.py:91-105 | after a process crash inside a critical save it is safe iff the crash is not between the replace and the directory sync |
| Durability.UnsyncedDirectoryLosesCount | src/atspi/persistence.py:94-103 | from first boot: a save returns normally, a read returns its count, a power loss takes it back |
| Durability.StaleOverwrite | src/atspi/state.py:545-568 | from first boot: every save succeeds, and a read count is lost to an executor save that finishes last |

## Left out

- Library mechanics: sockets, binding, reconnects, and function codes that fall through to pymodbus.
- The gate after its check: a write may reconnect and re-verify the fail-safe, so nothing is claimed about writes already issued.
- Answers out of order: outstanding coil writes are answered in issue order, and effect and resumption of the issuer are one step; a late effect after a timeout is modelled only at the moment the failure is reported.
- Shutdown: task cancellation on the way out and the final release are not modelled; runs end before it.
- `drive_outputs`, `_pulse`, `_release` and the watchdog loop are steps on values, not methods, because they interleave at their awaits; aliasing of task objects is replaced by task numbers.
- SamplingLoop.SamplingLoop.RunCycles: other tasks change the ledger between the reset and the reads of a cycle, but the store not at all and nothing between the four writes of a reset; ControlSystem interleaves everything.
- ReleaseTiming.ReleaseWindow: bounds the success of an attempt only if no request re-armed the watchdog while it was in flight, because the code then counts from the later re-arm.
- Durability.CountNeverGoesBack: a read returns the count modulo 2^32; the model compares the count itself.
- Concurrent saves of one state file: their file-system steps are not interleaved with one another; each runs whole, in any order, and a crash may hit any instant of it.
- ReleaseExact.ReleasedMeansOffExactly: the "only if" is about runs whose fail-safe stays verified, whose written Inhibit assertions act, and in which no Inhibit de-assertion is under way during a release; otherwise an assertion that was met may have been refused, lost or undone before the latch. The "if" needs none of this.
- Persistence.Save: JSON text is either a whole state or unreadable; per-field coercions in `load` are not modelled.
- Health endpoint, configuration, command line, logging, systemd notification, bench tool, mock and hybrid drivers.
- The fail-safe band check itself and hardware timing of the I/O module.

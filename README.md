# Kundalini Piano Mirror (Linux) — a Dafny model of its real-time core

Piano Mirror is a MIDI pass-through for a digital piano. A PortMidi timer
callback (`process_midi`) runs every millisecond. Each time, it first handles
the control commands the console thread has queued for it. It then reads every
buffered keyboard event, maps the note through one of four transposition
modes, and writes the event to the output device. The modes are none,
left-hand ascending, right-hand descending and mirror image. The last three
reflect around middle D (note 62); "none" keeps every note. A quiet mode can suppress loud notes.
Striking low A (note 21) with velocity 0 cycles the mode. A separate metronome
counts beats and measures from a periodic timer.

The model has two modules, one per source file:

- `PianoMirror` (pianomirror.dfy) covers `pianomirror.c`. It has the pure note
  transformer `TransformNote`, the mode cycle `NextMode`, and two
  specification functions for the two loops of `process_midi`: `Drain` for
  the command drain and `ProcessEvents` for the event loop. Lemmas about them
  state FIFO order, one acknowledgement per mode or quit command, the exact
  sequence of events written (each received event that passes the quiet-mode
  gate, echoed under the mode in force when it is read), channel remapping
  and the control note. The class
  `MidiProcessor` holds the program's shared globals: `transpositionMode`,
  `splitPoint`, `velocityThreshhold` and `callback_active`. It also holds the
  two command queues and the output stream, all as sequences. Its
  `ProcessMidi` method is the callback, written with the source's two loops
  and proved against `Drain` and `ProcessEvents`.
- `Metronome` (metronome.dfy) covers `metronome.c`. The globals declared in
  `metronome.h` are the fields of class `Metronome`, and every routine is a
  method that updates them. The pure function `Advance` gives the counter
  step. `Run` and `Ticks` give the counters and the tick kinds after n acting
  calls, and lemmas prove the measure arithmetic about these functions.
  `TimerInterval` is the `60/bpm` split into seconds and microseconds. It
  uses C's truncating `/` and `%`.

Points where the code does something a reader might not expect; the model follows the code:

- The transform reflects around the literal 62. The `splitPoint` variable is
  never read, and `CMD_SET_SPLIT_POINT` is consumed with no effect and no
  acknowledgement. So "one acknowledgement per command" holds only for
  set-mode and quit commands.
- There is no clamping. Notes 125–127 map to negative values under
  right-descending and mirror modes.
- The control note is still transformed and echoed, using the mode in force
  before it. The mode advances only after the event has been written.
- `process_midi` does not drive the metronome. The two are independent.
- `DisableMetronome` only clears the enabled flag and does not stop the timer.
  `KillMetronome` does the same.
- `CMD_SET_MODE` stores `Param1` unchecked. So the mode is an integer, and a
  value outside 0..3 makes `TransformNote` the identity and
  `DoNextTranspositionMode` a no-op. Both switches have no default case.

## Model

| member | source | states |
|---|---|---|
| `PianoMirror.TransformNote` | pianomirror.c:88-133 | every mode keeps the note or gives 124 − note; 62 is a fixed point; a mode outside the enumeration keeps the note; inputs 0..124 give results in 0..124 |
| `PianoMirror.NoTranspositionIsIdentity` | pianomirror.c:93-98 | no-transposition returns the note unchanged |
| `PianoMirror.LeftAscendingReflectsLowerHalf` | pianomirror.c:101-106 | a note below 62 becomes 124 − note, the rest are kept, the result is never below 62, and applying the mode twice equals applying it once |
| `PianoMirror.RightDescendingReflectsUpperHalf` | pianomirror.c:109-114 | a note above 62 becomes 124 − note, the rest are kept, the result is never above 62, and the mode is idempotent |
| `PianoMirror.MirrorIsInvolution` | pianomirror.c:117-129 | mirror gives 124 − note for every note (62 fixed), so mirroring twice returns the original note |
| `PianoMirror.TopNotesGoNegative` | pianomirror.c:102-127 | with no clamping, notes 125..127 become 124 − note < 0 under right-descending and mirror, and are kept by the other modes |
| `PianoMirror.Cycle` | pianomirror.c:137-163 | reference definition: n successive calls of the mode switch (used by the event-loop lemmas; its properties are `CycleAdvancesModulo4` and `FourStepsReturn`) |
| `PianoMirror.NextMode` | pianomirror.c:137-163 | a valid mode advances to (mode + 1) mod 4 and stays valid; any other value is left alone |
| `PianoMirror.CycleAdvancesModulo4` | pianomirror.c:137-163 | n successive calls advance a valid mode by n mod 4 and leave an invalid one unchanged |
| `PianoMirror.FourStepsReturn` | pianomirror.c:137-163 | four calls return to the starting mode; from a valid mode one, two or three calls do not |
| `PianoMirror.Drain` | pianomirror.c:193-212 | specification of the dequeue loop, front first: quit acks, deactivates and stops with the rest queued; set-mode stores Param1 and acks; split point and unknown codes are consumed silently (properties in the next five rows) |
| `PianoMirror.LastMode` | pianomirror.c:205-206 | reference definition, built from the back of the queue: the Param1 of the last set-mode command, or the starting mode when there is none |
| `PianoMirror.CountSetMode` | pianomirror.c:205-208 | reference definition, built from the back of the queue: the number of set-mode commands |
| `PianoMirror.DrainShape` | pianomirror.c:193-212 | every acknowledgement sent is CMD_MSG_ACK; a drain that stays active empties the queue; one that quits leaves a proper suffix of the queue queued; acknowledgements plus leftovers never exceed the commands |
| `PianoMirror.DrainWithoutQuit` | pianomirror.c:193-212 | with no quit queued, the whole queue is handled in FIFO order: the LAST set-mode's Param1 becomes the mode, the callback stays active, and exactly one ack is sent per set-mode command (split-point and unknown codes send none) |
| `PianoMirror.DrainStopsAtQuit` | pianomirror.c:196-201 | at the first quit the drain acks it, clears callback_active and returns: the commands before it are applied in order with one ack per set-mode, and every later command stays queued |
| `PianoMirror.OneAckPerCommand` | pianomirror.c:205-209 | N queued set-mode commands produce exactly N acknowledgements and leave the last one's mode |
| `PianoMirror.Echo` | pianomirror.c:241-249 | the written event has channel bit 1 set, the other status bits of the input, and the input's velocity and timestamp |
| `PianoMirror.ShouldEcho` | pianomirror.c:246 | definition of the quiet-mode gate: velocity < threshold, or threshold 0 |
| `PianoMirror.IsControl` | pianomirror.c:254 | definition of the control note: note 21 with velocity 0 |
| `PianoMirror.HandleRead` | pianomirror.c:219-256 | definition of one pass of the loop: an overflow writes nothing and keeps the mode; an event is echoed under the current mode if the gate passes, and the mode advances afterwards if it is the control note |
| `PianoMirror.ProcessEvents` | pianomirror.c:217-259 | specification of the event loop, front first; its only own contract is at most one write per read; the exact output is `ProcessEventsWritesExactly` |
| `PianoMirror.ReceivedCount` | pianomirror.c:221-222 | reference count: reads that are events, not overflows |
| `PianoMirror.ControlCount` | pianomirror.c:254-256 | reference count: received control notes |
| `PianoMirror.GatedCount` | pianomirror.c:246-252 | reference count: received events that pass the quiet-mode gate |
| `PianoMirror.Written` | pianomirror.c:217-259 | reference definition of the output, built from the last read back: the echo of each gated received event under `Cycle` of the starting mode by the control notes read before it |
| `PianoMirror.ProcessEventsWritesExactly` | pianomirror.c:217-259 | the loop's output equals `Written`: an event is written if and only if it is received and passes the gate, as (status OR 1, transformed note, velocity, timestamp) under the mode in force when read, in input order |
| `PianoMirror.OneWritePerGatedEvent` | pianomirror.c:246-252 | the number of events written equals the number of received events passing the gate, for every threshold |
| `PianoMirror.WrittenEventsPassGate` | pianomirror.c:241-252 | every written event has status bit 1 set and satisfies velocity < threshold or threshold == 0 (the converse is `OneWritePerGatedEvent` and `ProcessEventsWritesExactly`) |
| `PianoMirror.EchoAllWithoutThreshold` | pianomirror.c:246-252 | with threshold 0 exactly one event is written per received event; overflowed reads are skipped |
| `PianoMirror.ModeAdvancesPerControlNote` | pianomirror.c:254-256 | after the loop the mode has advanced exactly once per control note (note 21, velocity 0) received |
| `PianoMirror.ControlNoteUsesOldMode` | pianomirror.c:238-256 | a control note is transformed and, if the gate passes, echoed using the mode in force before it; the mode then advances once |
| `PianoMirror.OutputNotesInRange` | pianomirror.c:237-238 | if all input notes are in 0..124, all written notes are in 0..124 |
| `PianoMirror.ProcessEventsAppend` | pianomirror.c:217-259 | reading events over two polls with no command in between writes the same events in the same order and ends in the same mode as one poll |
| `PianoMirror.QuietModeExamples` | pianomirror.c:246-252 | with threshold 50, of two events with velocities 40 and 60 the loop writes only the echo of the first; with threshold 0 any single event is written as its echo |
| `PianoMirror.PassThroughScenario` | pianomirror.c:238-252 | (144, 60, 64) with no transposition and threshold 0 yields exactly (145, 60, 64); note 50 under left-ascending comes out as 74 |
| `PianoMirror.MidiProcessor.constructor` | pianomirror.c:78-85 | initial globals: no transposition, split point 62, threshold 0, callback inactive, empty queues and output |
| `PianoMirror.MidiProcessor.Activate` | pianomirror.c:327 | initialize() ends by setting callback_active; nothing else changes |
| `PianoMirror.MidiProcessor.NextTranspositionMode` | pianomirror.c:137-163 | the mode becomes NextMode of the old mode; nothing else changes |
| `PianoMirror.MidiProcessor.SetVelocityThreshold` | pianomirror.c:453-461 | the main thread's direct write sets the threshold; nothing else changes |
| `PianoMirror.MidiProcessor.PostCommand` | pianomirror.c:382-384 | a command the main thread enqueues goes to the back of the command queue |
| `PianoMirror.MidiProcessor.ProcessMidi` | pianomirror.c:179-261 | an inactive callback changes nothing; an active one drains the commands as Drain says; after a quit it changes nothing else (no output, later commands left queued); otherwise mode and output follow ProcessEvents from the drained mode; split point and threshold are untouched |
| `PianoMirror.MidiProcessor.DrainCommands` | pianomirror.c:193-212 | the dequeue loop leaves mode, active flag, queue and appended acks exactly as Drain of the old mode and queue |
| `PianoMirror.MidiProcessor.HandleEvents` | pianomirror.c:217-259 | the poll loop leaves the mode and the appended output exactly as ProcessEvents of the old mode and threshold |
| `PianoMirror.MidiProcessor.HandleEvent` | pianomirror.c:219-256 | one read: overflow skipped; otherwise write (status OR 1, transformed note, velocity) if the gate passes, then cycle the mode on the control note |
| `Metronome.CDiv` | metronome.c:62 | links C's `/` to Dafny's Euclidean `/`: equal for a non-negative dividend and positive divisor, and the negated quotient by −b (never positive) for a negative divisor; the C rule itself is `CDivTruncates` |
| `Metronome.CDivTruncates` | metronome.c:62-63 | C's `/` rounds toward zero for every dividend and non-zero divisor: the quotient is non-negative when the operands have the same sign and non-positive otherwise, and the remainder a − b·q is smaller than abs(b) in magnitude and has the dividend's sign |
| `Metronome.CRem` | metronome.c:63 | C's remainder agrees with the Euclidean one for a non-negative dividend (of the divisor's magnitude when the divisor is negative) |
| `Metronome.TimerInterval` | metronome.c:61-64 | for bpm > 0 the seconds part is non-negative and the microseconds lie in 0..999999; for bpm < 0 both parts are non-positive |
| `Metronome.IntervalBounds` | metronome.c:61-64 | the same bounds, stated on the C quotients `60 / bpm` and `(60 % bpm) * 1000000 / bpm` themselves |
| `Metronome.IntervalIsSixtySecondsOverBpm` | metronome.c:61-64 | for bpm > 0, sec × 1000000 + usec = ⌊60000000 / bpm⌋ |
| `Metronome.TickKind` | metronome.c:82-85 | definition: DoTick(0) on beat 0 or when beats_per_measure is 0, DoTick(1) otherwise |
| `Metronome.Advance` | metronome.c:87-95 | definition of one acting call's counter step: free-running increment when beats_per_measure is 0, wrap to beat 0 with the measure raised after the last beat, otherwise increment |
| `Metronome.Run` | metronome.c:87-95 | definition: the counters after n acting calls (properties in the lemmas below) |
| `Metronome.Ticks` | metronome.c:82-85 | definition: the tick kinds of n acting calls, in order (one per call); its properties are `PartialMeasureTicks`, `MeasureTicks` and `FreeRunningAccents` |
| `Metronome.MeasurePattern` | metronome.c:82-85 | reference definition: one accent followed by plain ticks, j in all |
| `Metronome.RunStaysInMeasure` | metronome.c:87-95 | acting calls keep beat and measure non-negative and, with beats_per_measure = k > 0, beat in 0..k−1 |
| `Metronome.PartialMeasure` | metronome.c:87-95 | from beat 0, j < k acting calls reach beat j within the same measure |
| `Metronome.FullMeasure` | metronome.c:87-95 | from beat 0, k acting calls raise measure by exactly 1 and return beat to 0 |
| `Metronome.MeasuresAfter` | metronome.c:87-95 | from beat 0, n acting calls leave beat = n mod k and measure raised by n div k |
| `Metronome.FreeRunning` | metronome.c:87-90 | with beats_per_measure 0 (or negative, from a non-negative beat) every call increments beat and measure never changes |
| `Metronome.PartialMeasureTicks` | metronome.c:82-95 | from beat 0, the first j ≤ k ticks are one accent followed by plain ticks |
| `Metronome.MeasureTicks` | metronome.c:82-85 | a measure of k beats plays DoTick(0) once followed by k − 1 DoTick(1) |
| `Metronome.FreeRunningAccents` | metronome.c:82-83 | with beats_per_measure 0 every tick is DoTick(0) |
| `Metronome.Metronome.constructor` | metronome.h:3-8 | the globals start zero-initialised; the counter invariant holds |
| `Metronome.Metronome.InitMetronome` | metronome.c:31-39 | bpm = 100, disabled, timer_flag = 0, beat = measure = beats_per_measure = 0 |
| `Metronome.Metronome.EnableMetronome` | metronome.c:47-68 | arms the timer with TimerInterval(bpm) as the period and the first fire time and sets the enabled flag; counters and bpm unchanged |
| `Metronome.Metronome.DisableMetronome` | metronome.c:70-74 | clears the enabled flag only |
| `Metronome.Metronome.KillMetronome` | metronome.c:41-45 | leaves the metronome disabled, whether or not it was enabled before; nothing else changes |
| `Metronome.Metronome.DoMetronome` | metronome.c:77-99 | unless enabled and timer_flag set nothing changes; otherwise it records tick kind 0 or 1 for the old beat, advances the counters by Advance and clears timer_flag; bpm, enabled and beats_per_measure untouched; the counter invariant is kept |
| `Metronome.Metronome.SetBeatsPerMinute` | metronome.c:101-106 | stores the new bpm, leaves the metronome enabled and re-arms the timer with the new interval; counters untouched |
| `Metronome.Metronome.SetBeatsPerMeasure` | metronome.c:108-113 | beat = 0, measure = 0, the new beats_per_measure; bpm, enabled and timer_flag untouched |
| `Metronome.Metronome.MetronomeTimerProc` | metronome.c:117-120 | sets timer_flag only |
| `Metronome.Metronome.PlayMeasure` | metronome.c:10-16 | the usage loop over one measure of k beats: k timer firings each followed by DoMetronome play one accent and k − 1 plain ticks, raise measure by 1 and return beat to 0 |

## Left out

- PortMidi I/O: `Pm_Poll`, `Pm_Read` and `Pm_Write`. These are foreign code. The reads one tick delivers are a parameter of `ProcessMidi`, and writes are appended to `output`. Error codes of `Pm_Read` other than buffer overflow are not modelled, and neither is a `Pm_Write` failure.
- Device setup: `initialize`, `Pm_OpenInput`/`Pm_OpenOutput`, device lookup, `Pm_SetFilter` and `shutdown`. This is I/O. The model's reads are the events that pass the active-sensing and clock filter.
- Message packing: `Pm_Message`, `Pm_MessageStatus`, `Pm_MessageData1` and `Pm_MessageData2` belong to the PortMidi library, which is not part of this model. Events are plain triples, so the byte masking `Pm_Message` applies to a negative transformed note is not modelled.
- Queues: `Pm_QueueCreate`, `Pm_Enqueue` and `Pm_Dequeue` are foreign code. They are modelled as unbounded FIFO sequences. The 1024-entry capacity, a failed enqueue, and a `Pm_Dequeue` error result are not modelled.
- Acknowledgements are recorded as their command code. The response's `Param1`/`Param2` are uninitialised in the source, so the model does not carry them.
- The blocking ack-wait loops in `signalExitToCallBack` and `set_transposition_mode`, and the scheduling between the timer thread and the main thread, are concurrency. Only the enqueue half is modelled, as `PostCommand`.
- SetVelocityThreshold: modelled as an ordinary setter. In the source, the main thread's unsynchronised writes of `velocityThreshhold` (and its direct call of `DoNextTranspositionMode`) race with the callback.
- Console output: the `printf` announcements in `DoNextTranspositionMode` (each mode change prints the new mode's name) are not modelled. The `main` console loop (`fgets`/`scanf`, `printf`), the IPC file (`InitIPC`, `write_to_IPC`, `ShutdownIPC`, the unused `flock`) and `exit_with_message` are I/O.
- Timer and signal plumbing: `Pt_Start`/`Pt_Stop`, `sigaction` and its failure exit, and the `setitimer` call itself. `EnableMetronome` records the itimerval it would pass. Which handler actually fires (`DoTick` or `MetronomeTimerProc`) is signal plumbing.
- `DoTick` plays a sound and is defined in a file that is not part of this model. Only its argument (0 or 1) is recorded, in `ticks`.
- EnableMetronome: requires a non-zero bpm, because `60 / bpm` with bpm = 0 is a division by zero in C.
- SetBeatsPerMinute: requires a non-zero new bpm, for the same reason.
- DoMetronome: beat and measure are unbounded integers, so the 32-bit overflow after 2^31 ticks is not modelled.
- The scripted transform, the script watcher and the event bus have no code in the repository's files and are not part of this model.

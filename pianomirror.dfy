/** Model of pianomirror.c: the note transformer, the transposition-mode
    cycle and the per-tick control logic of the PortMidi callback
    `process_midi` (command drain, then event processing).

    The PortMidi queues and streams are sequences: `commands` is the
    main-to-callback queue (front = oldest), `acks` the callback-to-main
    queue, `output` everything written to the output stream, and the
    events buffered at the input stream are a parameter of each tick. */
module PianoMirror {

  // ---------------------------------------------------------------------
  // Constants of the source
  // ---------------------------------------------------------------------

  /** enum transpositionModes. The mode variable itself is a plain int,
      because CMD_SET_MODE stores any Param1 into it unchecked. */
  const NoTransposition: int := 0
  const LeftAscending: int := 1
  const RightDescending: int := 2
  const MirrorImage: int := 3

  /** Middle D: the reflection axis, written as a literal in TransformNote. */
  const Axis: int := 62

  /** Initial value of the `splitPoint` global (never read by the transform). */
  const DefaultSplitPoint: int := 62

  /** Command codes from the main thread, and the acknowledgement code. */
  const CmdQuit: int := 1
  const CmdSetSplitPoint: int := 2
  const CmdSetMode: int := 3
  const CmdAck: int := 1000

  /** Low A: struck with velocity 0 it cycles the transposition mode. */
  const ControlNote: int := 21

  predicate IsMode(mode: int) {
    NoTransposition <= mode <= MirrorImage
  }

  // ---------------------------------------------------------------------
  // Data model
  // ---------------------------------------------------------------------

  /** CommandMessage: a code and two integer parameters. */
  datatype CommandMessage = CommandMessage(cmdCode: int, param1: int, param2: int)

  /** A MIDI message as (status, data1, data2) with its timestamp. On input
      the data bytes are the note and the velocity; on output data1 is the
      transformed note, which may leave the byte range. */
  datatype MidiEvent = MidiEvent(status: bv8, data1: int, data2: int, timestamp: int)

  /** The outcome of one Pm_Read: a buffer overflow or one event. */
  datatype ReadResult = BufferOverflow | Received(event: MidiEvent)

  // ---------------------------------------------------------------------
  // Note transformer
  // ---------------------------------------------------------------------

  /** TransformNote under the given mode. Every mode either keeps the note
      or reflects it around 62; modes outside the enumeration keep it. */
  function TransformNote(mode: int, note: int): (r: int)
    ensures r == note || r == 2 * Axis - note
    ensures note == Axis ==> r == Axis
    ensures !IsMode(mode) ==> r == note
    ensures 0 <= note <= 2 * Axis ==> 0 <= r <= 2 * Axis
  {
    if mode == NoTransposition then
      note
    else if mode == LeftAscending then
      if note < Axis then Axis + (Axis - note) else note
    else if mode == RightDescending then
      if note > Axis then Axis - (note - Axis) else note
    else if mode == MirrorImage then
      if note == Axis then note
      else if note < Axis then Axis + (Axis - note)
      else Axis - (note - Axis)
    else
      note
  }

  lemma NoTranspositionIsIdentity(note: int)
    ensures TransformNote(NoTransposition, note) == note
  {
  }

  /** Left-ascending reflects the lower half upward and is idempotent. */
  lemma LeftAscendingReflectsLowerHalf(note: int)
    ensures note < Axis ==> TransformNote(LeftAscending, note) == 2 * Axis - note
    ensures note >= Axis ==> TransformNote(LeftAscending, note) == note
    ensures TransformNote(LeftAscending, note) >= Axis
    ensures TransformNote(LeftAscending, TransformNote(LeftAscending, note))
         == TransformNote(LeftAscending, note)
  {
  }

  /** Right-descending reflects the upper half downward and is idempotent. */
  lemma RightDescendingReflectsUpperHalf(note: int)
    ensures note > Axis ==> TransformNote(RightDescending, note) == 2 * Axis - note
    ensures note <= Axis ==> TransformNote(RightDescending, note) == note
    ensures TransformNote(RightDescending, note) <= Axis
    ensures TransformNote(RightDescending, TransformNote(RightDescending, note))
         == TransformNote(RightDescending, note)
  {
  }

  /** Mirror image fixes 62, reflects every other note, and is an involution. */
  lemma MirrorIsInvolution(note: int)
    ensures TransformNote(MirrorImage, note) == 2 * Axis - note
    ensures TransformNote(MirrorImage, TransformNote(MirrorImage, note)) == note
  {
  }

  /** No clamping: the three top MIDI notes leave the note range under the
      modes that reflect the upper half, and are kept by the others. */
  lemma TopNotesGoNegative(mode: int, note: int)
    requires 125 <= note <= 127
    ensures mode == RightDescending || mode == MirrorImage ==>
              TransformNote(mode, note) == 124 - note < 0
    ensures mode != RightDescending && mode != MirrorImage ==>
              TransformNote(mode, note) == note
  {
  }

  // ---------------------------------------------------------------------
  // Mode cycle
  // ---------------------------------------------------------------------

  /** DoNextTranspositionMode: NONE -> LEFT -> RIGHT -> MIRROR -> NONE;
      an out-of-range mode matches no case and is left as it is. */
  function NextMode(mode: int): (r: int)
    ensures IsMode(mode) ==> IsMode(r) && r == (mode + 1) % 4
    ensures !IsMode(mode) ==> r == mode
  {
    if mode == NoTransposition then LeftAscending
    else if mode == LeftAscending then RightDescending
    else if mode == RightDescending then MirrorImage
    else if mode == MirrorImage then NoTransposition
    else mode
  }

  /** The mode after n calls of DoNextTranspositionMode. */
  function Cycle(mode: int, n: nat): int
    decreases n
  {
    if n == 0 then mode else Cycle(NextMode(mode), n - 1)
  }

  /** n steps of the cycle advance a valid mode by n modulo 4. */
  lemma {:induction false} CycleAdvancesModulo4(mode: int, n: nat)
    ensures IsMode(mode) ==> Cycle(mode, n) == (mode + n) % 4
    ensures !IsMode(mode) ==> Cycle(mode, n) == mode
    decreases n
  {
    if n > 0 {
      CycleAdvancesModulo4(NextMode(mode), n - 1);
      if IsMode(mode) {
        assert (((mode + 1) % 4) + (n - 1)) % 4 == (mode + n) % 4;
      }
    }
  }

  /** Four calls return to the starting mode, whatever it is. */
  lemma FourStepsReturn(mode: int)
    ensures Cycle(mode, 4) == mode
    ensures IsMode(mode) ==>
              Cycle(mode, 1) != mode && Cycle(mode, 2) != mode && Cycle(mode, 3) != mode
  {
    CycleAdvancesModulo4(mode, 4);
    CycleAdvancesModulo4(mode, 3);
    CycleAdvancesModulo4(mode, 2);
    CycleAdvancesModulo4(mode, 1);
  }

  // ---------------------------------------------------------------------
  // Command drain (first loop of process_midi)
  // ---------------------------------------------------------------------

  /** What a drain leaves: the mode, whether the callback is still active,
      the commands still queued, and the acknowledgements sent. */
  datatype DrainResult = DrainResult(mode: int, active: bool,
                                     pending: seq<CommandMessage>, acks: seq<int>)

  /** The command drain, one command at a time from the front of the queue.
      A quit is acknowledged and stops the drain; a set-mode is applied and
      acknowledged; every other code is consumed without effect. */
  function Drain(mode: int, cmds: seq<CommandMessage>): DrainResult
    decreases |cmds|
  {
    if cmds == [] then
      DrainResult(mode, true, [], [])
    else if cmds[0].cmdCode == CmdQuit then
      DrainResult(mode, false, cmds[1..], [CmdAck])
    else if cmds[0].cmdCode == CmdSetMode then
      var r := Drain(cmds[0].param1, cmds[1..]);
      r.(acks := [CmdAck] + r.acks)
    else
      Drain(mode, cmds[1..])
  }

  /** Every acknowledgement is CMD_MSG_ACK; an active result has drained
      everything; an inactive one leaves a proper suffix of the queue; and
      acknowledgements plus leftovers never outnumber the commands. */
  lemma {:induction false} DrainShape(mode: int, cmds: seq<CommandMessage>)
    ensures var r := Drain(mode, cmds);
            (forall i :: 0 <= i < |r.acks| ==> r.acks[i] == CmdAck)
            && (r.active ==> r.pending == [])
            && (!r.active ==> |r.pending| < |cmds| && r.pending == cmds[|cmds| - |r.pending|..])
            && |r.acks| + |r.pending| <= |cmds|
    decreases |cmds|
  {
    if cmds != [] && cmds[0].cmdCode != CmdQuit {
      var m' := if cmds[0].cmdCode == CmdSetMode then cmds[0].param1 else mode;
      DrainShape(m', cmds[1..]);
      var r := Drain(m', cmds[1..]);
      assert !r.active ==> cmds[1..][|cmds| - 1 - |r.pending|..] == cmds[|cmds| - |r.pending|..];
    }
  }

  predicate NoQuit(cmds: seq<CommandMessage>) {
    forall i :: 0 <= i < |cmds| ==> cmds[i].cmdCode != CmdQuit
  }

  /** Reference definition: the mode set by the LAST set-mode command, or
      the given mode if there is none. */
  function LastMode(mode: int, cmds: seq<CommandMessage>): int
    decreases |cmds|
  {
    if cmds == [] then mode
    else if cmds[|cmds| - 1].cmdCode == CmdSetMode then cmds[|cmds| - 1].param1
    else LastMode(mode, cmds[..|cmds| - 1])
  }

  /** Reference definition: the number of set-mode commands. */
  function CountSetMode(cmds: seq<CommandMessage>): nat
    decreases |cmds|
  {
    if cmds == [] then 0
    else CountSetMode(cmds[..|cmds| - 1]) + (if cmds[|cmds| - 1].cmdCode == CmdSetMode then 1 else 0)
  }

  function Acks(n: nat): seq<int> {
    seq(n, _ => CmdAck)
  }

  lemma {:induction false} LastModeCons(mode: int, c: CommandMessage, cmds: seq<CommandMessage>)
    ensures LastMode(mode, [c] + cmds)
         == LastMode(if c.cmdCode == CmdSetMode then c.param1 else mode, cmds)
    decreases |cmds|
  {
    var s := [c] + cmds;
    if cmds != [] {
      assert s[..|s| - 1] == [c] + cmds[..|cmds| - 1];
      assert s[|s| - 1] == cmds[|cmds| - 1];
      LastModeCons(mode, c, cmds[..|cmds| - 1]);
    } else {
      assert s[..|s| - 1] == [];
    }
  }

  lemma {:induction false} CountSetModeCons(c: CommandMessage, cmds: seq<CommandMessage>)
    ensures CountSetMode([c] + cmds)
         == (if c.cmdCode == CmdSetMode then 1 else 0) + CountSetMode(cmds)
    decreases |cmds|
  {
    var s := [c] + cmds;
    if cmds != [] {
      assert s[..|s| - 1] == [c] + cmds[..|cmds| - 1];
      assert s[|s| - 1] == cmds[|cmds| - 1];
      CountSetModeCons(c, cmds[..|cmds| - 1]);
    } else {
      assert s[..|s| - 1] == [];
    }
  }

  /** Without a quit, the whole queue is drained in FIFO order: the last
      set-mode wins, the callback stays active, and there is exactly one
      acknowledgement per set-mode command. */
  lemma {:induction false} DrainWithoutQuit(mode: int, cmds: seq<CommandMessage>)
    requires NoQuit(cmds)
    ensures Drain(mode, cmds)
         == DrainResult(LastMode(mode, cmds), true, [], Acks(CountSetMode(cmds)))
    decreases |cmds|
  {
    if cmds != [] {
      var c := cmds[0];
      assert cmds == [c] + cmds[1..];
      assert NoQuit(cmds[1..]) by {
        forall i | 0 <= i < |cmds[1..]| ensures cmds[1..][i].cmdCode != CmdQuit {
          assert cmds[1..][i] == cmds[i + 1];
        }
      }
      var m' := if c.cmdCode == CmdSetMode then c.param1 else mode;
      DrainWithoutQuit(m', cmds[1..]);
      LastModeCons(mode, c, cmds[1..]);
      CountSetModeCons(c, cmds[1..]);
      if c.cmdCode == CmdSetMode {
        assert [CmdAck] + Acks(CountSetMode(cmds[1..])) == Acks(CountSetMode(cmds));
      }
    }
  }

  /** At the first quit the drain stops: the commands before it are applied
      in order, each set-mode and the quit are acknowledged once, and the
      commands after the quit stay queued. */
  lemma {:induction false} DrainStopsAtQuit(mode: int, cmds: seq<CommandMessage>, i: nat)
    requires i < |cmds| && cmds[i].cmdCode == CmdQuit && NoQuit(cmds[..i])
    ensures Drain(mode, cmds)
         == DrainResult(LastMode(mode, cmds[..i]), false, cmds[i + 1..],
                        Acks(CountSetMode(cmds[..i]) + 1))
    decreases i
  {
    if i == 0 {
      assert cmds[..0] == [];
    } else {
      var c := cmds[0];
      assert c.cmdCode != CmdQuit by { assert cmds[..i][0] == c; }
      var tail := cmds[1..];
      assert tail[..i - 1] == cmds[1..i];
      assert cmds[..i] == [c] + tail[..i - 1];
      var before := tail[..i - 1];
      assert NoQuit(before) by {
        forall j | 0 <= j < |before| ensures before[j].cmdCode != CmdQuit {
          assert before[j] == cmds[..i][j + 1];
        }
      }
      assert tail[i - 1] == cmds[i];
      assert tail[i..] == cmds[i + 1..];
      var m' := if c.cmdCode == CmdSetMode then c.param1 else mode;
      DrainStopsAtQuit(m', tail, i - 1);
      LastModeCons(mode, c, tail[..i - 1]);
      CountSetModeCons(c, tail[..i - 1]);
      if c.cmdCode == CmdSetMode {
        assert [CmdAck] + Acks(CountSetMode(tail[..i - 1]) + 1)
            == Acks(CountSetMode(cmds[..i]) + 1);
      }
    }
  }

  /** N set-mode commands drained together give exactly N acknowledgements,
      and the mode of the last one. */
  lemma OneAckPerCommand(mode: int, cmds: seq<CommandMessage>)
    requires forall i :: 0 <= i < |cmds| ==> cmds[i].cmdCode == CmdSetMode
    ensures |Drain(mode, cmds).acks| == |cmds|
    ensures cmds != [] ==> Drain(mode, cmds).mode == cmds[|cmds| - 1].param1
  {
    DrainWithoutQuit(mode, cmds);
    SetModeCountIsLength(cmds);
  }

  lemma {:induction false} SetModeCountIsLength(cmds: seq<CommandMessage>)
    requires forall i :: 0 <= i < |cmds| ==> cmds[i].cmdCode == CmdSetMode
    ensures CountSetMode(cmds) == |cmds|
    decreases |cmds|
  {
    if cmds != [] {
      SetModeCountIsLength(cmds[..|cmds| - 1]);
    }
  }

  // ---------------------------------------------------------------------
  // Event processing (second loop of process_midi)
  // ---------------------------------------------------------------------

  /** Quiet mode: an event is echoed when its velocity is under the
      threshold, or when the threshold is 0 (quiet mode off). */
  predicate ShouldEcho(velocity: int, threshold: int) {
    velocity < threshold || threshold == 0
  }

  /** The control note: low A with velocity 0. */
  predicate IsControl(e: MidiEvent) {
    e.data1 == ControlNote && e.data2 == 0
  }

  /** The event written for an input event: channel bit 1 ORed into the
      status, the note transformed, velocity and timestamp kept. */
  function Echo(mode: int, e: MidiEvent): (o: MidiEvent)
    ensures o.status & 1 == 1 && o.status & 0xFE == e.status & 0xFE
    ensures o.data2 == e.data2 && o.timestamp == e.timestamp
  {
    MidiEvent(e.status | 1, TransformNote(mode, e.data1), e.data2, e.timestamp)
  }

  /** What processing reads leaves: the mode and the events written, in
      order. */
  datatype EventsResult = EventsResult(mode: int, out: seq<MidiEvent>)

  /** One pass of the event loop. An overflow is skipped; an event is
      transformed with the current mode and echoed through the quiet-mode
      gate, and a control note then advances the mode. */
  function HandleRead(mode: int, threshold: int, read: ReadResult): EventsResult {
    match read
    case BufferOverflow => EventsResult(mode, [])
    case Received(e) =>
      EventsResult(if IsControl(e) then NextMode(mode) else mode,
                   if ShouldEcho(e.data2, threshold) then [Echo(mode, e)] else [])
  }

  /** The event loop over the reads the transport delivers in one tick. */
  function ProcessEvents(mode: int, threshold: int, polled: seq<ReadResult>): (r: EventsResult)
    ensures |r.out| <= |polled|
    decreases |polled|
  {
    if polled == [] then
      EventsResult(mode, [])
    else
      var h := HandleRead(mode, threshold, polled[0]);
      var rest := ProcessEvents(h.mode, threshold, polled[1..]);
      EventsResult(rest.mode, h.out + rest.out)
  }

  /** Every event in `out` carries channel bit 1 and passed the quiet-mode
      gate. */
  predicate Gated(out: seq<MidiEvent>, threshold: int) {
    forall i :: 0 <= i < |out| ==> out[i].status & 1 == 1 && ShouldEcho(out[i].data2, threshold)
  }

  /** Every written event carries channel bit 1 and passed the quiet-mode
      gate. */
  lemma {:induction false} WrittenEventsPassGate(mode: int, threshold: int,
                                                 polled: seq<ReadResult>)
    ensures Gated(ProcessEvents(mode, threshold, polled).out, threshold)
    decreases |polled|
  {
    if polled != [] {
      var h := HandleRead(mode, threshold, polled[0]);
      WrittenEventsPassGate(h.mode, threshold, polled[1..]);
      var out := ProcessEvents(mode, threshold, polled).out;
      var rest := ProcessEvents(h.mode, threshold, polled[1..]).out;
      assert out == h.out + rest;
      forall i | 0 <= i < |out|
        ensures out[i].status & 1 == 1 && ShouldEcho(out[i].data2, threshold)
      {
        if i < |h.out| {
          var e := polled[0].event;
          assert h.out == [Echo(mode, e)] && ShouldEcho(e.data2, threshold);
          assert out[i] == Echo(mode, e);
        } else {
          assert out[i] == rest[i - |h.out|];
          assert Gated(rest, threshold);
        }
      }
    }
  }

  /** Reference count: events actually received (not overflows). */
  function ReceivedCount(polled: seq<ReadResult>): nat
    decreases |polled|
  {
    if polled == [] then 0
    else (if polled[0].Received? then 1 else 0) + ReceivedCount(polled[1..])
  }

  /** Reference count: control notes received. */
  function ControlCount(polled: seq<ReadResult>): nat
    decreases |polled|
  {
    if polled == [] then 0
    else (if polled[0].Received? && IsControl(polled[0].event) then 1 else 0)
         + ControlCount(polled[1..])
  }

  /** The mode advances once per control note received, and only then. */
  lemma {:induction false} ModeAdvancesPerControlNote(mode: int, threshold: int,
                                                      polled: seq<ReadResult>)
    ensures ProcessEvents(mode, threshold, polled).mode == Cycle(mode, ControlCount(polled))
    decreases |polled|
  {
    if polled != [] {
      var next := HandleRead(mode, threshold, polled[0]).mode;
      ModeAdvancesPerControlNote(next, threshold, polled[1..]);
    }
  }

  /** Reference count: received events that pass the quiet-mode gate. */
  function GatedCount(threshold: int, polled: seq<ReadResult>): nat
    decreases |polled|
  {
    if polled == [] then 0
    else (if polled[0].Received? && ShouldEcho(polled[0].event.data2, threshold) then 1 else 0)
         + GatedCount(threshold, polled[1..])
  }

  /** One write per received event that passes the gate, and none for any
      other read. */
  lemma {:induction false} OneWritePerGatedEvent(mode: int, threshold: int,
                                                 polled: seq<ReadResult>)
    ensures |ProcessEvents(mode, threshold, polled).out| == GatedCount(threshold, polled)
    decreases |polled|
  {
    if polled != [] {
      var next := HandleRead(mode, threshold, polled[0]).mode;
      OneWritePerGatedEvent(next, threshold, polled[1..]);
    }
  }

  /** Reference definition of the output, built from the last read back:
      the reads before the last one write what they write, and the last
      one, when it is a received event that passes the gate, adds its echo
      under the mode reached after the control notes before it. */
  function Written(mode: int, threshold: int, polled: seq<ReadResult>): seq<MidiEvent>
    decreases |polled|
  {
    if polled == [] then []
    else
      var before := polled[..|polled| - 1];
      var last := polled[|polled| - 1];
      Written(mode, threshold, before)
      + (if last.Received? && ShouldEcho(last.event.data2, threshold)
         then [Echo(Cycle(mode, ControlCount(before)), last.event)]
         else [])
  }

  /** The event loop writes exactly the reference output: each gated
      received event, in order, echoed under the mode in force when it was
      read. */
  lemma {:induction false} ProcessEventsWritesExactly(mode: int, threshold: int,
                                                      polled: seq<ReadResult>)
    ensures ProcessEvents(mode, threshold, polled).out == Written(mode, threshold, polled)
    decreases |polled|
  {
    if polled != [] {
      var before := polled[..|polled| - 1];
      var last := polled[|polled| - 1];
      assert polled == before + [last];
      ProcessEventsAppend(mode, threshold, before, [last]);
      ProcessEventsWritesExactly(mode, threshold, before);
      ModeAdvancesPerControlNote(mode, threshold, before);
      var ra := ProcessEvents(mode, threshold, before);
      assert ProcessEvents(ra.mode, threshold, [last]).out
          == HandleRead(ra.mode, threshold, last).out;
    }
  }

  /** With quiet mode off every received event is echoed: one output per
      input event, overflows excepted. */
  lemma {:induction false} EchoAllWithoutThreshold(mode: int, polled: seq<ReadResult>)
    ensures |ProcessEvents(mode, 0, polled).out| == ReceivedCount(polled)
    decreases |polled|
  {
    if polled != [] {
      var next := HandleRead(mode, 0, polled[0]).mode;
      EchoAllWithoutThreshold(next, polled[1..]);
    }
  }

  predicate NotesWithin(polled: seq<ReadResult>, lo: int, hi: int) {
    forall i :: 0 <= i < |polled| && polled[i].Received? ==>
      lo <= polled[i].event.data1 <= hi
  }

  /** Input notes 0..124 give output notes 0..124 under every mode. */
  lemma {:induction false} OutputNotesInRange(mode: int, threshold: int, polled: seq<ReadResult>)
    requires NotesWithin(polled, 0, 2 * Axis)
    ensures forall i :: 0 <= i < |ProcessEvents(mode, threshold, polled).out| ==>
              0 <= ProcessEvents(mode, threshold, polled).out[i].data1 <= 2 * Axis
    decreases |polled|
  {
    if polled != [] {
      assert NotesWithin(polled[1..], 0, 2 * Axis) by {
        forall i | 0 <= i < |polled[1..]| && polled[1..][i].Received?
          ensures 0 <= polled[1..][i].event.data1 <= 2 * Axis
        {
          assert polled[1..][i] == polled[i + 1];
        }
      }
      var next := HandleRead(mode, threshold, polled[0]).mode;
      OutputNotesInRange(next, threshold, polled[1..]);
    }
  }

  /** Splitting the reads between two ticks (with no command in between)
      writes the same events and ends in the same mode. */
  lemma {:induction false} ProcessEventsAppend(mode: int, threshold: int,
                                               a: seq<ReadResult>, b: seq<ReadResult>)
    ensures var ra := ProcessEvents(mode, threshold, a);
            var rb := ProcessEvents(ra.mode, threshold, b);
            ProcessEvents(mode, threshold, a + b) == EventsResult(rb.mode, ra.out + rb.out)
    decreases |a|
  {
    if a == [] {
      assert a + b == b;
    } else {
      assert (a + b)[1..] == a[1..] + b;
      assert (a + b)[0] == a[0];
      var h := HandleRead(mode, threshold, a[0]);
      ProcessEventsAppend(h.mode, threshold, a[1..], b);
      var r1 := ProcessEvents(h.mode, threshold, a[1..]);
      var rb := ProcessEvents(r1.mode, threshold, b);
      assert (h.out + r1.out) + rb.out == h.out + (r1.out + rb.out);
    }
  }

  /** A single control note is still transformed (and echoed) with the mode
      in force before it; the mode advances only afterwards. */
  lemma ControlNoteUsesOldMode(mode: int, threshold: int, e: MidiEvent)
    requires IsControl(e)
    ensures ProcessEvents(mode, threshold, [Received(e)]).mode == NextMode(mode)
    ensures ProcessEvents(mode, threshold, [Received(e)]).out
         == if 0 < threshold || threshold == 0
            then [MidiEvent(e.status | 1, TransformNote(mode, ControlNote), 0, e.timestamp)]
            else []
  {
  }

  /** Quiet mode with threshold 50: of two events with velocities 40 and
      60 only the first is written; with threshold 0 any event is written. */
  lemma QuietModeExamples(mode: int, e40: MidiEvent, e60: MidiEvent, e: MidiEvent)
    requires e40.data2 == 40 && e60.data2 == 60
    ensures ProcessEvents(mode, 50, [Received(e40), Received(e60)]).out == [Echo(mode, e40)]
    ensures ProcessEvents(mode, 0, [Received(e)]).out == [Echo(mode, e)]
  {
  }

  /** Note-on 144 / note 60 / velocity 64 with no transposition and quiet
      mode off gives exactly (145, 60, 64); note 50 under left-ascending
      becomes 74. */
  lemma PassThroughScenario(ts: int)
    ensures ProcessEvents(NoTransposition, 0, [Received(MidiEvent(144, 60, 64, ts))]).out
         == [MidiEvent(145, 60, 64, ts)]
    ensures ProcessEvents(LeftAscending, 0, [Received(MidiEvent(144, 50, 64, ts))]).out
         == [MidiEvent(145, 74, 64, ts)]
  {
  }

  // ---------------------------------------------------------------------
  // The program's shared state and the callback
  // ---------------------------------------------------------------------

  /** The globals of pianomirror.c that the callback and the main thread
      share, with the two command queues and the output stream. */
  class MidiProcessor {
    var mode: int
    var splitPoint: int
    var threshold: int
    var active: bool
    var commands: seq<CommandMessage>
    var acks: seq<int>
    var output: seq<MidiEvent>

    /** The program's state at load time, before initialize(). */
    constructor ()
      ensures mode == NoTransposition && splitPoint == DefaultSplitPoint
      ensures threshold == 0 && !active
      ensures commands == [] && acks == [] && output == []
    {
      mode := NoTransposition;
      splitPoint := DefaultSplitPoint;
      threshold := 0;
      active := false;
      commands := [];
      acks := [];
      output := [];
    }

    /** The end of initialize(): the callback is switched on. */
    method Activate()
      modifies this
      ensures active
      ensures mode == old(mode) && splitPoint == old(splitPoint) && threshold == old(threshold)
      ensures commands == old(commands) && acks == old(acks) && output == old(output)
    {
      active := true;
    }

    /** DoNextTranspositionMode. */
    method NextTranspositionMode()
      modifies this
      ensures mode == NextMode(old(mode))
      ensures active == old(active) && splitPoint == old(splitPoint) && threshold == old(threshold)
      ensures commands == old(commands) && acks == old(acks) && output == old(output)
    {
      if mode == NoTransposition {
        mode := LeftAscending;
      } else if mode == LeftAscending {
        mode := RightDescending;
      } else if mode == RightDescending {
        mode := MirrorImage;
      } else if mode == MirrorImage {
        mode := NoTransposition;
      }
    }

    /** The main thread's direct write of the quiet-mode threshold. */
    method SetVelocityThreshold(n: int)
      modifies this
      ensures threshold == n
      ensures mode == old(mode) && active == old(active) && splitPoint == old(splitPoint)
      ensures commands == old(commands) && acks == old(acks) && output == old(output)
    {
      threshold := n;
    }

    /** The main thread posting a command (the enqueue half of
        set_transposition_mode and signalExitToCallBack). */
    method PostCommand(c: CommandMessage)
      modifies this
      ensures commands == old(commands) + [c]
      ensures mode == old(mode) && active == old(active) && splitPoint == old(splitPoint)
      ensures threshold == old(threshold) && acks == old(acks) && output == old(output)
    {
      commands := commands + [c];
    }

    /** One tick of process_midi, given the reads the input stream
        delivers while it polls. An inactive callback does nothing. An
        active one drains the command queue; after a quit it returns at
        once, leaving the rest of the queue and the input unread; otherwise
        it processes every read. */
    method ProcessMidi(polled: seq<ReadResult>)
      modifies this
      ensures splitPoint == old(splitPoint) && threshold == old(threshold)
      ensures !old(active) ==>
                !active && mode == old(mode) && commands == old(commands)
                && acks == old(acks) && output == old(output)
      ensures old(active) ==>
                var d := Drain(old(mode), old(commands));
                var e := ProcessEvents(d.mode, old(threshold), polled);
                active == d.active && commands == d.pending && acks == old(acks) + d.acks
                && mode == (if d.active then e.mode else d.mode)
                && output == old(output) + (if d.active then e.out else [])
    {
      if !active {
        return;
      }
      DrainCommands();
      if !active {
        return;
      }
      HandleEvents(polled);
    }

    /** The first loop of process_midi: dequeue and handle commands until
        the queue is empty or a quit has been handled. */
    method DrainCommands()
      requires active
      modifies this
      ensures var d := Drain(old(mode), old(commands));
              mode == d.mode && active == d.active && commands == d.pending
              && acks == old(acks) + d.acks
      ensures splitPoint == old(splitPoint) && threshold == old(threshold)
      ensures output == old(output)
    {
      ghost var d := Drain(mode, commands);
      ghost var sent: seq<int> := [];
      while commands != []
        invariant active && acks == old(acks) + sent
        invariant splitPoint == old(splitPoint) && threshold == old(threshold)
        invariant output == old(output)
        invariant Drain(mode, commands).mode == d.mode
        invariant Drain(mode, commands).active == d.active
        invariant Drain(mode, commands).pending == d.pending
        invariant sent + Drain(mode, commands).acks == d.acks
        decreases |commands|
      {
        var cmd := commands[0];
        ghost var sent0 := sent;
        ghost var next := Drain(if cmd.cmdCode == CmdSetMode then cmd.param1 else mode,
                                commands[1..]);
        assert cmd.cmdCode != CmdQuit ==>
          Drain(mode, commands)
            == if cmd.cmdCode == CmdSetMode then next.(acks := [CmdAck] + next.acks) else next;
        commands := commands[1..];
        if cmd.cmdCode == CmdQuit {
          acks := acks + [CmdAck];
          sent := sent + [CmdAck];
          active := false;
          return;
        } else if cmd.cmdCode == CmdSetSplitPoint {
          // consumed without effect and without an acknowledgement
        } else if cmd.cmdCode == CmdSetMode {
          mode := cmd.param1;
          acks := acks + [CmdAck];
          sent := sent + [CmdAck];
          assert sent + next.acks == sent0 + ([CmdAck] + next.acks);
        }
      }
    }

    /** The second loop of process_midi over the reads of one tick. */
    method HandleEvents(polled: seq<ReadResult>)
      modifies this
      ensures var e := ProcessEvents(old(mode), old(threshold), polled);
              mode == e.mode && output == old(output) + e.out
      ensures active == old(active) && commands == old(commands) && acks == old(acks)
      ensures splitPoint == old(splitPoint) && threshold == old(threshold)
    {
      ghost var e := ProcessEvents(mode, threshold, polled);
      ghost var written: seq<MidiEvent> := [];
      var rest := polled;
      while rest != []
        invariant active == old(active) && commands == old(commands) && acks == old(acks)
        invariant splitPoint == old(splitPoint) && threshold == old(threshold)
        invariant output == old(output) + written
        invariant e == ProcessEvents(mode, threshold, rest)
                         .(out := written + ProcessEvents(mode, threshold, rest).out)
        decreases |rest|
      {
        ghost var h := HandleRead(mode, threshold, rest[0]);
        ghost var tail := ProcessEvents(h.mode, threshold, rest[1..]);
        assert ProcessEvents(mode, threshold, rest) == EventsResult(tail.mode, h.out + tail.out);
        assert (written + h.out) + tail.out == written + (h.out + tail.out);
        HandleEvent(rest[0]);
        written := written + h.out;
        rest := rest[1..];
      }
    }

    /** The body of the second loop for one read: skip an overflow;
        otherwise OR channel 1 into the status, transform the note, write
        the event if the quiet-mode gate lets it through, and cycle the
        mode on the control note. */
    method HandleEvent(read: ReadResult)
      modifies this
      ensures var h := HandleRead(old(mode), old(threshold), read);
              mode == h.mode && output == old(output) + h.out
      ensures active == old(active) && commands == old(commands) && acks == old(acks)
      ensures splitPoint == old(splitPoint) && threshold == old(threshold)
    {
      if read.Received? {
        var ev := read.event;
        var newNote := TransformNote(mode, ev.data1);
        var status := ev.status | 1;
        if ShouldEcho(ev.data2, threshold) {
          output := output + [MidiEvent(status, newNote, ev.data2, ev.timestamp)];
        }
        if ev.data1 == ControlNote && ev.data2 == 0 {
          NextTranspositionMode();
        }
      }
    }
  }
}

/**
 What single state methods leave behind: the device open or closed, the input skipped to a SYN, nothing kept of a
 message that was received or refused, and a bus that is freed by one SYN.
 */
module Outcomes {
  import opened Wrappers
  import opened Bytes
  import opened Escape
  import opened Sequences
  import opened TelegramValues
  import opened Language
  import opened BusModel
  import opened Machine
  import opened Runs
  import opened Framing
  import opened Transfers
  import opened Results
  import Responses

  // ---------- A received message is published once ----------

  /** `processMessage` never fails, takes one reaction, and either starts a response or keeps nothing. */
  lemma ProcessLeaves(b: Bus)
    ensures var r := Process(b);
            && r.Ok? && (r.value == MonitorBus || r.value == SendResponse)
            && r.bus.reactions == (if b.reactions == [] then [] else b.reactions[1..])
            && r.bus.log == b.log && r.bus.device == b.device && r.bus.active == b.active && r.bus.queue == b.queue
            && r.bus.address == b.address && r.bus.lockCounter == b.lockCounter
            && (r.value == MonitorBus ==> r.bus.sequence == EMPTY && r.bus.passive == b.passive)
  {
    hide CreateMaster, CreateSlave, MasterArgument;
  }

  /** A response is due exactly when the callback gives one that is acceptable, to a master-slave message. */
  lemma RespondsExactly(b: Bus)
    ensures var t := CreateMaster(CLEARED, b.sequence.Logical());
            Process(b).value == SendResponse <==>
              && t.kind == MS && b.reactions != [] && b.reactions[0].Response?
              && CreateSlave(t, b.reactions[0].data).slaveState == 0
  {
    hide CreateMaster, CreateSlave, MasterArgument;
  }

  /** With nothing heard since the last SYN, a SYN publishes nothing. */
  lemma SilentSyn(b: Bus)
    requires b.sequence.bytes == [] && HeaderReady(b) && b.device.input[0].byte == SYN
    ensures Monitor(b).Ok? && Monitor(b).bus.log.published == b.log.published
  {
    hide Parse;
  }

  /** A message to which no response is given is not published again by the SYN that follows. */
  lemma NotPublishedAgain(b: Bus)
    requires Process(b).value == MonitorBus && HeaderReady(b) && b.device.input[0].byte == SYN
    ensures var r := Monitor(Process(b).bus); r.Ok? && r.bus.log.published == b.log.published
  {
    hide Process, Monitor;
    ProcessLeaves(b);
    SilentSyn(Process(b).bus);
  }

  /**
   A frame for everybody, or from master to master, that comes in in wire form is published once: when it is received,
   without a response, and neither by `processMessage` nor by the SYN that follows.
   */
  lemma PublishedOnce(b: Bus, m: seq<Byte>, rest: seq<Input>)
    requires MasterFrame(m) && NoEscaped(m[..5]) && KindOf(m[1]) != MS && b.sequence == Buffer(m[..2], true)
    requires b.device.input == Datas(m[2..5]) + (Datas(Extend(m[5..] + [FrameCrc(m)])) + rest)
    requires Receive(b).Ok?
    ensures var r := Receive(b);
            && r.value == ProcessMessage && r.bus.sequence.Logical() == Sealed(m)
            && r.bus.log.published == b.log.published + [Publication(Extend(m), [])]
    ensures var r := Process(Receive(b).bus);
            && r.Ok? && r.value == MonitorBus && r.bus.log.published == b.log.published + [Publication(Extend(m), [])]
            && (HeaderReady(r.bus) && r.bus.device.input[0].byte == SYN ==>
                 Monitor(r.bus).bus.log.published == b.log.published + [Publication(Extend(m), [])])
  {
    hide Reduce, Extend, Shortest, FrameCrc, IsMaster, KindOf, Receive, Process, Monitor, Datas, Take, CreateMaster,
      CreateSlave, Acceptable;
    CleanFramePublished(b, m, rest);
    var c := Receive(b).bus;
    ProcessLeaves(c);
    RespondsExactly(c);
    Responses.MasterCreated(m);
    if HeaderReady(Process(c).bus) && Process(c).bus.device.input[0].byte == SYN {
      SilentSyn(Process(c).bus);
    }
  }

  // ---------- Listening starts with nothing heard ----------

  /** On every run: when another state method leads to listening, nothing is left of what it read. */
  lemma ListeningStartsEmpty(s: Sys, state: State)
    requires Reached(s) && s.pc == Exec(state) && state != MonitorBus && Step(s).pc == Check(MonitorBus)
    ensures Step(s).bus.sequence.bytes == []
  {
    hide Reached, Good, Sound, Claimed, Awaiting, Finished, Execute, Ready;
    ReachedTracked(s);
    InvariantGood(s);
    GoodReady(s.bus, state);
    LeavesEmpty(s.bus, state);
  }

  lemma LeavesEmpty(b: Bus, s: State)
    requires Ready(b, s) && s != MonitorBus && (s == LockBus ==> b.sequence.bytes == [])
    requires Guarded(b, s).Ok? && Guarded(b, s).value == MonitorBus
    ensures Guarded(b, s).bus.sequence.bytes == []
  {
    hide Idle, Open, Receive, Process, Respond, Lock, Send, Listen, Free, Reset;
    if Execute(b, s).Raise? {
      ResetEmpty(Mark(Execute(b, s).bus, EBUS_ERR_DEVICE));
    } else {
      ExecutedEmpty(b, s);
    }
  }

  lemma ResetEmpty(b: Bus)
    ensures Reset(b).sequence == EMPTY && Reset(b).device == b.device
  {
  }

  lemma ExecutedEmpty(b: Bus, s: State)
    requires Ready(b, s) && s != MonitorBus && (s == LockBus ==> b.sequence.bytes == [])
    requires Execute(b, s).Ok? && Execute(b, s).value == MonitorBus
    ensures Execute(b, s).bus.sequence.bytes == []
  {
    hide Idle, Open, Receive, Process, Respond, Lock, SendTry, ListenTry, Free, Reset;
    match s
    case OpenDevice => OpenedEmpty(b);
    case ReceiveMessage => ReceivedEmpty(b);
    case ProcessMessage => ProcessLeaves(b);
    case SendResponse => RespondedEmpty(b);
    case LockBus => LockKeepsSequence(b);
    case SendMessage => SentEmpty(b, 1);
    case ReceiveResponse => ListenedEmpty(b, 1);
    case FreeBus => FreedEmpty(b);
    case _ =>
  }

  lemma OpenedEmpty(b: Bus)
    ensures Open(b).Ok? ==> Open(b).bus.sequence == EMPTY
  {
    hide Flush;
    FlushedEmpty(b);
    var d := b.device;
    var b1 := if d.openings == [] then b else b.(device := d.(openings := d.openings[1..]));
    FlushedEmpty(b1.(device := b1.device.(open := true)));
  }

  lemma FlushedEmpty(b: Bus)
    ensures Flush(b).Ok? ==> Flush(b).bus.sequence == EMPTY
    decreases |b.device.input|
  {
    hide Read;
    var r := Read(b);
    if r.Ok? && r.value != SYN {
      ReadTakes(b);
      FlushedEmpty(r.bus);
    }
  }

  lemma ReadTakes(b: Bus)
    ensures Read(b).Ok? ==> |Read(b).bus.device.input| < |b.device.input|
  {
  }

  lemma ReceivedEmpty(b: Bus)
    requires Ready(b, ReceiveMessage)
    ensures Receive(b).Ok? && Receive(b).value == MonitorBus ==> Receive(b).bus.sequence == EMPTY
  {
    hide ReceiveHeader, ReceiveBytes, CreateMaster, MasterArgument, WriteRead, Reset;
    var r := ReceiveHeader(b, 3);
    if r.Ok? {
      ResetEmpty(Mark(r.bus, EBUS_ERR_TRANSMIT));
    }
  }

  lemma RespondedEmpty(b: Bus)
    requires b.passive.Some?
    ensures Respond(b).Ok? ==> Respond(b).bus.sequence == EMPTY
  {
    hide RespondTry;
  }

  lemma LockKeepsSequence(b: Bus)
    requires Ready(b, LockBus)
    ensures Lock(b).bus.sequence == b.sequence
  {
    hide SamePriority;
  }

  lemma SentEmpty(b: Bus, retry: nat)
    requires b.active.Some? && retry <= |b.active.value.tel.master.bytes|
    ensures SendTry(b, retry).Ok? ==> SendTry(b, retry).value != MonitorBus
    decreases retry
  {
    hide SendOnce;
    SendOnceLeads(b, retry);
    var r := SendOnce(b, retry);
    if r.Ok? && r.value.None? && retry > 0 {
      SentEmpty(r.bus, retry - 1);
    }
  }

  lemma SendOnceLeads(b: Bus, from: nat)
    requires b.active.Some? && from <= |b.active.value.tel.master.bytes|
    ensures SendOnce(b, from).Ok? ==> SendOnce(b, from).value != Some(MonitorBus)
  {
    hide WriteAll, WriteRead, Read;
  }

  lemma ListenedEmpty(b: Bus, retry: nat)
    requires b.active.Some?
    ensures ListenTry(b, retry).Ok? && ListenTry(b, retry).value == MonitorBus ==>
              ListenTry(b, retry).bus.sequence == EMPTY
    decreases retry
  {
    hide ListenOnce;
    ListenOnceEmpty(b);
    var r := ListenOnce(b);
    if r.Ok? && r.value.None? && retry > 0 {
      ListenedEmpty(r.bus, retry - 1);
    }
  }

  lemma ListenOnceEmpty(b: Bus)
    requires b.active.Some?
    ensures ListenOnce(b).Ok? && ListenOnce(b).value == Some(MonitorBus) ==> ListenOnce(b).bus.sequence == EMPTY
  {
    hide Read, Take, AnswerResponse, Count, Reset;
    var r := Read(b);
    if r.Ok? {
      ResetEmpty(Mark(r.bus, EBUS_ERR_TRANSMIT));
      AnswerLeads(Hear(r.bus, Take(r.bus.device.input, Count(r.value) + 1)), r.value);
    }
  }

  lemma AnswerLeads(b: Bus, nn: Byte)
    requires b.active.Some?
    ensures forall s: Buffer :: AnswerResponse(b, s).Ok? ==> AnswerResponse(b, s).value != Some(MonitorBus)
  {
    hide CreateSlave, WriteRead, Reduce;
  }

  // ---------- Freeing the bus ----------

  /** The bus is freed by writing one SYN and reading one byte back, whatever that is. */
  lemma FreedBySyn(b: Bus)
    ensures Free(b).Ok? ==>
              && Free(b).bus.log.written == b.log.written + [0xaa] && |Free(b).bus.log.heard| == |b.log.heard| + 1
              && Free(b).value == MonitorBus && Free(b).bus.active.None? && Free(b).bus.lockCounter == b.lockMax
  {
    hide WriteRead;
    WriteReadLog(b, SYN);
  }

  lemma FreedEmpty(b: Bus)
    ensures Free(b).Ok? ==> Free(b).bus.sequence == EMPTY
  {
    hide WriteRead;
  }

  lemma WriteReadLog(b: Bus, x: Byte)
    ensures var r := WriteRead(b, x);
            r.Ok? ==> r.bus.log.written == b.log.written + [x] && |r.bus.log.heard| == |b.log.heard| + 1
  {
  }

  // ---------- Opening ----------

  /** The device is open, or opens when asked to. */
  predicate Openable(d: Device) {
    d.open || d.openings == [] || d.openings[0] == Opens
  }

  /** After skipping the bytes `w` and a SYN the participant is online and listens, with a full countdown. */
  predicate OpenedAfter(b: Bus, r: Run<State>, w: seq<Byte>, rest: seq<Input>) {
    && r.Ok? && r.value == MonitorBus && r.bus.online && r.bus.device.open && r.bus.device.input == rest
    && r.bus.log.heard == b.log.heard + (w + [SYN]) && r.bus.log.written == b.log.written
    && r.bus.sequence == EMPTY && r.bus.lockCounter == b.lockMax && r.bus.openCounter == 0 && r.bus.queue == b.queue
  }

  lemma {:induction false} FlushSkips(b: Bus, w: seq<Byte>, rest: seq<Input>)
    requires NoSyn(w) && b.device.open && b.device.input == Datas(w) + ([Data(SYN)] + rest)
    ensures OpenedAfter(b, Flush(b), w, rest)
    decreases |w|
  {
    if w == [] {
      assert b.device.input == [Data(SYN)] + rest;
      assert [] + [SYN] == w + [SYN];
    } else {
      hide Datas, Flush;
      var x, w' := w[0], w[1..];
      assert w == [x] + w';
      DatasCons(x, w', [Data(SYN)] + rest);
      FlushStep(b);
      FlushSkips(Read(b).bus, w', rest);
      assert b.log.heard + [x] + (w' + [SYN]) == b.log.heard + (w + [SYN]);
    }
  }

  lemma FlushStep(b: Bus)
    requires HeaderReady(b) && b.device.input[0].byte != SYN
    ensures Read(b).Ok? && Flush(b) == Flush(Read(b).bus)
  {
  }

  lemma {:induction false} FlushHeard(b: Bus) returns (w: seq<Byte>, rest: seq<Input>)
    requires Flush(b).Ok?
    ensures NoSyn(w) && b.device.input == Datas(w) + ([Data(SYN)] + rest)
    decreases |b.device.input|
  {
    var x := b.device.input[0].byte;
    if x == SYN {
      w, rest := [], b.device.input[1..];
      assert b.device.input == [Data(SYN)] + rest;
    } else {
      hide Flush, Datas;
      FlushStep(b);
      var w';
      w', rest := FlushHeard(Read(b).bus);
      w := [x] + w';
      DatasCons(x, w', [Data(SYN)] + rest);
      assert b.device.input == [Data(x)] + b.device.input[1..];
    }
  }

  /** When the device opens and a SYN comes, `openDevice` completes, and the first SYN is the last byte it reads. */
  lemma OpensExactly(b: Bus, w: seq<Byte>, rest: seq<Input>)
    requires NoSyn(w) && b.device.input == Datas(w) + ([Data(SYN)] + rest) && Openable(b.device)
    ensures OpenedAfter(b, Open(b), w, rest)
  {
    hide Flush, Datas;
    if b.device.open {
      FlushSkips(b, w, rest);
    } else {
      var d := b.device;
      var b1 := if d.openings == [] then b else b.(device := d.(openings := d.openings[1..]));
      FlushSkips(b1.(device := b1.device.(open := true)), w, rest);
    }
  }

  /** It completes in no other case. */
  lemma OpenedHeard(b: Bus) returns (w: seq<Byte>, rest: seq<Input>)
    requires Open(b).Ok?
    ensures NoSyn(w) && b.device.input == Datas(w) + ([Data(SYN)] + rest) && Openable(b.device)
    ensures OpenedAfter(b, Open(b), w, rest)
  {
    hide Flush, Datas;
    if b.device.open {
      w, rest := FlushHeard(b);
    } else {
      var d := b.device;
      var b1 := if d.openings == [] then b else b.(device := d.(openings := d.openings[1..]));
      w, rest := FlushHeard(b1.(device := b1.device.(open := true)));
    }
    OpensExactly(b, w, rest);
  }

  // ---------- The device fails ----------

  /** The states that read first, and those that write first. */
  predicate ReadsFirst(b: Bus, s: State) {
    s == MonitorBus || s == ReceiveMessage || s == ReceiveResponse || (s == OpenDevice && b.device.open)
  }

  predicate WritesFirst(s: State) {
    s == SendResponse || s == LockBus || s == SendMessage || s == FreeBus
  }

  /** The device fails at once. */
  predicate FailsAtOnce(b: Bus, s: State) {
    || (ReadsFirst(b, s) && b.device.input != [] && b.device.input[0] == Fault)
    || (WritesFirst(s) && b.device.faults != [] && b.device.faults[0])
    || (s == OpenDevice && !Openable(b.device))
  }

  /** Nothing comes in. */
  predicate StaysSilent(b: Bus, s: State) {
    ReadsFirst(b, s) && (b.device.input == [] || b.device.input[0] == Timeout)
  }

  /** After a failure the device is closed and opened again; after silence it is left as it is, and listening starts. */
  lemma FailureHandled(b: Bus, s: State)
    requires Ready(b, s)
    ensures FailsAtOnce(b, s) ==>
              var r := Guarded(b, s);
              r.Ok? && r.value == OpenDevice && !r.bus.device.open && r.bus.sequence == EMPTY && r.bus.active.None?
    ensures StaysSilent(b, s) ==>
              var r := Guarded(b, s);
              r.Ok? && r.value == MonitorBus && r.bus.device.open == b.device.open && r.bus.sequence == EMPTY
              && r.bus.active.None?
  {
    hide Execute, Reset;
    if FailsAtOnce(b, s) {
      FailsWithError(b, s);
    }
    if StaysSilent(b, s) {
      FirstReadFails(b, s);
    }
    SignalHandled(b, s);
  }

  lemma SignalHandled(b: Bus, s: State)
    ensures var e := Execute(b, s);
            e.Raise? && e.signal != Crash ==>
              var r := Guarded(b, s);
              && r.Ok? && r.value == (if e.signal == Error then OpenDevice else MonitorBus)
              && r.bus.device.open == (e.signal != Error && e.bus.device.open)
              && r.bus.sequence == EMPTY && r.bus.active.None?
  {
    hide Execute;
  }

  /** A read that fails ends a state method that reads first. */
  lemma FirstReadFails(b: Bus, s: State)
    requires Ready(b, s) && ReadsFirst(b, s) && Read(b).Raise?
    ensures var e := Execute(b, s); e.Raise? && e.signal == Read(b).signal && e.bus == Read(b).bus
  {
    hide Read, Decode, Elect, CountDown, Due, Addressed, Answer, Take;
    match s
    case MonitorBus => assert Monitor(b).Raise?;
    case ReceiveMessage => assert ReceiveHeader(b, 3).Raise?;
    case ReceiveResponse => assert ListenOnce(b).Raise?;
    case OpenDevice => assert Flush(b).Raise?;
  }

  lemma FailsWithError(b: Bus, s: State)
    requires Ready(b, s) && FailsAtOnce(b, s)
    ensures Execute(b, s).Raise? && Execute(b, s).signal == Error
  {
    hide Execute, Ready;
    if ReadsFirst(b, s) && b.device.input != [] && b.device.input[0] == Fault {
      FirstReadFails(b, s);
    } else if WritesFirst(s) {
      WriteFails(b, s);
    } else {
      OpeningFails(b);
    }
  }

  lemma OpeningFails(b: Bus)
    requires !Openable(b.device)
    ensures Execute(b, OpenDevice).Raise? && Execute(b, OpenDevice).signal == Error
  {
    hide Flush;
  }

  lemma WriteFails(b: Bus, s: State)
    requires Ready(b, s) && WritesFirst(s) && b.device.faults != [] && b.device.faults[0]
    ensures Execute(b, s).Raise? && Execute(b, s).signal == Error
  {
    hide Read, WriteAll, Reset, SamePriority;
    match s
    case SendResponse => FirstWriteFails(b, b.passive.value.slave.bytes, b.passive.value.slaveCRC);
    case SendMessage => FirstWriteFails(b, b.active.value.tel.master.bytes[1..], b.active.value.tel.masterCRC);
    case LockBus => assert Lock(b).Raise?;
    case FreeBus => assert Free(b).Raise?;
  }

  lemma FirstWriteFails(b: Bus, s: seq<Byte>, c: Byte)
    requires b.device.faults != [] && b.device.faults[0]
    ensures var r := WriteAll(b, s);
            if s == [] then r == Ok(b, ()) && WriteRead(b, c).Raise? && WriteRead(b, c).signal == Error
            else r.Raise? && r.signal == Error
  {
  }

  // ---------- Asleep ----------

  /** Closed, offline, and with nothing left to do but what is queued. */
  predicate Resting(b: Bus) {
    !b.device.open && !b.online && b.active.None? && b.passive.None? && b.sequence == EMPTY
  }

  lemma IdleRests(b: Bus)
    ensures Resting(Idle(b))
  {
  }

  lemma ActRests(s: Sys, a: Action)
    requires s.pc == Asleep ==> Resting(s.bus)
    ensures Act(s, a).pc == Asleep ==> Resting(Act(s, a).bus)
  {
    hide Idle, Resting, Submission, Guarded;
    IdleRests(s.bus);
    GuardedIdle(s.bus);
    if a.Enqueue? {
      QueueRests(s.bus, |s.enqueued|, a.vec);
    }
  }

  lemma QueueRests(b: Bus, id: nat, vec: seq<Byte>)
    ensures var m := Submission(b, id, vec);
            m.Some? && Resting(b) ==> Resting(b.(queue := b.queue + [m.value]))
  {
    hide Submission;
  }

  lemma {:induction false} RunRests(s: Sys, actions: seq<Action>)
    requires s.pc == Asleep ==> Resting(s.bus)
    ensures After(s, actions).pc == Asleep ==> Resting(After(s, actions).bus)
    decreases |actions|
  {
    hide Act, Resting;
    if actions != [] {
      ActRests(s, actions[0]);
      RunRests(Act(s, actions[0]), actions[1..]);
    }
  }

  /** On every run: while the thread sleeps the device is closed and the participant offline. */
  lemma AsleepIsClosed(s: Sys)
    requires Reached(s) && s.pc == Asleep
    ensures Resting(s.bus)
  {
    hide After, Resting;
    var address, lockMax, openMax, device, reactions, actions :|
      s == After(Start(address, lockMax, openMax, device, reactions), actions);
    RunRests(Start(address, lockMax, openMax, device, reactions), actions);
  }
}

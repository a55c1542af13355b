/**
 Runs that show the exceptional cases to be real: a crash, a waiting message that is reported as sent by answering
 another one, and transfers reported as success in which the counterpart or a listener gets something else.
 */
module Witnesses {
  import opened Wrappers
  import opened Bytes
  import opened Escape
  import opened Sequences
  import opened TelegramValues
  import opened Language
  import opened BusModel
  import opened Machine
  import opened Runs
  import opened Framing
  import opened Transfers
  import opened Agreement
  import opened Cooperation
  import opened Delivery
  import opened Receiving
  import opened Addresses
  import Crc
  import Monitoring
  import Responses
  import Results

  // ---------- A crash ----------

  /** Every participant can be crashed by five bytes. */
  lemma CrashHappens(address: Byte, lockMax: int, reactions: seq<Reaction>, q: Byte, pb: Byte, sb: Byte)
      returns (s: Sys)
    requires q != SYN
    ensures Reached(s) && s.pc == Exec(ReceiveMessage) && OversizedUnasked(s.bus) && Step(s).pc.Crashed?
  {
    hide Reached, Guarded, Turns, Step;
    var tail := [Data(pb), Data(sb), Data(0x11)];
    var s0 := Listening(address, lockMax, [Data(q), Data(BROAD)] + tail, reactions);
    HeaderTurns(s0.bus, q, BROAD, tail);
    TurnsReached(s0, MonitorBus, 2);
    var s1 := s0.(bus := Turns(s0.bus, MonitorBus, 2).bus, pc := Check(ReceiveMessage));
    ReachedStep(s1);
    s := Step(s1);
    assert s == s1.(pc := Exec(ReceiveMessage)) by {
      CheckedStep(s1, ReceiveMessage);
    }
    CrashExactly(s);
  }

  /** With the own address EXP, six bytes that decode to a single one crash the participant as well. */
  lemma ShortCrashHappens(lockMax: int, reactions: seq<Reaction>) returns (s: Sys)
    ensures Reached(s) && s.pc == Exec(ReceiveMessage) && !OversizedUnasked(s.bus) && Step(s).pc.Crashed?
  {
    hide Reached, Guarded, Turns, Step;
    var tail := [Data(EXP), Data(EXP), Data(0x00), Data(SYN)];
    var s0 := Listening(EXP, lockMax, [Data(EXP), Data(EXP)] + tail, reactions);
    HeaderTurns(s0.bus, EXP, EXP, tail);
    TurnsReached(s0, MonitorBus, 2);
    var s1 := s0.(bus := Turns(s0.bus, MonitorBus, 2).bus, pc := Check(ReceiveMessage));
    ReachedStep(s1);
    s := Step(s1);
    assert s == s1.(pc := Exec(ReceiveMessage)) by {
      CheckedStep(s1, ReceiveMessage);
    }
    ShortForEscapeAddress(s.bus);
    CrashExactly(s);
  }

  lemma CheckedStep(s: Sys, state: State)
    requires s.pc == Check(state) && !s.close
    ensures Step(s) == s.(pc := Exec(state))
  {
  }

  // ---------- Reported as sent by answering another message ----------

  /** The device gives the acknowledgement its echo. */
  lemma AnswerTurn(b: Bus, echo: Byte, rest: seq<Input>)
    requires var s := b.sequence.Logical();
             var t, a := CreateMaster(CLEARED, s), MasterArgument(s);
             t.masterState == SEQ_OK && t.kind == MS && |a.bytes| >= 2 && a.bytes[1] != BROAD
    requires Feeding(b, [echo], rest)
    ensures Answer(b) == Ok(Fed(b.(sequence := MasterArgument(b.sequence.Logical())), [echo], [ACK], echo == ACK, rest),
                            ProcessMessage)
  {
    hide CreateMaster, MasterArgument, Reduce, WriteRead, Fed;
    WriteReadFed(b.(sequence := MasterArgument(b.sequence.Logical())), ACK, echo, rest);
  }

  /** The device gives the response its echo and an acknowledgement. */
  lemma RespondTurn(b: Bus, e: seq<Byte>, rest: seq<Input>)
    requires b.passive.Some? && |e| == |b.passive.value.slave.bytes| + 1 && Feeding(b, e + [ACK], rest)
    ensures Respond(b).Ok?
  {
    hide WriteAll, WriteRead, Read, Fed, Datas, RespondTry, Reset;
    var t := b.passive.value;
    var m := t.slave.bytes;
    var h, y := e[..|m|], e[|m|];
    assert e == h + [y] && e + [ACK] == h + ([y] + [ACK]);
    DatasAppend(h, [y] + [ACK], rest);
    DatasAppend([y], [ACK], rest);
    WriteAllFed(b, m, h, Datas([y] + [ACK]) + rest);
    FeedingOn(b, h, m, h == m, [y], Datas([ACK]) + rest);
    var b1 := Fed(b, h, m, h == m, Datas([y] + [ACK]) + rest);
    WriteReadFed(b1, t.slaveCRC, y, Datas([ACK]) + rest);
    FedTwice(b, h, m, h == m, Datas([y] + [ACK]) + rest, [y], [t.slaveCRC], y == t.slaveCRC, Datas([ACK]) + rest);
    var same := h == m && y == t.slaveCRC;
    FeedingOn(b, h + [y], m + [t.slaveCRC], same, [ACK], rest);
    ReadFed(Fed(b, h + [y], m + [t.slaveCRC], same, Datas([ACK]) + rest), ACK, rest);
    Responses.RespondTryUnfolds(b, t, 1);
  }

  /** A question without data for the slave address of `address`, and the answer that is given to it. */
  function Question(address: Byte): seq<Byte> {
    [0x10, SlaveAddress(address), 0x00, 0x00, 0x00]
  }

  const DATA: seq<Byte> := [0x01, 0x00]

  lemma QuestionFrame(address: Byte)
    requires IsMaster(address)
    ensures var m := Question(address);
            MasterFrame(m) && NoEscaped(m) && KindOf(m[1]) == MS && m[1] != BROAD && |m| == 5
  {
    hide IsMaster, SlaveAddress;
    SlaveOfMaster(address);
    assert IsMaster(0x10) by {
      PlainMaster();
    }
  }

  lemma PlainMaster()
    ensures IsMaster(0x10) && IsMaster(0xff)
  {
  }

  lemma DataAccepted()
    ensures var t := CreateSlave(CLEARED, DATA); t.slaveState == SEQ_OK && t.slave.bytes == DATA
  {
    hide CrcOf;
  }

  /** The rest of the question, the echo of our acknowledgement, the echo of our response, and its acknowledgement. */
  function QuestionInput(address: Byte): seq<Input> {
    var m := Question(address);
    Datas(m[2..]) + (Datas(Extend([FrameCrc(m)])) + (Datas([ACK]) + (Datas([0x01, 0x00, 0x00, ACK]) + [])))
  }

  lemma QuestionArrives(b: Bus)
    requires IsMaster(b.address) && b.sequence == Buffer(Question(b.address)[..2], true)
    requires b.device.input == QuestionInput(b.address) && b.device.faults == []
    ensures var m, r := Question(b.address), Receive(b);
            && r.Ok? && r.value == ProcessMessage && r.bus.sequence.Logical() == Sealed(m)
            && r.bus.device == b.device.(input := Datas([0x01, 0x00, 0x00, ACK]) + [])
            && r.bus.active == b.active && r.bus.reactions == b.reactions && r.bus.log.completed == b.log.completed
  {
    hide Datas, Receive, Answer, CreateMaster, MasterArgument, FrameCrc, IsMaster, KindOf, Extend, Reduce, Question,
      SlaveAddress;
    var m := Question(b.address);
    QuestionFrame(b.address);
    var c, rest := FrameCrc(m), Datas([ACK]) + (Datas([0x01, 0x00, 0x00, ACK]) + []);
    var p := Extend([c]);
    QuestionStart(b.address);
    FrameConsumed([c], rest);
    TakesShortest(p, rest, 1);
    assert Arriving(b, m, p, rest);
    ReceiveGathers(b, m, p, rest);
    var a := Arrived(b, m, p, rest);
    ReducePlain(m, p);
    ReduceExtend([c]);
    assert Reduce(m + p) == Sealed(m);
    Responses.MasterCreated(m);
    RebuiltMaster(Sealed(m));
    SealedStart(m);
    MasterArgumentStart(Sealed(m));
    assert Feeding(a, [ACK], Datas([0x01, 0x00, 0x00, ACK]) + []);
    AnswerTurn(a, ACK, Datas([0x01, 0x00, 0x00, ACK]) + []);
  }

  lemma QuestionStart(address: Byte)
    ensures Question(address)[4] == 0x00 && |Question(address)| == 5
  {
  }

  lemma SealedStart(m: seq<Byte>)
    requires |m| == 5 && NoEscaped(m)
    ensures var s := Sealed(m); |s| >= 2 && !Escaped(s[0]) && !Escaped(s[1]) && s[1] == m[1]
  {
    hide FrameCrc;
  }

  /** The response is built and can be sent. */
  lemma QuestionAnswered(b: Bus)
    requires IsMaster(b.address) && b.sequence == Buffer(Question(b.address)[..2], true)
    requires b.device.input == QuestionInput(b.address) && b.device.faults == []
    requires b.reactions == [Reaction.Response(DATA)]
    ensures var r := Turns(b, ReceiveMessage, 2);
            && r.Ok? && r.value == SendResponse && r.bus.active == b.active
            && Execute(r.bus, SendResponse).Ok?
  {
    hide Receive, Process, Respond, Datas, Guarded, FrameCrc, IsMaster, KindOf, CreateSlave, QuestionInput, Sealed,
      Feeding;
    var m := Question(b.address);
    QuestionArrives(b);
    QuestionFrame(b.address);
    var b1 := Receive(b).bus;
    DataAccepted();
    Responses.ResponseBuilt(b1, m, DATA);
    var b2 := Process(b1).bus;
    OneTurn(b, ReceiveMessage);
    OneTurn(b1, ProcessMessage);
    TurnsConcat(b, ReceiveMessage, 1, 1);
    ProcessKeeps(b1, DATA);
    assert [0x01, 0x00, 0x00] + [ACK] == [0x01, 0x00, 0x00, ACK];
    FeedingKept(b2, [0x01, 0x00, 0x00, ACK]);
    RespondTurn(b2, [0x01, 0x00, 0x00], []);
  }

  lemma FeedingKept(b: Bus, h: seq<Byte>)
    requires b.device.faults == [] && b.device.input == Datas(h) + []
    ensures Feeding(b, h, [])
  {
  }

  lemma ProcessKeeps(b: Bus, data: seq<Byte>)
    requires b.reactions == [Reaction.Response(data)] && Process(b).value == SendResponse
    requires CreateSlave(CLEARED, data).slaveState == SEQ_OK && CreateSlave(CLEARED, data).slave.bytes == data
    ensures var c := Process(b).bus;
            c.device == b.device && c.active == b.active && c.passive.Some? && |c.passive.value.slave.bytes| == |data|
  {
    hide CreateMaster, MasterArgument, CrcOf, Extend;
  }

  /**
   While an accepted message waits for the bus, a question to the own slave address is answered; that hands back the
   waiting message with zero, although it was not sent.
   */
  lemma WaitingMessageLost(address: Byte, vec: seq<Byte>) returns (s: Sys)
    requires Accepted(address, vec)
    ensures Reached(s) && s.pc == Exec(SendResponse) && s.bus.active.Some? && !WasSent(s.bus)
    ensures Execute(s.bus, SendResponse).Ok?
    ensures |Step(s).bus.log.completed| == |s.bus.log.completed| + 1
    ensures Step(s).bus.log.completed[|s.bus.log.completed|].state == SEQ_OK
  {
    hide Reached, Guarded, Turns, Step, WasSent, Question, QuestionInput, SlaveAddress, CreateMaster, Accepted, Monitor,
      Respond;
    AcceptedFromMaster(address, vec);
    var m := Question(address);
    QuestionHead(address);
    var tail := [Data(m[0]), Data(m[1])] + QuestionInput(address);
    var s0 := Submitted(address, 5, [Data(SYN)] + tail, [Reaction.Response(DATA)], vec);
    SynStep(s0.bus, tail);
    OneTurn(s0.bus, MonitorBus);
    var b1 := Monitor(s0.bus).bus;
    HeaderTurns(b1, m[0], m[1], QuestionInput(address));
    TurnsConcat(s0.bus, MonitorBus, 1, 2);
    var b3 := Turns(b1, MonitorBus, 2).bus;
    QuestionAnswered(b3);
    TurnsConcat(s0.bus, MonitorBus, 3, 2);
    TurnsReached(s0, MonitorBus, 5);
    var s5 := s0.(bus := Turns(s0.bus, MonitorBus, 5).bus, pc := Check(SendResponse));
    ReachedStep(s5);
    s := Step(s5);
    CheckedStep(s5, SendResponse);
    Results.WaitingMessageReportedSent(s);
    SentExactly(s, SendResponse);
  }

  lemma QuestionHead(address: Byte)
    requires IsMaster(address)
    ensures var m := Question(address);
            m[0] != SYN && m[1] != SYN && m[1] == SlaveAddress(address) && m[..2] == [m[0], m[1]] && |m| == 5
  {
    hide SlaveAddress, IsMaster;
    SlaveOfMaster(address);
  }

  // ---------- Successful transfers that a listener does not get ----------

  /** The first response has a wrong checksum, the second one is right. */
  function Repeated(t: Tel, f: seq<Byte>, c: Byte): Exchange {
    Exchange([Attempt(Frame(t), Some(ACK))], [Spoken(f, c), Spoken(f, FrameCrc(f))])
  }

  lemma RepeatedSent(t: Tel, f: seq<Byte>, c: Byte)
    requires |Frame(t)| > 2 && t.kind == MS && SlaveFrame(f) && c != FrameCrc(f)
    ensures var x := Repeated(t, f, c);
            Sent(x, t) && Replied(x, t) && Succeeded(x, t) && Echoed(x, Frame(t)) && AllNoSyn(x.replies)
  {
    hide Correct, Framed, FrameCrc, SlaveFrame;
    SpokenAnswered(f, c);
    SpokenAnswered(f, FrameCrc(f));
  }

  /** A response that succeeds at the second try is reported as success, and is lost on every listener. */
  lemma SecondTryHappens(address: Byte, lockMax: nat, vec: seq<Byte>, f: seq<Byte>, c: Byte)
      returns (s: Sys, x: Exchange)
    requires Accepted(address, vec) && Made(address, vec).tel.kind == MS && WireExact(Made(address, vec).tel)
    requires SlaveFrame(f) && c != FrameCrc(f)
    ensures CleanSuccess(s, x) && s.bus.active.value.tel.kind == MS && !Parse(Reduce(Trace(s.bus.log))).IsValid()
    ensures x == Repeated(Made(address, vec).tel, f, c)
    ensures |Step(s).bus.log.completed| == 1 && Step(s).bus.log.completed[0].state == SEQ_OK
  {
    hide Reached, Sent, Replied, Succeeded, CreateMaster, Accepted, Transcript, Step, Parse, Reduce, Trace, Echoed,
      FrameCrc, SlaveFrame, AllNoSyn;
    var t := Made(address, vec).tel;
    AcceptedReady(Begun(address, 0, [], [], []).(active := Some(Made(address, vec))), address, vec);
    x := Repeated(t, f, c);
    RepeatedSent(t, f, c);
    s := EveryTransferHappens(address, lockMax, [], vec, x);
    CleanRun(s, t, x);
    WireExactSame(s.bus.active.value.tel, t);
    SenderAndListenerAgree(s, x);
  }

  lemma CleanRun(s: Sys, t: Tel, x: Exchange)
    requires Reached(s) && AboutToFree(s, t, x) && Succeeded(x, t) && Echoed(x, Frame(t))
    ensures CleanSuccess(s, x)
  {
    hide Reached, Sent, Replied, Heard, Written, Echoed;
    SameFrame(x, t, s.bus.active.value.tel);
  }

  lemma WireExactSame(t: Tel, u: Tel)
    requires SameMaster(t, u)
    ensures WireExact(t) <==> WireExact(u)
  {
  }

  // ---------- Broadcasts, heard and not ----------

  /** Whoever hears the bytes `w` and enough SYN bytes after them receives the frame `m`. */
  ghost predicate EverybodyGets(w: seq<Byte>, m: seq<Byte>) {
    forall b: Bus, k: nat, rest: seq<Input> :: Incoming(b, w, k, rest) ==> Takes(b, m)
  }

  /** Nobody does. */
  ghost predicate NobodyGets(w: seq<Byte>, m: seq<Byte>) {
    forall b: Bus, k: nat, rest: seq<Input> :: Incoming(b, w, k, rest) ==> !Takes(b, m)
  }

  /** Every broadcast is reported as success. Everybody gets it when it is audible, and nobody does otherwise. */
  lemma BroadcastHappens(address: Byte, lockMax: nat, vec: seq<Byte>) returns (s: Sys, x: Exchange)
    requires Accepted(address, vec) && Made(address, vec).tel.kind == BC
    ensures CleanSuccess(s, x) && s.bus.active.value.tel.kind == BC
    ensures var m, w := s.bus.active.value.tel.master.Logical(), Trace(s.bus.log);
            if Audible(Made(address, vec).tel) then EverybodyGets(w, m) else NobodyGets(w, m)
    ensures |Step(s).bus.log.completed| == 1 && Step(s).bus.log.completed[0].state == SEQ_OK
  {
    hide Reached, Sent, Replied, Succeeded, CreateMaster, Accepted, Transcript, Step, Trace, Incoming, Takes,
      Audible, Sendable, Heard;
    var t := Made(address, vec).tel;
    AcceptedReady(Begun(address, 0, [], [], []).(active := Some(Made(address, vec))), address, vec);
    x := Plain(t, []);
    PlainSent(t, []);
    s := EveryTransferHappens(address, lockMax, [], vec, x);
    CleanRun(s, t, x);
    SuccessFacts(s, x);
    var u := s.bus.active.value.tel;
    FrameHeard(u, x);
    AudibleSame(u, t);
    BroadcastTaken(u);
  }

  lemma AudibleSame(t: Tel, u: Tel)
    requires SameMaster(t, u)
    ensures Audible(t) <==> Audible(u)
  {
    hide Mended, NoEscaped, Reduce;
  }

  lemma BroadcastTaken(t: Tel)
    requires Sendable(t) && t.kind == BC
    ensures if Audible(t) then EverybodyGets(Frame(t), t.master.Logical()) else NobodyGets(Frame(t), t.master.Logical())
  {
    hide Takes, Audible, Sendable, Datas, Units, Count;
    forall b: Bus, k: nat, rest: seq<Input> | Incoming(b, Frame(t), k, rest)
      ensures Takes(b, t.master.Logical()) <==> Audible(t)
    {
      FrameTaken(b, t, k, rest);
    }
  }

  // ---------- Responses ----------

  /**
   Every complete response that the rules accept is reported as success, whatever the counterpart meant by it, and what
   it decodes to is stored.
   */
  lemma AcceptedResponseHappens(address: Byte, lockMax: nat, vec: seq<Byte>, bytes: seq<Byte>)
      returns (s: Sys, x: Exchange)
    requires Accepted(address, vec) && Made(address, vec).tel.kind == MS && Framed(bytes) && Correct(bytes)
    ensures CleanSuccess(s, x) && x.replies == [Reply(bytes, ACK, ACK)]
    ensures s.bus.active.value.tel.slave.Logical() == ResponseFrame(bytes)
    ensures |Step(s).bus.log.completed| == 1 && Step(s).bus.log.completed[0].state == SEQ_OK
  {
    hide Reached, Sent, Replied, Succeeded, CreateMaster, Accepted, Transcript, Step, Framed, Correct, ResponseFrame,
      SlaveIs;
    var t := Made(address, vec).tel;
    AcceptedReady(Begun(address, 0, [], [], []).(active := Some(Made(address, vec))), address, vec);
    var y := Reply(bytes, ACK, ACK);
    x := Plain(t, [y]);
    PlainSent(t, [y]);
    s := EveryTransferHappens(address, lockMax, [], vec, x);
    CleanRun(s, t, x);
    SuccessFacts(s, x);
    StoredFrame(s.bus.active.value.tel, bytes);
  }

  /** A response whose checksum byte arrives as SYN is reported as success, whatever its data. */
  lemma UncheckedHappens(address: Byte, lockMax: nat, vec: seq<Byte>, d: Byte) returns (s: Sys, x: Exchange)
    requires Accepted(address, vec) && Made(address, vec).tel.kind == MS && !Escaped(d)
    ensures CleanSuccess(s, x) && |x.replies| == 1 && Unchecked(x.replies[0].bytes) && !Checked(x.replies[0].bytes)
    ensures |Step(s).bus.log.completed| == 1 && Step(s).bus.log.completed[0].state == SEQ_OK
  {
    hide CleanSuccess, CreateMaster, Accepted, Step, Framed, SynCount, Checked, Unchecked;
    var bytes: seq<Byte> := [0x01, d, SYN];
    UncheckedResponse(d);
    SynUnchecked(bytes);
    s, x := AcceptedResponseHappens(address, lockMax, vec, bytes);
  }

  lemma SynUnchecked(bytes: seq<Byte>)
    requires |bytes| == 3 && bytes[2] == SYN
    ensures !Checked(bytes)
  {
    hide Reduce, FrameCrc;
  }

  // ---------- The vectors of the test program ----------

  lemma OneMore(s: seq<Byte>, b: Byte, t: seq<Byte>)
    requires s + [b] == t
    ensures Crc.Remainder(t) == Crc.CalcCrc(b, Crc.Remainder(s))
  {
    Crc.RemainderSnoc(s, b);
  }

  const MESSAGE: seq<Byte> := [0xff, 0x52, 0xb5, 0x09, 0x03, 0x0d, 0x06, 0x00]

  /** Table steps, in the order of the message. */
  lemma FirstSteps()
    ensures Crc.CalcCrc(0xff, 0x00) == 0xff
    ensures Crc.CalcCrc(0x52, 0xff) == 0x29
    ensures Crc.CalcCrc(0xb5, 0x29) == 0x53
    ensures Crc.CalcCrc(0x09, 0x53) == 0xc5
  {
  }

  lemma LastSteps()
    ensures Crc.CalcCrc(0x03, 0xc5) == 0x9a
    ensures Crc.CalcCrc(0x0d, 0x9a) == 0x80
    ensures Crc.CalcCrc(0x06, 0x80) == 0x0d
    ensures Crc.CalcCrc(0x00, 0x0d) == 0x43
  {
  }

  /** The checksum of the message in the test program is the one given there. */
  lemma MessageChecksum()
    ensures FrameCrc(MESSAGE) == 0x43
  {
    hide Crc.Remainder, Crc.CalcCrc, Extend;
    assert NoEscaped(MESSAGE);
    ExtendFixedPoint(MESSAGE);
    Crc.RemainderEmpty();
    FirstSteps();
    LastSteps();
    OneMore([], 0xff, [0xff]);
    OneMore([0xff], 0x52, [0xff, 0x52]);
    OneMore([0xff, 0x52], 0xb5, [0xff, 0x52, 0xb5]);
    OneMore([0xff, 0x52, 0xb5], 0x09, [0xff, 0x52, 0xb5, 0x09]);
    OneMore([0xff, 0x52, 0xb5, 0x09], 0x03, [0xff, 0x52, 0xb5, 0x09, 0x03]);
    OneMore([0xff, 0x52, 0xb5, 0x09, 0x03], 0x0d, [0xff, 0x52, 0xb5, 0x09, 0x03, 0x0d]);
    OneMore([0xff, 0x52, 0xb5, 0x09, 0x03, 0x0d], 0x06, [0xff, 0x52, 0xb5, 0x09, 0x03, 0x0d, 0x06]);
    OneMore([0xff, 0x52, 0xb5, 0x09, 0x03, 0x0d, 0x06], 0x00, MESSAGE);
  }

  /** It is accepted as a master-slave message, and is stored in wire form. */
  lemma MessageAccepted()
    ensures var t := Made(0xff, MESSAGE[1..]).tel;
            Accepted(0xff, MESSAGE[1..]) && t.kind == MS && Frame(t) == MESSAGE + [0x43] && WireExact(t)
  {
    hide IsMaster, CrcOf, Extend, WireExact, FrameCrc;
    var vec := MESSAGE[1..];
    assert [0xff] + vec == MESSAGE;
    PlainMaster();
    MessageChecksum();
    FrameCrcOf(MESSAGE);
    assert MESSAGE[..8] == MESSAGE;
    NotMaster();
    assert NoEscaped(MESSAGE);
    WireExactExactly(0xff, vec);
  }

  lemma NotMaster()
    ensures !IsMaster(0x52)
  {
  }

  /** Answered correctly at the second try, the message of the test program is lost on every listener. */
  lemma MessageLost(c: Byte) returns (s: Sys, x: Exchange)
    requires c != FrameCrc([0x00])
    ensures CleanSuccess(s, x) && x.attempts == [Attempt(MESSAGE + [0x43], Some(ACK))]
    ensures x.replies == [Spoken([0x00], c), Spoken([0x00], FrameCrc([0x00]))]
    ensures !Parse(Reduce(Trace(s.bus.log))).IsValid()
    ensures |Step(s).bus.log.completed| == 1 && Step(s).bus.log.completed[0].state == SEQ_OK
  {
    hide CleanSuccess, WireExact, Parse, Reduce, Trace, Accepted, CreateMaster, Step, FrameCrc, Spoken;
    MessageAccepted();
    s, x := SecondTryHappens(0xff, 5, MESSAGE[1..], [0x00], c);
  }

  // ---------- The response of the test program ----------

  const RESPONSE: seq<Byte> := [0x03, 0xb0, 0xfb, SYN]

  lemma ResponseSteps()
    ensures Crc.CalcCrc(0x03, 0x00) == 0x03
    ensures Crc.CalcCrc(0xb0, 0x03) == 0x86
    ensures Crc.CalcCrc(0xfb, 0x86) == 0x9c
    ensures Crc.CalcCrc(0xa9, 0x9c) == 0x48
    ensures Crc.CalcCrc(0x01, 0x48) == 0xd0
  {
  }

  lemma ResponseChecksum()
    ensures FrameCrc(RESPONSE) == 0xd0
  {
    hide Crc.Remainder, Crc.CalcCrc, Extend;
    PlainThenSyn([0x03, 0xb0, 0xfb]);
    Crc.RemainderEmpty();
    ResponseSteps();
    OneMore([], 0x03, [0x03]);
    OneMore([0x03], 0xb0, [0x03, 0xb0]);
    OneMore([0x03, 0xb0], 0xfb, [0x03, 0xb0, 0xfb]);
    OneMore([0x03, 0xb0, 0xfb], 0xa9, [0x03, 0xb0, 0xfb, 0xa9]);
    OneMore([0x03, 0xb0, 0xfb, 0xa9], 0x01, [0x03, 0xb0, 0xfb, 0xa9, 0x01]);
    assert [0x03, 0xb0, 0xfb] + [SYN] == RESPONSE && [0x03, 0xb0, 0xfb] + [EXP, 0x01] == [0x03, 0xb0, 0xfb, 0xa9, 0x01];
  }

  lemma PlainThenSyn(p: seq<Byte>)
    requires NoEscaped(p)
    ensures Extend(p + [SYN]) == p + [EXP, 0x01]
  {
    ExtendConcat(p, [SYN]);
    ExtendFixedPoint(p);
    OneCode(SYN);
  }

  /**
   Supplied as it stands in the test program, the response is accepted, and goes out as 03 b0 fb aa d0. That decodes to
   03 b0 fb a9, without a checksum.
   */
  lemma ResponseDistorted(t: Tel)
    ensures var u := CreateSlave(t, RESPONSE);
            && u.slaveState == SEQ_OK && u.slave.Logical() == RESPONSE && !ResponseAudible(u)
            && Responses.Response(u) == RESPONSE + [0xd0]
    ensures var bytes := RESPONSE + [0xd0];
            Framed(bytes) && Correct(bytes) && ResponseFrame(bytes) == [0x03, 0xb0, 0xfb, 0xa9]
  {
    hide FrameCrc, Reduce, Shortest, Mended, NoEscaped;
    ResponseChecksum();
    ResponseHeard();
    FrameCrcOf(RESPONSE);
    var u := CreateSlave(t, RESPONSE);
    ResponseAudibleExactly(t, RESPONSE);
    assert RESPONSE + [0xd0] == [0x03, 0xb0, 0xfb] + [SYN] + [0xd0];
    PlainStart();
    OneSynDecoded([0x03, 0xb0, 0xfb], 0xd0);
  }

  /** The response of the test program is acknowledged, reported as success, and stored with another last byte. */
  lemma ResponseCorrupted(address: Byte, lockMax: nat, vec: seq<Byte>) returns (s: Sys, x: Exchange)
    requires Accepted(address, vec) && Made(address, vec).tel.kind == MS
    ensures CleanSuccess(s, x) && x.replies == [Reply(Responses.Response(CreateSlave(CLEARED, RESPONSE)), ACK, ACK)]
    ensures s.bus.active.value.tel.slave.Logical() == [0x03, 0xb0, 0xfb, 0xa9] != RESPONSE
    ensures |Step(s).bus.log.completed| == 1 && Step(s).bus.log.completed[0].state == SEQ_OK
  {
    hide CleanSuccess, CreateMaster, Accepted, Step, Framed, Correct, ResponseFrame;
    ResponseDistorted(CLEARED);
    s, x := AcceptedResponseHappens(address, lockMax, vec, RESPONSE + [0xd0]);
  }

  lemma ResponseHeard()
    ensures var bytes := RESPONSE + [0xd0];
            Framed(bytes) && Correct(bytes) && ResponseFrame(bytes) == [0x03, 0xb0, 0xfb, 0xa9]
  {
    hide Reduce, Shortest, FrameCrc, SynCount;
    var bytes := RESPONSE + [0xd0];
    assert bytes == [0x03, 0xb0, 0xfb] + [SYN] + [0xd0] && bytes[3] == SYN;
    OneSynDecoded([0x03, 0xb0, 0xfb], 0xd0);
    EveryByteCounts(bytes[1..]);
    assert [0x03, 0xb0, 0xfb] + [0xa9] == [0x03, 0xb0, 0xfb, 0xa9];
  }

  /** A SYN takes the place of an escape for the byte after it. */
  lemma OneSynDecoded(p: seq<Byte>, c: Byte)
    requires NoEscaped(p) && !Escaped(c) && c != 0x01
    ensures var f := p + [SYN] + [c]; Reduce(f) == p + [EXP] && SynCount(f) == 1 && !Mended(f) && !NoEscaped(f)
  {
    hide Reduce, SynCount;
    OneEscapeDecoded(p, SYN, [c]);
    SynCountZero(p);
    SynCountZero([c]);
    SynCountConcat(p + [SYN], [c]);
    SynCountConcat(p, [SYN]);
    OneSynCounted();
    var f := p + [SYN] + [c];
    forall i | 0 <= i < |f|
      ensures !Mends(f, i)
    {
      assert f[|p|] == SYN && f[|p| + 1] == c;
      if i < |p| {
        assert f[i] == p[i];
      }
    }
  }

  lemma PlainStart()
    ensures NoEscaped([0x03, 0xb0, 0xfb])
  {
  }

  lemma OneSynCounted()
    ensures SynCount([SYN]) == 1
  {
  }

  // ---------- Three broadcasts ----------

  const HEADER: seq<Byte> := [0xff, 0xfe, 0x05, 0x07, 0x01]
  const HEADER77: seq<Byte> := [0xff, 0xfe, 0x05, 0x77, 0x01]

  lemma HeaderSteps()
    ensures Crc.CalcCrc(0xff, 0x00) == 0xff
    ensures Crc.CalcCrc(0xfe, 0xff) == 0x85
    ensures Crc.CalcCrc(0x05, 0x85) == 0x54
    ensures Crc.CalcCrc(0x07, 0x54) == 0x3c
    ensures Crc.CalcCrc(0x01, 0x3c) == 0x8f
  {
  }

  lemma BodySteps()
    ensures Crc.CalcCrc(0xa9, 0x8f) == 0x4c
    ensures Crc.CalcCrc(0x01, 0x4c) == 0x11
    ensures Crc.CalcCrc(0x4f, 0x8f) == 0xaa
    ensures Crc.CalcCrc(0x77, 0x54) == 0x4c
    ensures Crc.CalcCrc(0xa9, 0x11) == 0x00
    ensures Crc.CalcCrc(0x01, 0x00) == 0x01
  {
  }

  lemma HeaderRemainders()
    ensures Crc.Remainder(HEADER) == 0x8f && Crc.Remainder([0xff, 0xfe, 0x05]) == 0x54
  {
    hide Crc.Remainder, Crc.CalcCrc;
    Crc.RemainderEmpty();
    HeaderSteps();
    OneMore([], 0xff, [0xff]);
    OneMore([0xff], 0xfe, [0xff, 0xfe]);
    OneMore([0xff, 0xfe], 0x05, [0xff, 0xfe, 0x05]);
    OneMore([0xff, 0xfe, 0x05], 0x07, [0xff, 0xfe, 0x05, 0x07]);
    OneMore([0xff, 0xfe, 0x05, 0x07], 0x01, HEADER);
  }

  lemma PlainHeaders()
    ensures NoEscaped(HEADER) && NoEscaped(HEADER77) && NoEscaped(HEADER + [0x4f])
    ensures !Escaped(0x11) && !Escaped(0x01) && Escaped(SYN) && Decoded(0x01) == SYN
  {
  }

  lemma BroadcastChecksums()
    ensures FrameCrc(HEADER + [SYN]) == 0x11
    ensures FrameCrc(HEADER77 + [SYN]) == 0x01
    ensures FrameCrc(HEADER + [0x4f]) == SYN
  {
    hide Crc.Remainder, Crc.CalcCrc, Extend, NoEscaped;
    PlainHeaders();
    HeaderRemainders();
    BodySteps();
    HeaderSteps();
    PlainThenSyn(HEADER);
    OneMore(HEADER, EXP, HEADER + [EXP]);
    OneMore(HEADER + [EXP], 0x01, HEADER + [EXP, 0x01]);
    PlainThenSyn(HEADER77);
    OneMore([0xff, 0xfe, 0x05], 0x77, [0xff, 0xfe, 0x05, 0x77]);
    OneMore([0xff, 0xfe, 0x05, 0x77], 0x01, HEADER77);
    OneMore(HEADER77, EXP, HEADER77 + [EXP]);
    OneMore(HEADER77 + [EXP], 0x01, HEADER77 + [EXP, 0x01]);
    ExtendFixedPoint(HEADER + [0x4f]);
    OneMore(HEADER, 0x4f, HEADER + [0x4f]);
  }

  /** The bytes after the source address, with and without their checksum. */
  lemma HeadersJoined(d: Byte)
    ensures [0xff] + [0xfe, 0x05, 0x07, 0x01, d] == HEADER + [d]
    ensures [0xff] + [0xfe, 0x05, 0x77, 0x01, d] == HEADER77 + [d]
    ensures [0xff] + [0xfe, 0x05, 0x07, 0x01, 0x4f, d] == HEADER + [0x4f] + [d]
  {
  }

  /**
   A data byte SYN in an unsealed frame is not heard; with the checksum 01 it mends itself, and is. A sealed frame with
   a data byte is heard although its checksum is SYN. None of the three is stored in wire form.
   */
  lemma ThreeBroadcasts()
    ensures var vec: seq<Byte> := [0xfe, 0x05, 0x07, 0x01, SYN];
            var t := Made(0xff, vec).tel;
            Accepted(0xff, vec) && t.kind == BC && !WireExact(t) && !Audible(t)
    ensures var vec: seq<Byte> := [0xfe, 0x05, 0x77, 0x01, SYN];
            var t := Made(0xff, vec).tel;
            Accepted(0xff, vec) && t.kind == BC && !WireExact(t) && Audible(t)
    ensures var vec: seq<Byte> := [0xfe, 0x05, 0x07, 0x01, 0x4f, SYN];
            var t := Made(0xff, vec).tel;
            Accepted(0xff, vec) && t.kind == BC && !WireExact(t) && Audible(t)
  {
    hide WireExact, Audible, Accepted, CreateMaster, NoEscaped, FrameCrc;
    BroadcastChecksums();
    PlainHeaders();
    HeadersJoined(SYN);
    UnsealedBroadcast(HEADER, [0xfe, 0x05, 0x07, 0x01, SYN]);
    OneSynDecoded(HEADER, 0x11);
    UnsealedBroadcast(HEADER77, [0xfe, 0x05, 0x77, 0x01, SYN]);
    OneSynMended(HEADER77);
    SealedBroadcast(HEADER + [0x4f], [0xfe, 0x05, 0x07, 0x01, 0x4f, SYN]);
  }

  /** What everybody receives instead of the first of them: the data byte is EXP, and the checksum is gone. */
  lemma SynBroadcastDistorted(b: Bus, k: nat, rest: seq<Input>)
    requires Incoming(b, HEADER + [SYN] + [0x11], k, rest)
    ensures Takes(b, HEADER + [EXP])
  {
    hide Takes, Datas, Units, Count, Shortest, FrameCrc, Reduce, Understood, Decoded, MasterFrame;
    var f := HEADER + [SYN] + [0x11];
    var p := [SYN, 0x11];
    PlainHeaders();
    OneByteAnnounced();
    assert f[..5] == HEADER && f[5..] == p && p + Monitoring.Syns(k) == f[5..] + Monitoring.Syns(k);
    EveryByteCounts(p);
    IncomingArrives(b, f, k, rest, p, Monitoring.Syns(k));
    TakesDecoded(b, HEADER, p, Datas(Monitoring.Syns(k)) + rest, HEADER + [EXP]);
    assert HEADER + p == f;
    OneSynDecoded(HEADER, 0x11);
    UnderstoodExactly(HEADER + [EXP], HEADER + [EXP]);
  }

  lemma OneByteAnnounced()
    ensures Count(0x01) == 1 && !Escaped(0xff) && !Escaped(0xfe) && MasterFrame(HEADER + [EXP])
  {
    hide IsMaster;
    PlainMaster();
  }

  lemma OneSynMended(p: seq<Byte>)
    requires NoEscaped(p)
    ensures Mended(p + [SYN] + [0x01])
  {
    PlainHeaders();
    var f := p + [SYN] + [0x01];
    assert f[..|p|] == p && f[|p| + 1..] == [0x01];
    assert Mends(f, |p|);
  }

  lemma UnsealedBroadcast(h: seq<Byte>, vec: seq<Byte>)
    requires |h| == 5 && h[..3] == [0xff, 0xfe, 0x05] && h[4] == 0x01 && [0xff] + vec == h + [SYN]
    ensures var t, f := Made(0xff, vec).tel, h + [SYN];
            && Accepted(0xff, vec) && t.kind == BC && t.masterCRC == FrameCrc(f) && !WireExact(t)
            && (Audible(t) <==> Mended(f + [FrameCrc(f)]))
  {
    hide WireExact, Audible, CrcOf, Extend, IsMaster, Mended, CreateMaster;
    var f := h + [SYN];
    BroadcastShape(f);
    BroadcastMade(f);
    assert f[..6] == f && f[5] == SYN && (f + [FrameCrc(f)])[5] == SYN;
    AudibleExactly(0xff, vec);
    WireExactExactly(0xff, vec);
  }

  lemma SealedBroadcast(f: seq<Byte>, vec: seq<Byte>)
    requires |f| == 6 && f[..3] == [0xff, 0xfe, 0x05] && f[3] == 0x07 && f[4] == 0x01
    requires FrameCrc(f) == SYN && [0xff] + vec == f + [SYN]
    ensures var t := Made(0xff, vec).tel; Accepted(0xff, vec) && t.kind == BC && !WireExact(t) && Audible(t)
  {
    hide WireExact, Audible, CrcOf, Extend, IsMaster, CreateMaster;
    var s := f + [SYN];
    assert s[..6] == f;
    BroadcastShape(s);
    BroadcastMade(s);
    AudibleExactly(0xff, vec);
    WireExactExactly(0xff, vec);
  }

  lemma BroadcastShape(s: seq<Byte>)
    requires |s| >= 6 && s[..3] == [0xff, 0xfe, 0x05] && s[4] == 0x01
    ensures 6 <= |s| <= 7 ==> MasterShape(s) == SEQ_OK && Count(s[4]) == 1 && KindOf(s[1]) == BC
  {
    hide IsMaster;
    assert s[0] == s[..3][0] && s[1] == s[..3][1];
    PlainMaster();
  }

  lemma BroadcastMade(s: seq<Byte>)
    requires 6 <= |s| <= 7 && MasterShape(s) == SEQ_OK && Count(s[4]) == 1 && KindOf(s[1]) == BC
    requires |s| == 7 ==> s[6] == FrameCrc(s[..6])
    ensures var t := CreateMaster(CLEARED, s);
            && t.masterState == SEQ_OK && t.kind == BC && t.masterCRC == if |s| == 6 then FrameCrc(s) else s[6]
  {
    hide MasterShape, KindOf, IsMaster, CrcOf, Count;
    FrameCrcOf(s);
    assert |s| == 6 ==> s[..6] == s;
  }
}

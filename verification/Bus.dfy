/**
 The value of a bus participant and the specification of its state methods. The serial device and the `process`
 callback are scripts: the bytes, timeouts and faults that reads meet, the faults that writes meet, the outcomes of
 opening the device, and the reactions to received messages. What the callbacks observe is logged.
 */
module BusModel {
  import opened Wrappers
  import opened Bytes
  import opened Sequences
  import opened TelegramValues

  datatype State =
    | IdleSystem | OpenDevice | MonitorBus | ReceiveMessage | ProcessMessage
    | SendResponse | LockBus | SendMessage | ReceiveResponse | FreeBus

  // Results of a transmission
  const EBUS_ERR_SEQUENCE := -2
  const EBUS_ERR_TRANSMIT := -3
  const EBUS_ERR_DEVICE := -4
  const EBUS_ERR_OFFLINE := -5

  /** How a state method can end early: the two kinds of device exceptions, and a use of a missing object or byte. */
  datatype Signal = Warning | Error | Crash

  datatype Input = Data(byte: Byte) | Timeout | Fault
  datatype Opening = Opens | Throws
  datatype Reaction = NoFunction | NotDefined | Ignore | Response(data: seq<Byte>)

  /** When a script is exhausted reads meet the end of file, writes succeed and the device opens. */
  datatype Device = Device(open: bool, input: seq<Input>, faults: seq<bool>, openings: seq<Opening>)

  datatype Message = Message(id: nat, tel: Tel, state: int)

  datatype Publication = Publication(message: seq<Byte>, response: seq<Byte>)

  /** What an observer has seen so far. */
  datatype Log = Log(
    heard: seq<Byte>,             // every byte read, as the rawdata callback sees them
    written: seq<Byte>,           // every byte sent
    published: seq<Publication>,
    completed: seq<Message>,      // messages handed back to their callers
    syns: nat, tried: bool,       // since the last reset: SYN bytes met by `monitorBus`, whether the bus was claimed
    lockHeard: nat, lockWritten: nat, echoed: bool)  // since the bus was last claimed: where the transfer starts, and
                                                     // whether every byte sent was read back unchanged

  const SILENCE := Log([], [], [], [], 0, false, 0, 0, true)

  datatype Bus = Bus(
    address: Byte,
    lockMax: int, lockCounter: int, openMax: int, openCounter: int,
    sequence: Buffer, active: Option<Message>, passive: Option<Tel>, online: bool,
    queue: seq<Message>,
    device: Device, reactions: seq<Reaction>,
    log: Log)

  /** The result of a state method, with the state it leaves; a signal cuts the rest of the method short. */
  datatype Run<+T> = Ok(bus: Bus, value: T) | Raise(bus: Bus, signal: Signal) {
    predicate IsFailure() {
      Raise?
    }

    function PropagateFailure<U>(): Run<U>
      requires Raise?
    {
      Raise(bus, signal)
    }

    function Extract(): (Bus, T)
      requires Ok?
    {
      (bus, value)
    }
  }

  // ---------- Device ----------

  predicate NoCrash<T>(r: Run<T>) {
    r.Raise? ==> r.signal != Crash
  }

  /** Talking to the device changes nothing but the scripts and the logs. */
  predicate SameState(a: Bus, b: Bus) {
    && a == b.(device := a.device, log := a.log)
    && a.log == b.log.(heard := a.log.heard, written := a.log.written, echoed := a.log.echoed)
  }

  function Read(b: Bus): (r: Run<Byte>)
    ensures SameState(r.bus, b) && NoCrash(r)
  {
    var d := b.device;
    if d.input == [] then Raise(b, Warning)
    else
      var b' := b.(device := d.(input := d.input[1..]));
      match d.input[0]
      case Data(x) => Ok(b'.(log := b.log.(heard := b.log.heard + [x])), x)
      case Timeout => Raise(b', Warning)
      case Fault => Raise(b', Error)
  }

  function Write(b: Bus, x: Byte): (r: Run<()>)
    ensures SameState(r.bus, b) && NoCrash(r)
  {
    var d := b.device;
    var b' := if d.faults == [] then b else b.(device := d.(faults := d.faults[1..]));
    if d.faults != [] && d.faults[0] then Raise(b', Error)
    else Ok(b'.(log := b.log.(written := b.log.written + [x])), ())
  }

  function WriteRead(b: Bus, x: Byte): (r: Run<()>)
    ensures SameState(r.bus, b) && NoCrash(r)
  {
    var (b1, _) :- Write(b, x);
    var (b2, y) :- Read(b1);
    Ok(b2.(log := b2.log.(echoed := b2.log.echoed && x == y)), ())
  }

  function WriteAll(b: Bus, s: seq<Byte>): (r: Run<()>)
    ensures SameState(r.bus, b) && NoCrash(r)
    decreases |s|
  {
    if s == [] then Ok(b, ())
    else
      var (b1, _) :- WriteRead(b, s[0]);
      WriteAll(b1, s[1..])
  }

  /** What a counted read loop takes from the input; the count grows by one at each escape. */
  datatype Taken = Taken(got: seq<Byte>, rest: seq<Input>, signal: Option<Signal>)

  function Take(input: seq<Input>, r: nat): (t: Taken)
    ensures |t.rest| <= |input| && t.signal != Some(Crash)
    decreases |input|
  {
    if r == 0 then Taken([], input, None)
    else if input == [] then Taken([], [], Some(Warning))
    else
      match input[0]
      case Data(x) =>
        var t := Take(input[1..], if x == EXP then r else r - 1);
        t.(got := [x] + t.got)
      case Timeout => Taken([], input[1..], Some(Warning))
      case Fault => Taken([], input[1..], Some(Error))
  }

  /** After `got` was taken, `r` more are to come from `rest`. */
  predicate Taking(input: seq<Input>, count: nat, got: seq<Byte>, rest: seq<Input>, r: nat) {
    var t := Take(rest, r);
    Take(input, count) == t.(got := got + t.got)
  }

  lemma TakingStarts(input: seq<Input>, count: nat)
    ensures Taking(input, count, [], input, count)
  {
    assert [] + Take(input, count).got == Take(input, count).got;
  }

  lemma TakeNext(input: seq<Input>, count: nat, got: seq<Byte>, rest: seq<Input>, r: nat)
    requires Taking(input, count, got, rest, r) && r > 0
    ensures rest != [] && rest[0].Data? ==>
              var x := rest[0].byte;
              Taking(input, count, got + [x], rest[1..], if x == EXP then r else r - 1)
    ensures !(rest != [] && rest[0].Data?) ==> Take(input, count) == Take(rest, 1).(got := got)
  {
    if rest != [] && rest[0].Data? {
      var x := rest[0].byte;
      var t := Take(rest[1..], if x == EXP then r else r - 1);
      assert got + ([x] + t.got) == got + [x] + t.got;
    } else {
      assert got + [] == got;
    }
  }

  lemma TakeDone(input: seq<Input>, count: nat, got: seq<Byte>, rest: seq<Input>)
    requires Taking(input, count, got, rest, 0)
    ensures Take(input, count) == Taken(got, rest, None)
  {
    assert got + [] == got;
  }

  function Hear(b: Bus, t: Taken): Bus {
    b.(device := b.device.(input := t.rest), log := b.log.(heard := b.log.heard + t.got))
  }

  // ---------- Bookkeeping ----------

  function Push(s: Buffer, got: seq<Byte>): Buffer {
    if got == [] then s else Buffer(s.bytes + got, true)
  }

  function PublicationOf(t: Tel): Publication {
    Publication(t.master.bytes, t.slave.bytes)
  }

  function Publish(b: Bus, t: Tel): Bus {
    b.(log := b.log.(published := b.log.published + [PublicationOf(t)]))
  }

  function Reset(b: Bus): Bus {
    b.(openCounter := 0, lockCounter := b.lockMax, sequence := EMPTY, active := None, passive := None,
       log := LogReset(b.log, b.active))
  }

  function LogReset(l: Log, active: Option<Message>): Log {
    l.(published := if active.Some? then l.published + [PublicationOf(active.value.tel)] else l.published,
       completed := if active.Some? then l.completed + [active.value] else l.completed,
       syns := 0, tried := false)
  }

  /** Sets the result of the active message, if there is one. */
  function Mark(b: Bus, state: int): Bus {
    if b.active.None? then b else b.(active := Some(b.active.value.(state := state)))
  }

  function WithTel(b: Bus, t: Tel): Bus
    requires b.active.Some?
  {
    b.(active := Some(b.active.value.(tel := t)))
  }

  function React(b: Bus): (Bus, Reaction) {
    if b.reactions == [] then (b, NoFunction) else (b.(reactions := b.reactions[1..]), b.reactions[0])
  }

  // ---------- State methods ----------

  /** `idleSystem` up to the point where it waits to be opened again. */
  function Idle(b: Bus): Bus {
    Reset(b.(device := b.device.(open := false))).(online := false)
  }

  function Open(b: Bus): (r: Run<State>)
    ensures NoCrash(r)
  {
    if b.device.open then Flush(b)
    else
      var d := b.device;
      var outcome := if d.openings == [] then Opens else d.openings[0];
      var b1 := if d.openings == [] then b else b.(device := d.(openings := d.openings[1..]));
      if outcome == Throws then Raise(b1, Error) else Flush(b1.(device := b1.device.(open := true)))
  }

  /** Skips input up to the next SYN. */
  function Flush(b: Bus): (r: Run<State>)
    ensures NoCrash(r)
    decreases |b.device.input|
  {
    var (b1, x) :- Read(b);
    if x == SYN then Ok(Reset(b1).(online := true), MonitorBus) else Flush(b1)
  }

  function Monitor(b: Bus): (r: Run<State>)
    ensures NoCrash(r)
  {
    var (b1, x) :- Read(b);
    if x == SYN then
      var b2 := Elect(Decode(CountDown(b1)));
      Ok(b2, if Due(b2) then LockBus else MonitorBus)
    else
      var b2 := b1.(sequence := Push(b1.sequence, [x]));
      Ok(b2, if Addressed(b2) then ReceiveMessage else MonitorBus)
  }

  function CountDown(b: Bus): Bus {
    b.(lockCounter := if b.lockCounter != 0 then b.lockCounter - 1 else 0, log := b.log.(syns := b.log.syns + 1))
  }

  /** Decodes what was heard since the last SYN; a single byte was a lost arbitration. */
  function Decode(b: Bus): Bus {
    if b.sequence.bytes == [] then b
    else
      var s := b.sequence.Logical();
      var t := Parse(s);
      var b1 := if t.IsValid() then Publish(b, t) else b;
      b1.(lockCounter := if |s| == 1 && b.lockCounter < 2 then 2 else b.lockCounter, sequence := EMPTY)
  }

  /** Takes the next message from the queue unless one is pending. */
  function Elect(b: Bus): Bus {
    if b.active.None? && b.queue != [] then b.(active := Some(b.queue[0]), queue := b.queue[1..]) else b
  }

  predicate Due(b: Bus) {
    b.active.Some? && b.lockCounter == 0
  }

  /** The second byte of a message says that it is for everybody or for us. */
  predicate Addressed(b: Bus) {
    && |b.sequence.bytes| == 2
    && var zz := b.sequence.bytes[1];
       zz == BROAD || zz == b.address || zz == SlaveAddress(b.address)
  }

  function ReceiveHeader(b: Bus, k: nat): (r: Run<()>)
    ensures NoCrash(r)
    ensures r.Ok? ==> |r.bus.sequence.bytes| == |b.sequence.bytes| + k
    decreases k
  {
    if k == 0 then Ok(b, ())
    else
      var (b1, x) :- Read(b);
      ReceiveHeader(b1.(sequence := Push(b1.sequence, [x])), k - 1)
  }

  function ReceiveBytes(b: Bus, r: nat): (result: Run<()>)
    ensures NoCrash(result)
  {
    var t := Take(b.device.input, r);
    var b1 := Hear(b, t).(sequence := Push(b.sequence, t.got));
    if t.signal.Some? then Raise(b1, t.signal.value) else Ok(b1, ())
  }

  function Receive(b: Bus): Run<State>
    requires |b.sequence.bytes| >= 2
  {
    var (b1, _) :- ReceiveHeader(b, 3);
    var n := Count(b1.sequence.bytes[4]);
    if n > MAX_BYTES then
      if b1.active.None? then Raise(b1, Crash) else Ok(Reset(Mark(b1, EBUS_ERR_TRANSMIT)), MonitorBus)
    else
      var (b2, _) :- ReceiveBytes(b1, n);
      var (b3, _) :- ReceiveBytes(b2, 1);
      Answer(b3)
  }

  /** Checks a received message, acknowledges it unless it is a broadcast, and passes it on. */
  function Answer(b: Bus): Run<State> {
    var s := b.sequence.Logical();
    var t := CreateMaster(CLEARED, s);
    var b1 := b.(sequence := MasterArgument(s));
    if |b1.sequence.bytes| < 2 then Raise(b1, Crash)
    else
      var ok := t.masterState == SEQ_OK;
      var ack := if ok then ACK else NAK;
      var (b2, _) :- if b1.sequence.bytes[1] != BROAD then WriteRead(b1, ack) else Ok(b1, ());
      if ok then
        Ok(if t.kind != MS then Publish(b2, t) else b2, ProcessMessage)
      else
        Ok(b2.(sequence := EMPTY), MonitorBus)
  }

  function Process(b: Bus): (r: Run<State>)
    ensures NoCrash(r)
  {
    var s := b.sequence.Logical();
    var t := CreateMaster(CLEARED, s);
    var (b1, reaction) := React(b.(sequence := MasterArgument(s)));
    if reaction.Response? && t.kind == MS then
      var t' := CreateSlave(t, reaction.data);
      if t'.slaveState == SEQ_OK then Ok(b1.(passive := Some(t')), SendResponse)
      else Ok(b1.(sequence := EMPTY), MonitorBus)
    else Ok(b1.(sequence := EMPTY), MonitorBus)
  }

  function Respond(b: Bus): (r: Run<State>)
    requires b.passive.Some?
    ensures NoCrash(r)
  {
    var t := b.passive.value;
    var (b1, _) :- RespondTry(b, t, 1);
    Ok(Reset(Publish(b1, t)), MonitorBus)
  }

  /** Sends the slave frame; after a refusal once more. */
  function RespondTry(b: Bus, t: Tel, retry: nat): (r: Run<()>)
    ensures NoCrash(r)
    decreases retry
  {
    var (b1, _) :- WriteAll(b, t.slave.bytes);
    var (b2, _) :- WriteRead(b1, t.slaveCRC);
    var (b3, x) :- Read(b2);
    if x == NAK && retry > 0 then RespondTry(b3, t, retry - 1) else Ok(b3, ())
  }

  /** Two addresses of the same priority class. */
  predicate SamePriority(a: Byte, b: Byte) {
    a & 0x0f == b & 0x0f
  }

  /** A transfer starts here. */
  function Claim(b: Bus): Bus {
    b.(log := b.log.(tried := true, lockHeard := |b.log.heard|, lockWritten := |b.log.written|, echoed := true))
  }

  function Lock(b: Bus): (r: Run<State>)
    requires b.active.Some? && b.active.value.tel.master.bytes != []
    ensures NoCrash(r)
  {
    var qq := b.active.value.tel.master.bytes[0];
    var (b1, _) :- Write(Claim(b), qq);
    var (b2, x) :- Read(b1);
    if x == qq then Ok(b2, SendMessage)
    else Ok(b2.(lockCounter := if !SamePriority(x, qq) then b.lockMax else 1), MonitorBus)
  }

  function Send(b: Bus): (r: Run<State>)
    requires b.active.Some? && b.active.value.tel.master.bytes != []
    ensures NoCrash(r)
  {
    SendTry(b, 1)
  }

  /** Sends the master frame, the first time without its first byte; after a refusal once more. */
  function SendTry(b: Bus, retry: nat): (r: Run<State>)
    requires b.active.Some? && retry <= |b.active.value.tel.master.bytes|
    ensures NoCrash(r)
    decreases retry
  {
    var (b1, next) :- SendOnce(b, retry);
    if next.Some? then Ok(b1, next.value)
    else if retry > 0 then SendTry(b1, retry - 1)
    else Ok(Mark(b1, EBUS_ERR_TRANSMIT), FreeBus)
  }

  /** One copy of the master frame from index `from`, and its answer; no next state after a refusal. */
  function SendOnce(b: Bus, from: nat): (r: Run<Option<State>>)
    requires b.active.Some? && from <= |b.active.value.tel.master.bytes|
    ensures NoCrash(r)
    ensures r.Ok? ==> r.bus.active.Some? && r.bus.active.value.tel.master == b.active.value.tel.master
  {
    var t := b.active.value.tel;
    var (b1, _) :- WriteAll(b, t.master.bytes[from..]);
    var (b2, _) :- WriteRead(b1, t.masterCRC);
    if t.kind == BC then Ok(b2, Some(FreeBus))
    else
      var (b3, x) :- Read(b2);
      var b4 := WithTel(b3, t.(slaveACK := x));
      if x == NAK then Ok(b4, None)
      else if x == ACK then Ok(b4, Some(if t.kind == MM then FreeBus else ReceiveResponse))
      else Ok(Mark(b4, EBUS_ERR_TRANSMIT), Some(FreeBus))
  }

  function Listen(b: Bus): (r: Run<State>)
    requires b.active.Some?
    ensures NoCrash(r)
  {
    ListenTry(b, 1)
  }

  /** Receives the slave frame and answers it; after a refusal once more. */
  function ListenTry(b: Bus, retry: nat): (r: Run<State>)
    requires b.active.Some?
    ensures NoCrash(r)
    decreases retry
  {
    var (b1, next) :- ListenOnce(b);
    if next.Some? then Ok(b1, next.value)
    else if retry > 0 then ListenTry(b1, retry - 1)
    else Ok(Mark(b1, EBUS_ERR_TRANSMIT), FreeBus)
  }

  /** One copy of the slave frame, and our answer; no next state after a refusal. */
  function ListenOnce(b: Bus): (r: Run<Option<State>>)
    requires b.active.Some?
    ensures NoCrash(r)
    ensures r.Ok? && r.value.None? ==> r.bus.active.Some?
  {
    var (b1, nn) :- Read(b);
    if Count(nn) > MAX_BYTES then Ok(Reset(Mark(b1, EBUS_ERR_TRANSMIT)), Some(MonitorBus))
    else
      var taken := Take(b1.device.input, Count(nn) + 1);
      var b2 := Hear(b1, taken);
      if taken.signal.Some? then Raise(b2, taken.signal.value) else AnswerResponse(b2, Buffer([nn] + taken.got, true))
  }

  /** Checks a response and acknowledges it. */
  function AnswerResponse(b: Bus, s: Buffer): (r: Run<Option<State>>)
    requires b.active.Some?
    ensures NoCrash(r)
    ensures r.Ok? ==> r.bus.active.Some?
  {
    var t := CreateSlave(b.active.value.tel, s.Logical());
    var ok := t.slaveState == SEQ_OK;
    var ack := if ok then ACK else NAK;
    var (b1, _) :- WriteRead(WithTel(b, t), ack);
    Ok(WithTel(b1, t.(masterACK := ack)), if ok then Some(FreeBus) else None)
  }

  function Free(b: Bus): (r: Run<State>)
    ensures NoCrash(r)
  {
    var (b1, _) :- WriteRead(b, SYN);
    Ok(Reset(b1), MonitorBus)
  }

  function HandleDeviceError(b: Bus, error: bool): (Bus, State) {
    var b1 := Reset(Mark(b, EBUS_ERR_DEVICE));
    if error then (b1.(device := b1.device.(open := false)), OpenDevice) else (b1, MonitorBus)
  }

  // ---------- The state machine ----------

  /** What a state method takes for granted: otherwise it would use a missing object or byte. */
  predicate Ready(b: Bus, s: State) {
    match s
    case ReceiveMessage => |b.sequence.bytes| >= 2
    case SendResponse => b.passive.Some?
    case LockBus => b.active.Some? && b.active.value.tel.master.bytes != []
    case SendMessage => b.active.Some? && b.active.value.tel.master.bytes != []
    case ReceiveResponse => b.active.Some?
    case _ => true
  }

  /** One state method. `idleSystem` ends, after a wait, in `OpenDevice`. */
  function Execute(b: Bus, s: State): Run<State> {
    if !Ready(b, s) then Raise(b, Crash)
    else
      match s
      case IdleSystem => Ok(Idle(b), OpenDevice)
      case OpenDevice => Open(b)
      case MonitorBus => Monitor(b)
      case ReceiveMessage => Receive(b)
      case ProcessMessage => Process(b)
      case SendResponse => Respond(b)
      case LockBus => Lock(b)
      case SendMessage => Send(b)
      case ReceiveResponse => Listen(b)
      case FreeBus => Free(b)
  }

  /** One state method, with its exceptions handled. */
  function Guarded(b: Bus, s: State): Run<State> {
    match Execute(b, s)
    case Ok(b1, next) => Ok(b1, next)
    case Raise(b1, Crash) => Raise(b1, Crash)
    case Raise(b1, signal) =>
      var (b2, next) := HandleDeviceError(b1, signal == Error);
      Ok(b2, next)
  }

  /** The message a caller submits, unless its frame is refused or the own address is no master. */
  function Submission(b: Bus, id: nat, vec: seq<Byte>): Option<Message> {
    var t := CreateMaster(CLEARED, [b.address] + vec);
    if t.masterState == SEQ_OK && IsMaster(b.address) then Some(Message(id, t, 0)) else None
  }
}

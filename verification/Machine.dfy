/**
 Runs of the participant: the thread executes one state method at a time, tests the close flag after each, and in
 between callers enqueue messages, close and open. The invariant of every run, and the order in which messages are
 handed back.
 */
module Machine {
  import opened Wrappers
  import opened Bytes
  import opened Escape
  import opened Sequences
  import opened TelegramValues
  import opened Language
  import opened Roundtrip
  import opened BusModel

  /** Where the thread is: before a state method, before the test of the close flag, waiting to be opened, or gone. */
  datatype Pc = Exec(state: State) | Check(state: State) | Asleep | Crashed

  datatype Sys = Sys(bus: Bus, pc: Pc, close: bool, notified: bool, enqueued: seq<nat>)

  datatype Action = Thread | Enqueue(vec: seq<Byte>) | Close | Notify

  function Start(address: Byte, lockMax: int, openMax: int, device: Device, reactions: seq<Reaction>): Sys {
    var b := Bus(address, lockMax, 0, openMax, 0, EMPTY, None, None, false, [], device, reactions, SILENCE);
    Sys(b, Exec(OpenDevice), false, false, [])
  }

  function Step(s: Sys): Sys {
    match s.pc
    case Crashed => s
    case Asleep => if s.notified then s.(notified := false, pc := Check(OpenDevice)) else s
    case Check(state) => s.(pc := Exec(if s.close then IdleSystem else state))
    case Exec(state) =>
      match Guarded(s.bus, state)
      case Raise(b, _) => s.(bus := b, pc := Crashed)
      case Ok(b, next) =>
        if state == IdleSystem then s.(bus := b, close := false, pc := if s.notified then Check(next) else Asleep)
        else s.(bus := b, pc := Check(next))
  }

  function Act(s: Sys, a: Action): Sys {
    match a
    case Thread => Step(s)
    case Close => s.(close := true)
    case Notify => s.(notified := true)
    case Enqueue(vec) =>
      var m := Submission(s.bus, |s.enqueued|, vec);
      if m.None? then s
      else s.(bus := s.bus.(queue := s.bus.queue + [m.value]), enqueued := s.enqueued + [|s.enqueued|])
  }

  function After(s: Sys, actions: seq<Action>): Sys
    decreases |actions|
  {
    if actions == [] then s else After(Act(s, actions[0]), actions[1..])
  }

  // ---------- The invariant ----------

  /** The master part of a telegram that was accepted for sending. */
  predicate Sendable(t: Tel) {
    var m := t.master.Logical();
    && t.masterState == SEQ_OK
    && MasterFrame(m) && Holds(t.master, m) && t.kind == KindOf(m[1]) && t.masterCRC == FrameCrc(m)
  }

  predicate Fresh(m: Message) {
    m.state == SEQ_OK && Sendable(m.tel)
  }

  predicate Sound(b: Bus) {
    && (forall i :: 0 <= i < |b.queue| ==> Fresh(b.queue[i]))
    && (b.active.Some? ==> Sendable(b.active.value.tel))
    && (b.lockMax >= 0 ==> 0 <= b.lockCounter <= Larger(b.lockMax, 2))
  }

  /** Until the bus is claimed again, the countdown and the SYN bytes met since the last reset add up. */
  predicate Spaced(b: Bus) {
    b.lockMax >= 0 && !b.log.tried ==> b.lockCounter + b.log.syns >= b.lockMax
  }

  function Larger(a: int, b: int): int {
    if a < b then b else a
  }

  /** What holds when a state is entered. */
  predicate Entered(b: Bus, s: State) {
    && (s == LockBus || s == SendMessage || s == ReceiveResponse || s == FreeBus ==> b.active.Some?)
    && (s == SendResponse ==> b.passive.Some?)
    && (b.passive.Some? ==> s == SendResponse || s == IdleSystem)
    && (s == OpenDevice ==> b.active.None? && b.passive.None?)
    && (b.active.Some? && s != FreeBus && s != IdleSystem ==> b.active.value.state == SEQ_OK)
    && (s == ReceiveMessage ==> Addressed(b))
    && (s == LockBus ==> b.lockCounter == 0)
    && (s != OpenDevice && s != IdleSystem ==> Spaced(b))
  }

  function Ids(ms: seq<Message>): (ids: seq<nat>)
    ensures |ids| == |ms|
  {
    seq(|ms|, i requires 0 <= i < |ms| => ms[i].id)
  }

  /** The messages handed back, the active one and the waiting ones, in this order. */
  function Ledger(b: Bus): seq<nat> {
    Ids(b.log.completed) + (if b.active.Some? then [b.active.value.id] else []) + Ids(b.queue)
  }

  predicate Good(b: Bus, s: State) {
    Sound(b) && Entered(b, s)
  }

  /** A state method keeps the ledger, and the invariant as far as its outcome allows. */
  predicate Kept(b: Bus, r: Run<State>) {
    Sound(r.bus) && Ledger(r.bus) == Ledger(b) && (r.Ok? ==> Entered(r.bus, r.value))
  }

  lemma IdsConcat(a: seq<Message>, b: seq<Message>)
    ensures Ids(a + b) == Ids(a) + Ids(b)
  {
  }

  /**
   The bookkeeping is the same: only the device, the logs of bytes and publications, the received bytes and the
   answers to the active message differ.
   */
  predicate Apart(a: Bus, b: Bus) {
    && a.queue == b.queue && a.lockMax == b.lockMax && a.lockCounter == b.lockCounter && a.passive == b.passive
    && a.online == b.online
    && a.log.completed == b.log.completed && a.log.syns == b.log.syns && a.log.tried == b.log.tried
    && a.active.Some? == b.active.Some?
    && (b.active.Some? ==>
      a.active.value.id == b.active.value.id && (Sendable(b.active.value.tel) ==> Sendable(a.active.value.tel)))
  }

  /** The result of the active message is the same as well. */
  predicate Untouched(a: Bus, b: Bus) {
    Apart(a, b) && (b.active.Some? ==> a.active.value.state == b.active.value.state)
  }

  lemma ApartKeeps(a: Bus, b: Bus)
    requires Sound(b) && Apart(a, b)
    ensures Sound(a) && Ledger(a) == Ledger(b) && (Spaced(a) <==> Spaced(b))
  {
    hide Fresh, Sendable;
  }

  lemma ResetKeeps(b: Bus)
    requires Sound(b)
    ensures Sound(Reset(b)) && Ledger(Reset(b)) == Ledger(b) && Spaced(Reset(b))
    ensures Reset(b).active.None? && Reset(b).passive.None?
  {
    hide Fresh, Sendable;
    if b.active.Some? {
      IdsConcat(b.log.completed, [b.active.value]);
      assert Ids([b.active.value]) == [b.active.value.id];
    }
  }

  /** A method that ends with `reset` leaves nothing to worry about. */
  lemma ResetKept(b: Bus, a: Bus, c: Bus, s: State)
    requires Sound(b) && Apart(a, b) && c == Reset(a).(online := c.online, device := c.device)
    requires s == OpenDevice || s == MonitorBus
    ensures Kept(b, Ok(c, s))
  {
    hide Fresh, Sendable, Reset, Ledger, Apart;
    ApartKeeps(a, b);
    ResetKeeps(a);
    LedgerOf(c, Reset(a));
  }

  lemma LedgerOf(a: Bus, b: Bus)
    requires a.log == b.log && a.queue == b.queue && a.active == b.active
    ensures Ledger(a) == Ledger(b)
  {
  }

  lemma RaiseKept(b: Bus, a: Bus, signal: Signal)
    requires Sound(b) && Apart(a, b)
    ensures Kept(b, Raise(a, signal))
  {
    hide Fresh, Sendable, Ledger;
    ApartKeeps(a, b);
  }

  lemma HandledKept(b: Bus, error: bool)
    requires Sound(b)
    ensures var (b1, s) := HandleDeviceError(b, error);
            Good(b1, s) && Ledger(b1) == Ledger(b)
  {
    hide Fresh, Sendable, Reset, Ledger;
    var m := Mark(b, EBUS_ERR_DEVICE);
    var (b1, s) := HandleDeviceError(b, error);
    ResetKept(b, m, b1, s);
  }

  // ---------- Every state method keeps it ----------

  lemma IdleKept(b: Bus)
    requires Good(b, IdleSystem)
    ensures Kept(b, Ok(Idle(b), OpenDevice))
  {
    hide Fresh, Sendable, Reset, Ledger;
    ResetKept(b, b.(device := b.device.(open := false)), Idle(b), OpenDevice);
  }

  lemma FlushKept(b: Bus, a: Bus)
    requires Good(b, OpenDevice) && Untouched(a, b)
    ensures Kept(b, Flush(a))
    decreases |a.device.input|
  {
    hide Fresh, Sendable, Reset, Ledger, Kept;
    var r := Read(a);
    if r.Raise? {
      RaiseKept(b, r.bus, r.signal);
    } else if r.value == SYN {
      ResetKept(b, r.bus, Reset(r.bus).(online := true), MonitorBus);
    } else {
      FlushKept(b, r.bus);
    }
  }

  lemma OpenKept(b: Bus)
    requires Good(b, OpenDevice)
    ensures Kept(b, Open(b))
  {
    hide Fresh, Sendable, Reset, Ledger, Flush;
    var d := b.device;
    var b1 := if d.openings == [] then b else b.(device := d.(openings := d.openings[1..]));
    ApartKeeps(b1, b);
    if b.device.open {
      FlushKept(b, b);
    } else if d.openings == [] || d.openings[0] == Opens {
      FlushKept(b, b1.(device := b1.device.(open := true)));
    }
  }

  lemma MonitorKept(b: Bus)
    requires Good(b, MonitorBus)
    ensures Kept(b, Monitor(b))
  {
    hide Fresh, Sendable, Ledger, Elect, Decode, CountDown, Addressed, Kept;
    var r := Read(b);
    if r.Raise? {
      RaiseKept(b, r.bus, r.signal);
    } else if r.value == SYN {
      SynKept(b, r.bus);
    } else {
      var b2 := r.bus.(sequence := Push(r.bus.sequence, [r.value]));
      PushKept(b, b2);
    }
  }

  lemma PushKept(b: Bus, a: Bus)
    requires Good(b, MonitorBus) && Untouched(a, b)
    ensures Kept(b, Ok(a, if Addressed(a) then ReceiveMessage else MonitorBus))
  {
    hide Fresh, Sendable, Ledger, Addressed;
    ApartKeeps(a, b);
  }

  lemma SynKept(b: Bus, a: Bus)
    requires Good(b, MonitorBus) && Untouched(a, b)
    ensures var c := Elect(Decode(CountDown(a)));
            Kept(b, Ok(c, if Due(c) then LockBus else MonitorBus))
  {
    hide Sendable, Ledger, Decode, CountDown;
    ApartKeeps(a, b);
    var d := Decode(CountDown(a));
    CountsDown(a);
    LedgerPublished(d, a);
    ElectLedger(d);
  }

  /** Each SYN moves the countdown by at most one, or raises it to two. */
  lemma CountsDown(a: Bus)
    ensures var d := Decode(CountDown(a));
            && d.queue == a.queue && d.active == a.active && d.passive == a.passive && d.lockMax == a.lockMax
            && d.online == a.online
            && d.log.completed == a.log.completed && d.log.tried == a.log.tried && d.log.syns == a.log.syns + 1
            && (a.lockCounter >= 0 ==>
                 d.lockCounter == 2 || d.lockCounter == if a.lockCounter > 0 then a.lockCounter - 1 else 0)
            && d.lockCounter >= a.lockCounter - 1
  {
    hide Parse;
  }

  lemma LedgerPublished(a: Bus, b: Bus)
    requires a.log.completed == b.log.completed && a.queue == b.queue && a.active == b.active
    ensures Ledger(a) == Ledger(b)
  {
  }

  lemma ElectLedger(b: Bus)
    ensures Ledger(Elect(b)) == Ledger(b)
  {
    if b.active.None? && b.queue != [] {
      assert b.queue == [b.queue[0]] + b.queue[1..];
      IdsConcat([b.queue[0]], b.queue[1..]);
      assert Ids([b.queue[0]]) == [b.queue[0].id];
    }
  }

  lemma HeaderKept(b: Bus, a: Bus, k: nat)
    requires Untouched(a, b)
    ensures Untouched(ReceiveHeader(a, k).bus, b)
    decreases k
  {
    hide Sendable;
    if k > 0 {
      var r := Read(a);
      if r.Ok? {
        HeaderKept(b, r.bus.(sequence := Push(r.bus.sequence, [r.value])), k - 1);
      }
    }
  }

  lemma ReceiveKept(b: Bus)
    requires Good(b, ReceiveMessage)
    ensures Kept(b, Receive(b))
  {
    hide Sendable, Fresh, Ledger, ReceiveHeader, ReceiveBytes, Answer, Reset, Kept;
    HeaderKept(b, b, 3);
    var r1 := ReceiveHeader(b, 3);
    if r1.Raise? {
      RaiseKept(b, r1.bus, r1.signal);
    } else if Count(r1.bus.sequence.bytes[4]) > MAX_BYTES {
      OversizedKept(b, r1.bus);
    } else {
      var n := Count(r1.bus.sequence.bytes[4]);
      BytesKept(b, r1.bus, n);
      var r2 := ReceiveBytes(r1.bus, n);
      if r2.Raise? {
        RaiseKept(b, r2.bus, r2.signal);
      } else {
        BytesKept(b, r2.bus, 1);
        var r3 := ReceiveBytes(r2.bus, 1);
        if r3.Raise? {
          RaiseKept(b, r3.bus, r3.signal);
        } else {
          AnswerKept(b, r3.bus);
        }
      }
    }
  }

  lemma OversizedKept(b: Bus, a: Bus)
    requires Sound(b) && Untouched(a, b)
    ensures a.active.Some? ==> Kept(b, Ok(Reset(Mark(a, EBUS_ERR_TRANSMIT)), MonitorBus))
    ensures a.active.None? ==> Kept(b, Raise(a, Crash))
  {
    hide Sendable, Ledger, Reset, Kept;
    if a.active.Some? {
      ResetKept(b, Mark(a, EBUS_ERR_TRANSMIT), Reset(Mark(a, EBUS_ERR_TRANSMIT)), MonitorBus);
    } else {
      RaiseKept(b, a, Crash);
    }
  }

  lemma BytesKept(b: Bus, a: Bus, n: nat)
    requires Untouched(a, b)
    ensures Untouched(ReceiveBytes(a, n).bus, b)
  {
    hide Sendable, Take;
  }

  lemma AnswerUntouched(b: Bus, a: Bus)
    requires Untouched(a, b)
    ensures Untouched(Answer(a).bus, b)
    ensures Answer(a).Ok? ==> Answer(a).value == ProcessMessage || Answer(a).value == MonitorBus
  {
    hide Sendable, CreateMaster, MasterArgument, WriteRead;
  }

  lemma AnswerKept(b: Bus, a: Bus)
    requires Good(b, ReceiveMessage) && Untouched(a, b)
    ensures Kept(b, Answer(a))
  {
    hide Sendable, Fresh, Ledger, Answer;
    AnswerUntouched(b, a);
    ApartKeeps(Answer(a).bus, b);
  }

  lemma ProcessKept(b: Bus)
    requires Good(b, ProcessMessage)
    ensures Kept(b, Process(b))
  {
    hide Sendable, Fresh, CreateMaster, CreateSlave, MasterArgument;
    var r := Process(b);
    LedgerPublished(r.bus, b);
  }

  lemma RespondTryKept(b: Bus, a: Bus, t: Tel, retry: nat)
    requires Untouched(a, b)
    ensures Untouched(RespondTry(a, t, retry).bus, b)
    decreases retry
  {
    hide Sendable, WriteAll, WriteRead, Read;
    var r1 := WriteAll(a, t.slave.bytes);
    if r1.Ok? {
      var r2 := WriteRead(r1.bus, t.slaveCRC);
      if r2.Ok? {
        var r3 := Read(r2.bus);
        if r3.Ok? && r3.value == NAK && retry > 0 {
          RespondTryKept(b, r3.bus, t, retry - 1);
        }
      }
    }
  }

  lemma RespondKept(b: Bus)
    requires Good(b, SendResponse)
    ensures Kept(b, Respond(b))
  {
    hide Sendable, Fresh, Ledger, RespondTry, Reset, Kept;
    var t := b.passive.value;
    RespondTryKept(b, b, t, 1);
    var r := RespondTry(b, t, 1);
    if r.Raise? {
      RaiseKept(b, r.bus, r.signal);
    } else {
      ResetKept(b, Publish(r.bus, t), Reset(Publish(r.bus, t)), MonitorBus);
    }
  }

  lemma LockKept(b: Bus)
    requires Good(b, LockBus) && Ready(b, LockBus)
    ensures Kept(b, Lock(b))
  {
    hide Sendable, Fresh, Write, Read, SamePriority;
    var r := Lock(b);
    LedgerPublished(r.bus, b);
  }

  /** The master part is what `Sendable` is about. */
  lemma SendableSame(t: Tel, u: Tel)
    requires Sendable(t)
    requires u.kind == t.kind && u.master == t.master && u.masterCRC == t.masterCRC && u.masterState == t.masterState
    ensures Sendable(u)
  {
    hide MasterFrame, Holds, KindOf, FrameCrc;
  }

  lemma SendOnceApart(b: Bus, a: Bus, from: nat)
    requires a.active.Some? && from <= |a.active.value.tel.master.bytes| && Untouched(a, b)
    ensures var r := SendOnce(a, from);
            && Apart(r.bus, b)
            && (r.Raise? || r.value.None? || r.value == Some(ReceiveResponse) ==> Untouched(r.bus, b))
            && (r.Ok? && r.value.Some? ==> r.value.value == FreeBus || r.value.value == ReceiveResponse)
  {
    hide Sendable, WriteAll, WriteRead, Read, Apart;
    var t := a.active.value.tel;
    var r1 := WriteAll(a, t.master.bytes[from..]);
    AckApart(r1.bus, a, b, ACK);
    if r1.Ok? {
      var r2 := WriteRead(r1.bus, t.masterCRC);
      AckApart(r2.bus, a, b, ACK);
      if r2.Ok? && t.kind != BC {
        var r3 := Read(r2.bus);
        AckApart(r3.bus, a, b, if r3.Ok? then r3.value else ACK);
      }
    }
  }

  lemma AckApart(c: Bus, a: Bus, b: Bus, x: Byte)
    requires a.active.Some? && Untouched(a, b) && SameState(c, a)
    ensures var u := WithTel(c, a.active.value.tel.(slaveACK := x));
            && Untouched(c, b) && Untouched(u, b) && Apart(Mark(u, EBUS_ERR_TRANSMIT), b)
  {
    hide Sendable;
    var t := a.active.value.tel;
    if Sendable(t) {
      SendableSame(t, t.(slaveACK := x));
    }
  }

  lemma SendTryKept(b: Bus, a: Bus, retry: nat)
    requires Good(b, SendMessage) && Untouched(a, b)
    requires a.active.Some? && retry <= |a.active.value.tel.master.bytes|
    ensures Kept(b, SendTry(a, retry))
    decreases retry
  {
    hide Sendable, Fresh, Ledger, SendOnce;
    SendOnceApart(b, a, retry);
    var r := SendOnce(a, retry);
    ApartKeeps(r.bus, b);
    if r.Ok? && r.value.None? {
      if retry > 0 {
        SendTryKept(b, r.bus, retry - 1);
      } else {
        ApartKeeps(Mark(r.bus, EBUS_ERR_TRANSMIT), b);
      }
    }
  }

  lemma AnswerResponseApart(b: Bus, a: Bus, s: Buffer)
    requires a.active.Some? && Untouched(a, b)
    ensures var r := AnswerResponse(a, s);
            && Untouched(r.bus, b)
            && (r.Ok? && r.value.Some? ==> r.value.value == FreeBus)
  {
    hide Sendable, WriteRead, CreateSlave;
    var t := a.active.value.tel;
    var u := CreateSlave(t, s.Logical());
    SlaveKeepsMaster(t, s.Logical());
    forall x: Byte
      ensures Sendable(t) ==> Sendable(u) && Sendable(u.(masterACK := x))
    {
      if Sendable(t) {
        SendableSame(t, u);
        SendableSame(t, u.(masterACK := x));
      }
    }
  }

  lemma ListenOnceKept(b: Bus, a: Bus)
    requires Good(b, ReceiveResponse) && a.active.Some? && Untouched(a, b)
    ensures var r := ListenOnce(a);
            && (r.Raise? || r.value.None? ==> Untouched(r.bus, b))
            && (r.Raise? ==> Kept(b, Raise(r.bus, r.signal)))
            && (r.Ok? && r.value.Some? ==> Kept(b, Ok(r.bus, r.value.value)))
  {
    hide Sendable, Fresh, Ledger, Read, Take, Reset, AnswerResponse, Count, Kept;
    var r1 := Read(a);
    if r1.Raise? {
      RaiseKept(b, r1.bus, r1.signal);
    } else if Count(r1.value) > MAX_BYTES {
      OversizedKept(b, r1.bus);
    } else {
      var taken := Take(r1.bus.device.input, Count(r1.value) + 1);
      var b2 := Hear(r1.bus, taken);
      if taken.signal.Some? {
        RaiseKept(b, b2, taken.signal.value);
      } else {
        AnswerResponseKept(b, b2, Buffer([r1.value] + taken.got, true));
      }
    }
  }

  lemma AnswerResponseKept(b: Bus, a: Bus, s: Buffer)
    requires Good(b, ReceiveResponse) && a.active.Some? && Untouched(a, b)
    ensures var r := AnswerResponse(a, s);
            && (r.Raise? || r.value.None? ==> Untouched(r.bus, b))
            && (r.Raise? ==> Kept(b, Raise(r.bus, r.signal)))
            && (r.Ok? && r.value.Some? ==> Kept(b, Ok(r.bus, r.value.value)))
  {
    hide Sendable, Fresh, Ledger, AnswerResponse;
    AnswerResponseApart(b, a, s);
    ApartKeeps(AnswerResponse(a, s).bus, b);
  }

  lemma ListenTryKept(b: Bus, a: Bus, retry: nat)
    requires Good(b, ReceiveResponse) && a.active.Some? && Untouched(a, b)
    ensures Kept(b, ListenTry(a, retry))
    decreases retry
  {
    hide Sendable, Fresh, Ledger, ListenOnce;
    ListenOnceKept(b, a);
    var r := ListenOnce(a);
    if r.Ok? && r.value.None? {
      if retry > 0 {
        ListenTryKept(b, r.bus, retry - 1);
      } else {
        ApartKeeps(Mark(r.bus, EBUS_ERR_TRANSMIT), b);
      }
    }
  }

  lemma FreeKept(b: Bus)
    requires Good(b, FreeBus)
    ensures Kept(b, Free(b))
  {
    hide Sendable, Fresh, Ledger, WriteRead, Reset, Kept;
    var r := WriteRead(b, SYN);
    if r.Raise? {
      RaiseKept(b, r.bus, r.signal);
    } else {
      ResetKept(b, r.bus, Reset(r.bus), MonitorBus);
    }
  }

  lemma SendableNonempty(t: Tel)
    requires Sendable(t)
    ensures t.master.bytes != []
  {
    hide KindOf, FrameCrc, IsMaster;
    var m := t.master.Logical();
    if t.master == Stored(m) {
      ExtendShape(m);
    }
  }

  /** Where a state is entered, its method finds what it needs. */
  lemma GoodReady(b: Bus, s: State)
    requires Good(b, s)
    ensures Ready(b, s)
  {
    hide Sendable, Fresh, Spaced;
    if b.active.Some? {
      SendableNonempty(b.active.value.tel);
    }
  }

  lemma GuardedKeeps(b: Bus, s: State)
    requires Good(b, s)
    ensures var r := Guarded(b, s);
            Ledger(r.bus) == Ledger(b) && (r.Ok? ==> Good(r.bus, r.value))
  {
    hide Sound, Entered, Ledger, Idle, Open, Monitor, Receive, Process, Respond, Lock, Send, Listen, Free,
      HandleDeviceError, Ready;
    GoodReady(b, s);
    assert Kept(b, Execute(b, s)) by {
      match s
      case IdleSystem => IdleKept(b);
      case OpenDevice => OpenKept(b);
      case MonitorBus => MonitorKept(b);
      case ReceiveMessage => ReceiveKept(b);
      case ProcessMessage => ProcessKept(b);
      case SendResponse => RespondKept(b);
      case LockBus => LockKept(b);
      case SendMessage => SendKept(b);
      case ReceiveResponse => ListenKept(b);
      case FreeBus => FreeKept(b);
    }
    var r := Execute(b, s);
    if r.Raise? {
      HandledKept(r.bus, r.signal == Error);
    }
  }

  lemma SendKept(b: Bus)
    requires Good(b, SendMessage) && Ready(b, SendMessage)
    ensures Kept(b, Send(b))
  {
    hide Sendable, Fresh, Ledger, SendTry;
    SendTryKept(b, b, 1);
  }

  lemma ListenKept(b: Bus)
    requires Good(b, ReceiveResponse) && Ready(b, ReceiveResponse)
    ensures Kept(b, Listen(b))
  {
    hide Sendable, Fresh, Ledger, ListenTry;
    ListenTryKept(b, b, 1);
  }
}

/**
 The participant itself: an object whose state methods read and write the device and change the fields in place.
 Each method is proved against its specification on the value of the object, exceptions included.
 */
module Ebus {
  import opened Wrappers
  import opened Bytes
  import opened Sequences
  import opened TelegramValues
  import opened Telegrams
  import opened BusModel
  import opened Queue

  /** A value, or the exception that was thrown instead. */
  datatype Io<+T> = Done(value: T) | Raised(signal: Signal) {
    predicate IsFailure() {
      Raised?
    }

    function PropagateFailure<U>(): Io<U>
      requires Raised?
    {
      Raised(signal)
    }

    function Extract(): T
      requires Done?
    {
      value
    }
  }

  /** What a method returned together with the state it left. */
  function Outcome<T>(b: Bus, r: Io<T>): Run<T> {
    match r
    case Done(v) => Ok(b, v)
    case Raised(s) => Raise(b, s)
  }

  /** A frame is accepted only from a master. */
  lemma AcceptedSource(address: Byte, vec: seq<Byte>)
    ensures TelegramValues.CreateMaster(CLEARED, [address] + vec).masterState == SEQ_OK ==> IsMaster(address)
  {
    hide CrcOf, IsMaster, KindOf;
  }

  lemma Snoc(a: seq<Byte>, b: seq<Byte>, x: Byte)
    ensures a + b + [x] == a + (b + [x])
  {
  }

  class SerialDevice {
    var open: bool
    var input: seq<Input>
    var faults: seq<bool>
    var openings: seq<Opening>

    function View(): Device
      reads this
    {
      Device(open, input, faults, openings)
    }

    constructor (input: seq<Input>, faults: seq<bool>, openings: seq<Opening>)
      ensures View() == Device(false, input, faults, openings)
    {
      open, this.input, this.faults, this.openings := false, input, faults, openings;
    }

    method Open() returns (r: Io<()>)
      modifies this`open, this`openings
      ensures openings == if old(openings) == [] then [] else old(openings)[1..]
      ensures var o := if old(openings) == [] then Opens else old(openings)[0];
              && r == (if o == Throws then Raised(Error) else Done(()))
              && open == (old(open) || o == Opens)
      ensures r.Done? ==> open
    {
      r := Done(());
      var outcome := Opens;
      if openings != [] {
        outcome, openings := openings[0], openings[1..];
      }
      match outcome
      case Opens => open := true;
      case Throws => r := Raised(Error);
    }

    method Close()
      modifies this`open
      ensures !open
    {
      open := false;
    }

    method Send(x: Byte) returns (r: Io<()>)
      modifies this`faults
      ensures faults == if old(faults) == [] then [] else old(faults)[1..]
      ensures r == if old(faults) != [] && old(faults)[0] then Raised(Error) else Done(())
    {
      r := Done(());
      if faults != [] {
        if faults[0] {
          r := Raised(Error);
        }
        faults := faults[1..];
      }
    }

    method Recv() returns (r: Io<Byte>)
      modifies this`input
      ensures input == if old(input) == [] then [] else old(input)[1..]
      ensures r == if old(input) == [] then Raised(Warning)
                   else match old(input)[0]
                        case Data(x) => Done(x)
                        case Timeout => Raised(Warning)
                        case Fault => Raised(Error)
    {
      if input == [] {
        return Raised(Warning);
      }
      var head := input[0];
      input := input[1..];
      match head
      case Data(x) => r := Done(x);
      case Timeout => r := Raised(Warning);
      case Fault => r := Raised(Error);
    }
  }

  class EbusImpl {
    const address: Byte
    var lockMax: int
    var lockCounter: int
    var openMax: int
    var openCounter: int
    const sequence: Sequence
    var active: Option<Message>
    var passive: Option<Tel>
    var online: bool
    const queue: NQueue<Message>
    const device: SerialDevice
    var reactions: seq<Reaction>
    ghost var log: Log

    ghost function View(): Bus
      reads this, sequence, device, queue
    {
      Bus(address, lockMax, lockCounter, openMax, openCounter, sequence.View(), active, passive, online, queue.items,
          device.View(), reactions, log)
    }

    constructor (address: Byte, device: SerialDevice, reactions: seq<Reaction>)
      ensures View() == Bus(address, 5, 0, 10, 0, EMPTY, None, None, false, [], device.View(), reactions, SILENCE)
      ensures this.device == device && fresh(sequence) && fresh(queue)
    {
      this.address := address;
      lockMax, lockCounter, openMax, openCounter := 5, 0, 10, 0;
      sequence := new Sequence();
      active, passive, online := None, None, false;
      queue := new NQueue<Message>();
      this.device, this.reactions := device, reactions;
      log := SILENCE;
    }

    // ---------- Device access ----------

    method Read() returns (r: Io<Byte>)
      modifies this`log, device`input
      ensures Outcome(View(), r) == BusModel.Read(old(View()))
      ensures r.Done? ==> old(device.input) != [] && old(device.input)[0] == Data(r.value)
      ensures r.Done? ==> device.input == old(device.input)[1..]
      ensures r.Done? ==> log == old(log).(heard := old(log).heard + [r.value])
      ensures r.Raised? ==> !(old(device.input) != [] && old(device.input)[0].Data?)
      ensures r.Raised? ==> Take(old(device.input), 1) == Taken([], device.input, Some(r.signal)) && log == old(log)
    {
      var x :- device.Recv();
      log := log.(heard := log.heard + [x]);
      r := Done(x);
    }

    method Write(x: Byte) returns (r: Io<()>)
      modifies this`log, device`faults
      ensures Outcome(View(), r) == BusModel.Write(old(View()), x)
    {
      var _ :- device.Send(x);
      log := log.(written := log.written + [x]);
      r := Done(());
    }

    method WriteRead(x: Byte) returns (r: Io<()>)
      modifies this`log, device`input, device`faults
      ensures Outcome(View(), r) == BusModel.WriteRead(old(View()), x)
    {
      var _ :- Write(x);
      var y :- Read();
      log := log.(echoed := log.echoed && x == y);
      r := Done(());
    }

    /** The loops that send the stored bytes of a frame from index `from`. */
    method WriteAll(s: seq<Byte>, from: nat) returns (r: Io<()>)
      requires from <= |s|
      modifies this`log, device`input, device`faults
      ensures Outcome(View(), r) == BusModel.WriteAll(old(View()), s[from..])
    {
      hide BusModel.WriteRead;
      var i := from;
      while i < |s|
        invariant from <= i <= |s|
        invariant BusModel.WriteAll(View(), s[i..]) == BusModel.WriteAll(old(View()), s[from..])
      {
        assert s[i..][1..] == s[i + 1..];
        var _ :- WriteRead(s[i]);
        i := i + 1;
      }
      r := Done(());
    }

    /** The counted read loops, which read one more byte for each escape. */
    method ReadInto(into: Sequence, count: nat) returns (r: Io<()>)
      modifies this`log, device`input, into
      ensures var t := Take(old(device.input), count);
              && device.input == t.rest && log == old(log).(heard := old(log).heard + t.got)
              && into.View() == Push(old(into.View()), t.got)
              && r == if t.signal.Some? then Raised(t.signal.value) else Done(())
    {
      hide Taking, Take, BusModel.Read;
      var bytes, i := count, 0;
      ghost var got: seq<Byte> := [];
      assert Taking(device.input, count, [], device.input, count) by {
        TakingStarts(device.input, count);
      }
      while i < bytes
        invariant 0 <= i <= bytes
        invariant log == old(log).(heard := old(log).heard + got)
        invariant into.bytes == old(into.bytes) + got && into.extended == (got != [] || old(into.extended))
        invariant Taking(old(device.input), count, got, device.input, bytes - i)
        decreases |device.input|
      {
        TakeNext(old(device.input), count, got, device.input, bytes - i);
        var x :- Read();
        Snoc(old(log).heard, got, x);
        Snoc(old(into.bytes), got, x);
        into.PushBack(x, true);
        got := got + [x];
        if x == EXP {
          bytes := bytes + 1;
        }
        i := i + 1;
      }
      TakeDone(old(device.input), count, got, device.input);
      r := Done(());
    }

    // ---------- Bookkeeping ----------

    method Publish(t: Tel)
      modifies this`log
      ensures View() == BusModel.Publish(old(View()), t)
    {
      log := log.(published := log.published + [PublicationOf(t)]);
    }

    method Reset()
      modifies this, sequence
      ensures View() == BusModel.Reset(old(View()))
    {
      hide PublicationOf;
      openCounter := 0;
      lockCounter := lockMax;
      sequence.Clear();
      if active.Some? {
        Publish(active.value.tel);
        log := log.(completed := log.completed + [active.value]);
        active := None;
      }
      passive := None;
      log := log.(syns := 0, tried := false);
    }

    // ---------- State methods ----------

    /** Up to the wait for `open`. */
    method IdleSystem()
      modifies this, sequence, device
      ensures View() == BusModel.Idle(old(View()))
    {
      if device.open {
        device.Close();
      }
      Reset();
      online := false;
    }

    method OpenDevice() returns (r: Io<State>)
      modifies this, sequence, device
      ensures Outcome(View(), r) == BusModel.Open(old(View()))
    {
      hide Flush;
      if !device.open {
        var _ :- device.Open();
        if !device.open {
          // never taken: opening the device succeeds or throws, so the attempts are not counted
          assert false;
        }
      }
      r := FlushInput();
    }

    /** The second half of `OpenDevice`: skips input up to the next SYN. */
    method FlushInput() returns (r: Io<State>)
      modifies this, sequence, device`input
      ensures Outcome(View(), r) == BusModel.Flush(old(View()))
    {
      hide BusModel.Read, BusModel.Reset;
      var x :- Read();
      while x != SYN
        invariant var b := View();
                  BusModel.Flush(old(View())) ==
                    if x == SYN then Ok(BusModel.Reset(b).(online := true), State.MonitorBus) else Flush(b)
        decreases |device.input|
      {
        x :- Read();
      }
      Reset();
      online := true;
      r := Done(State.MonitorBus);
    }

    method MonitorBus() returns (r: Io<State>)
      modifies this, sequence, device, queue
      ensures Outcome(View(), r) == BusModel.Monitor(old(View()))
    {
      hide BusModel.Read, BusModel.Decode, BusModel.Elect, SlaveAddress;
      var x :- Read();
      if x == SYN {
        log := log.(syns := log.syns + 1);
        if lockCounter != 0 {
          lockCounter := lockCounter - 1;
        }
        DecodeSequence();
        ElectMessage();
        if active.Some? && lockCounter == 0 {
          return Done(State.LockBus);
        }
      } else {
        sequence.PushBack(x, true);
        if sequence.Size() == 2
           && (sequence.At(1) == BROAD || sequence.At(1) == address || sequence.At(1) == SlaveAddress(address)) {
          return Done(State.ReceiveMessage);
        }
      }
      r := Done(State.MonitorBus);
    }

    /** The part of `MonitorBus` that decodes what was heard between two SYN bytes. */
    method DecodeSequence()
      modifies this`log, this`lockCounter, sequence
      ensures View() == BusModel.Decode(old(View()))
    {
      hide TelegramValues.Parse, PublicationOf, Tel.IsValid;
      if sequence.Size() != 0 {
        var tel := ParseSequence();
        if tel.IsValid() {
          Publish(tel);
        }
        if sequence.Size() == 1 && lockCounter < 2 {
          lockCounter := 2;
        }
        sequence.Clear();
      }
    }

    /** The telegram in the bytes that were heard. */
    method ParseSequence() returns (t: Tel)
      modifies sequence
      ensures t == TelegramValues.Parse(old(sequence.View()).Logical())
      ensures sequence.View() == old(sequence.View()).Reduced()
    {
      hide TelegramValues.Parse;
      var tel := new Telegram();
      tel.Parse(sequence);
      t := tel.View();
      tel.Clear();
    }

    /** The part of `MonitorBus` that looks for a new message. */
    method ElectMessage()
      modifies this`active, queue
      ensures View() == BusModel.Elect(old(View()))
    {
      if active.None? && queue.Size() > 0 {
        var message := queue.Dequeue();
        active := Some(message);
      }
    }

    method ReceiveMessage() returns (r: Io<State>)
      requires |sequence.bytes| >= 2
      modifies this, sequence, device
      ensures Outcome(View(), r) == BusModel.Receive(old(View()))
    {
      hide BusModel.ReceiveHeader, BusModel.ReceiveBytes, BusModel.Reset, BusModel.Answer;
      var _ :- ReceiveHeader();
      if Count(sequence.At(4)) > MAX_BYTES {
        if active.None? {
          // the source dereferences the missing message here
          return Raised(Crash);
        }
        active := Some(active.value.(state := EBUS_ERR_TRANSMIT));
        Reset();
        return Done(State.MonitorBus);
      }
      var _ :- ReceiveBytes(Count(sequence.At(4)));
      var _ :- ReceiveBytes(1);
      r := AnswerMessage();
    }

    method ReceiveHeader() returns (r: Io<()>)
      modifies this`log, sequence, device`input
      ensures Outcome(View(), r) == BusModel.ReceiveHeader(old(View()), 3)
    {
      hide BusModel.Read;
      var i := 0;
      while i < 3
        invariant 0 <= i <= 3
        invariant BusModel.ReceiveHeader(View(), 3 - i) == BusModel.ReceiveHeader(old(View()), 3)
      {
        var x :- Read();
        sequence.PushBack(x, true);
        i := i + 1;
      }
      r := Done(());
    }

    method ReceiveBytes(count: nat) returns (r: Io<()>)
      modifies this`log, sequence, device`input
      ensures Outcome(View(), r) == BusModel.ReceiveBytes(old(View()), count)
    {
      hide BusModel.Take;
      r := ReadInto(sequence, count);
    }

    /** The second half of `ReceiveMessage`: checks the message and acknowledges it. */
    method AnswerMessage() returns (r: Io<State>)
      modifies this, sequence, device
      ensures Outcome(View(), r) == BusModel.Answer(old(View()))
    {
      hide TelegramValues.CreateMaster, MasterArgument, BusModel.WriteRead;
      var tel := new Telegram();
      tel.CreateMaster(sequence);
      if sequence.Size() < 2 {
        // reading the second byte is out of range
        return Raised(Crash);
      }
      if sequence.At(1) != BROAD {
        var ack := if tel.masterState == SEQ_OK then ACK else NAK;
        var _ :- WriteRead(ack);
        tel.slaveACK := ack;
      }
      if tel.masterState == SEQ_OK {
        if tel.kind != MS {
          Publish(tel.View());
        }
        return Done(State.ProcessMessage);
      }
      sequence.Clear();
      r := Done(State.MonitorBus);
    }

    method ProcessMessage() returns (r: Io<State>)
      modifies this, sequence
      ensures Outcome(View(), r) == BusModel.Process(old(View()))
    {
      hide TelegramValues.CreateMaster, TelegramValues.CreateSlave, MasterArgument, BusModel.React;
      var tel := new Telegram();
      tel.CreateMaster(sequence);
      var reaction := React();
      if reaction.Response? && tel.kind == MS {
        tel.CreateSlaveFrom(reaction.data);
        if tel.slaveState == SEQ_OK {
          passive := Some(tel.View());
          return Done(State.SendResponse);
        }
      }
      sequence.Clear();
      r := Done(State.MonitorBus);
    }

    /** What the callback does with the message. */
    method React() returns (reaction: Reaction)
      modifies this`reactions
      ensures (View(), reaction) == BusModel.React(old(View()))
    {
      reaction := NoFunction;
      if reactions != [] {
        reaction, reactions := reactions[0], reactions[1..];
      }
    }

    method SendResponse() returns (r: Io<State>)
      requires passive.Some?
      modifies this, sequence, device
      ensures Outcome(View(), r) == BusModel.Respond(old(View()))
    {
      hide BusModel.RespondTry, BusModel.Reset;
      var tel := passive.value;
      var _ :- SendSlave(tel);
      Publish(tel);
      Reset();
      r := Done(State.MonitorBus);
    }

    /** The retry loop of `SendResponse`. */
    method SendSlave(tel: Tel) returns (r: Io<()>)
      modifies this`log, device`input, device`faults
      ensures Outcome(View(), r) == BusModel.RespondTry(old(View()), tel, 1)
    {
      hide BusModel.Read, BusModel.WriteRead, BusModel.WriteAll;
      var retry := 1;
      while retry >= 0
        invariant -1 <= retry <= 1
        invariant retry >= 0 ==> BusModel.RespondTry(View(), tel, retry) == BusModel.RespondTry(old(View()), tel, 1)
        invariant retry < 0 ==> BusModel.RespondTry(old(View()), tel, 1) == Ok(View(), ())
        decreases retry
      {
        assert tel.slave.bytes[0..] == tel.slave.bytes;
        var _ :- WriteAll(tel.slave.bytes, 0);
        var _ :- WriteRead(tel.slaveCRC);
        var x :- Read();
        if x != ACK && x != NAK {
          break;
        } else if x == ACK {
          break;
        }
        retry := retry - 1;
      }
      r := Done(());
    }

    method LockBus() returns (r: Io<State>)
      requires active.Some? && active.value.tel.master.bytes != []
      modifies this, sequence, device
      ensures Outcome(View(), r) == BusModel.Lock(old(View()))
    {
      hide BusModel.Read, BusModel.Write, SamePriority;
      log := log.(tried := true, lockHeard := |log.heard|, lockWritten := |log.written|, echoed := true);
      assert View() == Claim(old(View()));
      var qq := active.value.tel.master.bytes[0];
      var _ :- Write(qq);
      var x :- Read();
      if x != qq {
        if !SamePriority(x, qq) {
          lockCounter := lockMax;
        } else {
          lockCounter := 1;
        }
        return Done(State.MonitorBus);
      }
      r := Done(State.SendMessage);
    }

    method SendMessage() returns (r: Io<State>)
      requires active.Some? && active.value.tel.master.bytes != []
      modifies this, sequence, device
      ensures Outcome(View(), r) == BusModel.Send(old(View()))
    {
      hide BusModel.SendOnce;
      var retry: int := 1;
      while retry >= 0
        invariant -1 <= retry <= 1 && active.Some? && active.value.tel.master == old(active.value.tel.master)
        invariant retry >= 0 ==> BusModel.SendTry(View(), retry) == BusModel.SendTry(old(View()), 1)
        invariant retry < 0 ==> BusModel.SendTry(old(View()), 1) == Ok(View(), State.FreeBus)
        decreases retry
      {
        var next :- SendCopy(retry);
        if next.Some? {
          return Done(next.value);
        }
        if retry != 1 {
          active := Some(active.value.(state := EBUS_ERR_TRANSMIT));
        }
        retry := retry - 1;
      }
      r := Done(State.FreeBus);
    }

    /** The body of the retry loop of `SendMessage`. */
    method SendCopy(from: nat) returns (r: Io<Option<State>>)
      requires active.Some? && from <= |active.value.tel.master.bytes|
      modifies this`active, this`log, device`input, device`faults
      ensures Outcome(View(), r) == BusModel.SendOnce(old(View()), from)
    {
      hide BusModel.Read, BusModel.WriteRead, BusModel.WriteAll;
      var tel := active.value.tel;
      var _ :- WriteAll(tel.master.bytes, from);
      var _ :- WriteRead(tel.masterCRC);
      if tel.kind == BC {
        return Done(Some(State.FreeBus));
      }
      var x :- Read();
      active := Some(active.value.(tel := tel.(slaveACK := x)));
      if x != ACK && x != NAK {
        active := Some(active.value.(state := EBUS_ERR_TRANSMIT));
        return Done(Some(State.FreeBus));
      } else if x == ACK {
        return Done(Some(if tel.kind == MM then State.FreeBus else State.ReceiveResponse));
      }
      r := Done(None);
    }

    method ReceiveResponse() returns (r: Io<State>)
      requires active.Some?
      modifies this, sequence, device
      ensures Outcome(View(), r) == BusModel.Listen(old(View()))
    {
      hide BusModel.ListenOnce;
      var seq0 := new Sequence();
      var retry := 1;
      while retry >= 0
        invariant -1 <= retry <= 1 && active.Some?
        invariant fresh(seq0) && (retry >= 0 ==> seq0.View() == EMPTY)
        invariant retry >= 0 ==> BusModel.ListenTry(View(), retry) == BusModel.ListenTry(old(View()), 1)
        invariant retry < 0 ==> BusModel.ListenTry(old(View()), 1) == Ok(View(), State.FreeBus)
        decreases retry
      {
        var next :- ReceiveCopy(seq0);
        if next.Some? {
          return Done(next.value);
        }
        if retry == 1 {
          seq0.Clear();
        } else {
          active := Some(active.value.(state := EBUS_ERR_TRANSMIT));
        }
        retry := retry - 1;
      }
      r := Done(State.FreeBus);
    }

    /** The body of the retry loop of `ReceiveResponse`. */
    method ReceiveCopy(seq0: Sequence) returns (r: Io<Option<State>>)
      requires active.Some? && seq0 != sequence && seq0.View() == EMPTY
      modifies this, sequence, device, seq0
      ensures Outcome(View(), r) == BusModel.ListenOnce(old(View()))
    {
      hide BusModel.Read, BusModel.Take, BusModel.Reset, BusModel.AnswerResponse, Count;
      var nn :- Read();
      if Count(nn) > MAX_BYTES {
        active := Some(active.value.(state := EBUS_ERR_TRANSMIT));
        Reset();
        return Done(Some(State.MonitorBus));
      }
      seq0.PushBack(nn, true);
      ghost var input, b1 := device.input, View();
      var _ :- ReadInto(seq0, Count(nn) + 1);
      assert seq0.View() == Buffer([nn] + Take(input, Count(nn) + 1).got, true);
      assert View() == Hear(b1, Take(input, Count(nn) + 1));
      r := AnswerSlave(seq0);
    }

    /** The second half of that body: checks the response and acknowledges it. */
    method AnswerSlave(seq0: Sequence) returns (r: Io<Option<State>>)
      requires active.Some? && seq0 != sequence
      modifies this`active, this`log, device`input, device`faults, seq0
      ensures Outcome(View(), r) == BusModel.AnswerResponse(old(View()), old(seq0.View()))
    {
      hide BusModel.WriteRead, TelegramValues.CreateSlave;
      StoreSlave(seq0);
      var ok := active.value.tel.slaveState == SEQ_OK;
      var ack := if ok then ACK else NAK;
      var _ :- WriteRead(ack);
      active := Some(active.value.(tel := active.value.tel.(masterACK := ack)));
      r := Done(if ok then Some(State.FreeBus) else None);
    }

    /** Checks the response into the telegram of the active message. */
    method StoreSlave(seq0: Sequence)
      requires active.Some? && seq0 != sequence
      modifies this`active, seq0
      ensures var t := TelegramValues.CreateSlave(old(active).value.tel, old(seq0.View()).Logical());
              View() == WithTel(old(View()), t)
    {
      hide TelegramValues.CreateSlave, SlaveArgument;
      var tel := new Telegram.Of(active.value.tel);
      tel.CreateSlave(seq0);
      active := Some(active.value.(tel := tel.View()));
    }

    method FreeBus() returns (r: Io<State>)
      modifies this, sequence, device
      ensures Outcome(View(), r) == BusModel.Free(old(View()))
    {
      hide BusModel.WriteRead, BusModel.Reset;
      var _ :- WriteRead(SYN);
      Reset();
      r := Done(State.MonitorBus);
    }

    method HandleDeviceError(error: bool) returns (s: State)
      modifies this, sequence, device
      ensures (View(), s) == BusModel.HandleDeviceError(old(View()), error)
    {
      hide BusModel.Reset;
      if active.Some? {
        active := Some(active.value.(state := EBUS_ERR_DEVICE));
      }
      Reset();
      if error {
        device.Close();
        return State.OpenDevice;
      }
      s := State.MonitorBus;
    }

    /** One iteration of `run` with its exception handlers, before the test of the close flag. */
    method RunState(s: State) returns (r: Io<State>)
      requires Ready(View(), s)
      modifies this, sequence, device, queue
      ensures Outcome(View(), r) == BusModel.Guarded(old(View()), s)
    {
      hide BusModel.Idle, BusModel.Open, BusModel.Monitor, BusModel.Receive, BusModel.Process, BusModel.Respond,
        BusModel.Lock, BusModel.Send, BusModel.Listen, BusModel.Free, BusModel.HandleDeviceError;
      match s {
        case IdleSystem =>
          IdleSystem();
          r := Done(State.OpenDevice);
        case OpenDevice => r := OpenDevice();
        case MonitorBus => r := MonitorBus();
        case ReceiveMessage => r := ReceiveMessage();
        case ProcessMessage => r := ProcessMessage();
        case SendResponse => r := SendResponse();
        case LockBus => r := LockBus();
        case SendMessage => r := SendMessage();
        case ReceiveResponse => r := ReceiveResponse();
        case FreeBus => r := FreeBus();
      }
      if r.Raised? && r.signal != Crash {
        var next := HandleDeviceError(r.signal == Error);
        r := Done(next);
      }
    }

    /** The first half of `transmit`: builds the message and hands it over, or says why not. */
    method Submit(id: nat, vec: seq<Byte>) returns (result: int)
      modifies queue
      ensures var m := Submission(old(View()), id, vec);
              && result == (if m.None? then -2 else if !old(online) then -5 else 0)
              && queue.items == if result == SEQ_OK then old(queue.items) + [m.value] else old(queue.items)
    {
      hide TelegramValues.CreateMaster, IsMaster;
      var tel := new Telegram();
      tel.CreateMasterFrom(address, vec);
      if tel.masterState != SEQ_OK {
        return EBUS_ERR_SEQUENCE;
      }
      AcceptedSource(address, vec);
      if !IsMaster(address) {
        // never taken: the frame starts with the own address, so it was refused above
        assert false;
      }
      if !online {
        return EBUS_ERR_OFFLINE;
      }
      queue.Enqueue(Message(id, tel.View(), 0));
      result := SEQ_OK;
    }
  }
}

/**
 What callers are told. A message is handed back by at most one state method, and what its result says about the
 transfer: `freeBus` reports success exactly for a successful transfer, while `idleSystem` and `sendResponse` also
 hand back a message that is still waiting, with the same result as a success.
 */
module Results {
  import opened Wrappers
  import opened Bytes
  import opened Sequences
  import opened TelegramValues
  import opened BusModel
  import opened Machine
  import opened Runs
  import opened Transfers

  // ---------- The transitions ----------

  predicate Follows(s: State, next: State) {
    match s
    case IdleSystem => next == OpenDevice
    case OpenDevice => next == MonitorBus
    case MonitorBus => next == MonitorBus || next == ReceiveMessage || next == LockBus
    case ReceiveMessage => next == ProcessMessage || next == MonitorBus
    case ProcessMessage => next == SendResponse || next == MonitorBus
    case SendResponse => next == MonitorBus
    case LockBus => next == SendMessage || next == MonitorBus
    case SendMessage => next == ReceiveResponse || next == FreeBus
    case ReceiveResponse => next == FreeBus || next == MonitorBus
    case FreeBus => next == MonitorBus
  }

  /** The results with which a state method hands back the message `m`. */
  function ResultsOf(m: Message, s: State): set<int> {
    if s == IdleSystem || s == SendResponse || s == FreeBus then {m.state} else {EBUS_ERR_TRANSMIT}
  }

  predicate EndsPublished(l: Log, p: Publication) {
    l.published != [] && l.published[|l.published| - 1] == p
  }

  /** At most the active message was handed back, with one of the results; it was published as the last thing. */
  predicate HandedBack(b: Bus, a: Bus, results: set<int>) {
    || a.log.completed == b.log.completed
    || (&& b.active.Some? && |a.log.completed| == |b.log.completed| + 1
        && a.log.completed[..|b.log.completed|] == b.log.completed
        && var m := a.log.completed[|b.log.completed|];
           && m.id == b.active.value.id && m.state in results
           && EndsPublished(a.log, Publication(m.tel.master.bytes, m.tel.slave.bytes)))
  }

  /** Nothing was handed back: the same message is active. */
  predicate SameMessage(a: Bus, b: Bus) {
    && a.log.completed == b.log.completed && a.online == b.online && a.active.Some? == b.active.Some?
    && (b.active.Some? ==> a.active.value.id == b.active.value.id)
  }

  /** A state method leads to a next state and may hand back the active message; an exception hands back nothing. */
  predicate Effect(b: Bus, s: State, r: Run<State>) {
    if r.Raise? then SameMessage(r.bus, b)
    else
      && Follows(s, r.value)
      && (b.active.None? ==> r.bus.log.completed == b.log.completed)
      && (b.active.Some? ==> HandedBack(b, r.bus, ResultsOf(b.active.value, s)))
      && r.bus.online == (s == OpenDevice || (s != IdleSystem && b.online))
  }

  lemma ResetHands(b: Bus, c: Bus, a: Bus)
    requires SameMessage(c, b) && a.log == Reset(c).log
    ensures Reset(c).online == b.online
    ensures b.active.Some? ==> HandedBack(b, a, {c.active.value.state})
    ensures b.active.None? ==> a.log.completed == b.log.completed
  {
    hide Sendable;
  }

  lemma IdleEffect(b: Bus)
    ensures Effect(b, IdleSystem, Ok(Idle(b), OpenDevice))
  {
    hide Reset, HandedBack, Sendable;
    ResetHands(b, b.(device := b.device.(open := false)), Idle(b));
  }

  lemma FlushEffect(b: Bus, a: Bus)
    requires b.active.None? && Apart(a, b)
    ensures Effect(b, OpenDevice, Flush(a))
    decreases |a.device.input|
  {
    hide Reset, HandedBack, Sendable;
    var r := Read(a);
    if r.Ok? && r.value == SYN {
      ResetHands(b, r.bus, Reset(r.bus).(online := true));
    } else if r.Ok? {
      FlushEffect(b, r.bus);
    }
  }

  lemma OpenEffect(b: Bus)
    requires b.active.None?
    ensures Effect(b, OpenDevice, Open(b))
  {
    hide Flush, HandedBack, Sendable;
    var d := b.device;
    var b1 := if d.openings == [] then b else b.(device := d.(openings := d.openings[1..]));
    FlushEffect(b, b);
    FlushEffect(b, b1.(device := b1.device.(open := true)));
  }

  lemma MonitorEffect(b: Bus)
    ensures Effect(b, MonitorBus, Monitor(b))
  {
    hide Decode, CountDown, Addressed, Sendable;
    var r := Read(b);
    if r.Ok? {
      CountsDown(r.bus);
    }
  }

  lemma ReceiveEffect(b: Bus)
    requires Ready(b, ReceiveMessage)
    ensures Effect(b, ReceiveMessage, Receive(b))
  {
    hide Sendable, ReceiveHeader, ReceiveBytes, Answer, Reset, HandedBack;
    HeaderKept(b, b, 3);
    var r1 := ReceiveHeader(b, 3);
    if r1.Ok? {
      var n := Count(r1.bus.sequence.bytes[4]);
      ResetHands(b, Mark(r1.bus, EBUS_ERR_TRANSMIT), Reset(Mark(r1.bus, EBUS_ERR_TRANSMIT)));
      BytesKept(b, r1.bus, n);
      var r2 := ReceiveBytes(r1.bus, n);
      BytesKept(b, r2.bus, 1);
      var r3 := ReceiveBytes(r2.bus, 1);
      AnswerUntouched(b, r3.bus);
      SilentEffect(b, ReceiveMessage, Answer(r3.bus));
    }
  }

  lemma SilentEffect(b: Bus, s: State, r: Run<State>)
    requires SameMessage(r.bus, b)
    requires r.Ok? ==> Follows(s, r.value) && s != IdleSystem && s != OpenDevice
    ensures Effect(b, s, r)
  {
    hide Sendable;
  }

  lemma ProcessEffect(b: Bus)
    ensures Effect(b, ProcessMessage, Process(b))
  {
    hide Sendable, CreateMaster, CreateSlave, MasterArgument;
  }

  lemma RespondEffect(b: Bus)
    requires b.passive.Some?
    ensures Effect(b, SendResponse, Respond(b))
  {
    hide Sendable, RespondTry, Reset, HandedBack;
    var t := b.passive.value;
    RespondTryKept(b, b, t, 1);
    var r := RespondTry(b, t, 1);
    if r.Ok? {
      ResetHands(b, Publish(r.bus, t), Reset(Publish(r.bus, t)));
    }
  }

  lemma LockEffect(b: Bus)
    requires Ready(b, LockBus)
    ensures Effect(b, LockBus, Lock(b))
  {
    hide Sendable, SamePriority;
  }

  lemma SendEffect(b: Bus, a: Bus, retry: nat)
    requires a.active.Some? && retry <= |a.active.value.tel.master.bytes| && Untouched(a, b)
    ensures Effect(b, SendMessage, SendTry(a, retry))
    decreases retry
  {
    hide Sendable, SendOnce, HandedBack, Effect;
    SendOnceApart(b, a, retry);
    var r := SendOnce(a, retry);
    if r.Ok? && r.value.None? && retry > 0 {
      SendEffect(b, r.bus, retry - 1);
    } else {
      MarkSame(r.bus, b, EBUS_ERR_TRANSMIT);
      SilentEffect(b, SendMessage, SendTry(a, retry));
    }
  }

  lemma MarkSame(a: Bus, b: Bus, state: int)
    requires SameMessage(a, b)
    ensures SameMessage(Mark(a, state), b)
  {
  }

  lemma ListenOnceApart(b: Bus, a: Bus)
    requires a.active.Some? && Untouched(a, b)
    ensures var r := ListenOnce(a);
            && (r.Raise? || r.value != Some(MonitorBus) ==> Untouched(r.bus, b))
            && (r.Ok? && r.value.Some? ==> r.value.value == FreeBus || r.value.value == MonitorBus)
            && (r.Ok? && r.value == Some(MonitorBus) ==>
                 HandedBack(b, r.bus, {EBUS_ERR_TRANSMIT}) && r.bus.online == b.online)
  {
    hide Sendable, Read, Take, Reset, AnswerResponse, Count, HandedBack;
    var r1 := Read(a);
    if r1.Ok? {
      MarkSame(r1.bus, b, EBUS_ERR_TRANSMIT);
      ResetHands(b, Mark(r1.bus, EBUS_ERR_TRANSMIT), Reset(Mark(r1.bus, EBUS_ERR_TRANSMIT)));
      var taken := Take(r1.bus.device.input, Count(r1.value) + 1);
      var b2 := Hear(r1.bus, taken);
      AnswerResponseApart(b, b2, Buffer([r1.value] + taken.got, true));
    }
  }

  lemma ListenEffect(b: Bus, a: Bus, retry: nat)
    requires a.active.Some? && Untouched(a, b)
    ensures Effect(b, ReceiveResponse, ListenTry(a, retry))
    decreases retry
  {
    hide Sendable, ListenOnce, HandedBack;
    ListenOnceApart(b, a);
    var r := ListenOnce(a);
    if r.Ok? && r.value.None? && retry > 0 {
      ListenEffect(b, r.bus, retry - 1);
    } else if !(r.Ok? && r.value == Some(MonitorBus)) {
      MarkSame(r.bus, b, EBUS_ERR_TRANSMIT);
      SilentEffect(b, ReceiveResponse, ListenTry(a, retry));
    }
  }

  lemma FreeEffect(b: Bus)
    ensures Effect(b, FreeBus, Free(b))
  {
    hide Sendable, WriteRead, Reset, HandedBack;
    var r := WriteRead(b, SYN);
    if r.Ok? {
      ResetHands(b, r.bus, Reset(r.bus));
    }
  }

  lemma ExecuteEffect(b: Bus, s: State)
    requires Good(b, s)
    ensures Effect(b, s, Execute(b, s))
  {
    hide Sound, Idle, Open, Monitor, Receive, Process, Respond, Lock, Send, Listen, Free, Ready, Effect;
    GoodReady(b, s);
    match s
    case IdleSystem => IdleEffect(b);
    case OpenDevice => OpenEffect(b);
    case MonitorBus => MonitorEffect(b);
    case ReceiveMessage => ReceiveEffect(b);
    case ProcessMessage => ProcessEffect(b);
    case SendResponse => RespondEffect(b);
    case LockBus => LockEffect(b);
    case SendMessage => SendFromStart(b);
    case ReceiveResponse => ListenFromStart(b);
    case FreeBus => FreeEffect(b);
  }

  lemma SendFromStart(b: Bus)
    requires Ready(b, SendMessage)
    ensures Effect(b, SendMessage, Send(b))
  {
    hide Effect, SendTry;
    SendEffect(b, b, 1);
  }

  lemma ListenFromStart(b: Bus)
    requires Ready(b, ReceiveResponse)
    ensures Effect(b, ReceiveResponse, Listen(b))
  {
    hide Effect, ListenTry;
    ListenEffect(b, b, 1);
  }

  lemma ErrorHands(b: Bus, a: Bus, error: bool)
    requires SameMessage(a, b)
    ensures var (c, next) := HandleDeviceError(a, error);
            && (next == OpenDevice || next == MonitorBus) && c.online == b.online
            && (b.active.None? ==> c.log.completed == b.log.completed)
            && (b.active.Some? ==> HandedBack(b, c, {EBUS_ERR_DEVICE}))
  {
    hide Sendable, Reset, HandedBack;
    var (c, next) := HandleDeviceError(a, error);
    MarkSame(a, b, EBUS_ERR_DEVICE);
    ResetHands(b, Mark(a, EBUS_ERR_DEVICE), c);
  }

  // ---------- Every run ----------

  /** Two bytes of a message were heard, and the second one is no SYN. */
  predicate Headed(b: Bus) {
    |b.sequence.bytes| == 2 && b.sequence.bytes[1] != SYN
  }

  lemma MonitorHeads(b: Bus)
    ensures Monitor(b).Ok? && Monitor(b).value == ReceiveMessage ==> Headed(Monitor(b).bus)
    ensures Monitor(b).Ok? && Monitor(b).value == LockBus ==> Monitor(b).bus.sequence.bytes == []
  {
    hide SlaveAddress, Parse;
  }

  /** The stage of the transfer, or of the message that comes in, that goes with the state. */
  ghost predicate Traced(b: Bus, s: State) {
    && (s == ReceiveMessage ==> Headed(b))
    && (s == LockBus ==> b.sequence.bytes == [])
    && (s == SendMessage ==> Claimed(b))
    && (s == ReceiveResponse ==> Awaiting(b))
    && (s == FreeBus ==> Finished(b))
  }

  ghost predicate Tracked(s: Sys) {
    Invariant(s) && (s.pc.Exec? || s.pc.Check? ==> Traced(s.bus, s.pc.state))
  }

  lemma TracedSame(a: Bus, b: Bus, s: State)
    requires a.active == b.active && a.log == b.log && a.sequence == b.sequence && Traced(a, s)
    ensures Traced(b, s)
  {
    hide Transcript, Sent, Confirmed, Settled;
  }

  lemma SendableKind(t: Tel)
    requires Sendable(t)
    ensures t.kind != Undefined
  {
    hide IsMaster;
  }

  lemma ExecuteTraced(b: Bus, s: State)
    requires Good(b, s) && Traced(b, s)
    ensures Execute(b, s).Ok? ==> Traced(Execute(b, s).bus, Execute(b, s).value)
  {
    hide Headed, Claimed, Awaiting, Finished, HandedBack, Fresh, Sendable, Spaced, Apart,
      Idle, Open, Monitor, Receive, Process, Respond, Lock, Send, Listen, Free;
    ExecuteEffect(b, s);
    GoodReady(b, s);
    MonitorHeads(b);
    if s == LockBus && Lock(b).Ok? && Lock(b).value == SendMessage {
      LockClaims(b);
    } else if s == SendMessage {
      SendableKind(b.active.value.tel);
      SendLeads(b);
    } else if s == ReceiveResponse {
      ListenLeads(b);
    }
  }

  lemma GuardedTraced(b: Bus, s: State)
    requires Good(b, s) && Traced(b, s)
    ensures Guarded(b, s).Ok? ==> Traced(Guarded(b, s).bus, Guarded(b, s).value)
  {
    hide Good, Execute, Claimed, Awaiting, Finished;
    ExecuteTraced(b, s);
  }

  lemma ActTracked(s: Sys, a: Action)
    requires Tracked(s)
    ensures Tracked(Act(s, a))
  {
    hide Invariant, Guarded, Traced, Submission;
    ActInvariant(s, a);
    if a == Thread {
      if s.pc.Exec? {
        InvariantGood(s);
        GuardedTraced(s.bus, s.pc.state);
      }
      NothingTraced(Act(s, a).bus);
    } else if s.pc.Exec? || s.pc.Check? {
      TracedSame(s.bus, Act(s, a).bus, s.pc.state);
    }
  }

  lemma NothingTraced(b: Bus)
    ensures Traced(b, IdleSystem) && Traced(b, OpenDevice)
  {
    hide Claimed, Awaiting, Finished;
  }

  lemma InvariantGood(s: Sys)
    requires Invariant(s) && (s.pc.Exec? || s.pc.Check?)
    ensures Good(s.bus, s.pc.state)
  {
    hide Good;
  }

  lemma {:induction false} RunTracked(s: Sys, actions: seq<Action>)
    requires Tracked(s)
    ensures Tracked(After(s, actions))
    decreases |actions|
  {
    hide Tracked, Act;
    if actions != [] {
      ActTracked(s, actions[0]);
      RunTracked(Act(s, actions[0]), actions[1..]);
    }
  }

  lemma ReachedTracked(s: Sys)
    requires Reached(s)
    ensures Tracked(s)
  {
    hide Tracked, After;
    var address, lockMax, openMax, device, reactions, actions :|
      s == After(Start(address, lockMax, openMax, device, reactions), actions);
    StartTracked(address, lockMax, openMax, device, reactions);
    RunTracked(Start(address, lockMax, openMax, device, reactions), actions);
  }

  lemma StartTracked(address: Byte, lockMax: int, openMax: int, device: Device, reactions: seq<Reaction>)
    ensures Tracked(Start(address, lockMax, openMax, device, reactions))
  {
    hide Invariant, Traced;
    StartInvariant(address, lockMax, openMax, device, reactions);
    NothingTraced(Start(address, lockMax, openMax, device, reactions).bus);
  }

  /** Unless the own address is EXP, the thread crashes exactly at an oversized length while nobody waits. */
  lemma CrashedByLength(s: Sys)
    requires Reached(s) && !s.pc.Crashed? && s.bus.address != EXP
    ensures Step(s).pc.Crashed? <==> s.pc == Exec(ReceiveMessage) && OversizedUnasked(s.bus)
  {
    hide Reached, Step, OversizedUnasked, DecodesShort, Addressed, Sound, Ledger;
    CrashExactly(s);
    if s.pc == Exec(ReceiveMessage) {
      ReachedTracked(s);
      HeaderNeverShort(s.bus);
    }
  }

  // ---------- The results ----------

  /**
   Freeing the bus hands back the message with the result its transfer deserves: everything heard and written since
   the bus was claimed is that transfer, with at most two copies of the master frame and at most two responses.
   Only when the closing SYN fails is the result a device error instead.
   */
  lemma TransferResult(s: Sys) returns (x: Exchange)
    requires Reached(s) && s.pc == Exec(FreeBus)
    ensures s.bus.active.Some?
    ensures var m := s.bus.active.value;
            && Transcript(s.bus.log, Frame(m.tel), x, []) && Settled(m, x)
            && |x.attempts| <= 2 && |x.replies| <= 2
            && Step(s).bus.log.completed == s.bus.log.completed + [m.(state :=
                 if Free(s.bus).Raise? then EBUS_ERR_DEVICE
                 else if Succeeded(x, m.tel) then SEQ_OK else EBUS_ERR_TRANSMIT)]
  {
    hide Invariant, Transcript, Sent, Replied, Succeeded, After, Reached, Awaiting, Claimed;
    ReachedTracked(s);
    var m := s.bus.active.value;
    x :| Transcript(s.bus.log, Frame(m.tel), x, []) && Settled(m, x);
    AtMostTwo(x, m.tel);
    FreeHands(s.bus);
  }

  lemma AtMostTwo(x: Exchange, t: Tel)
    requires Sent(x, t) && Replied(x, t)
    ensures |x.attempts| <= 2 && |x.replies| <= 2
  {
    hide Confirmed, Answered;
  }

  lemma FreeHands(b: Bus)
    requires b.active.Some?
    ensures var r := Guarded(b, FreeBus);
            && r.Ok?
            && r.bus.log.completed == b.log.completed +
                 [if Free(b).Raise? then b.active.value.(state := EBUS_ERR_DEVICE) else b.active.value]
  {
    hide WriteRead;
  }

  /**
   Each step hands back at most the active message. Without a device error the result is the one it had
   (`idleSystem`, `sendResponse` and `freeBus`) or a failed transmission (everywhere else).
   */
  lemma HandedBackBy(s: Sys, state: State)
    requires Invariant(s) && s.pc == Exec(state)
    ensures var c, c' := s.bus.log.completed, Step(s).bus.log.completed;
            && (s.bus.active.None? || Step(s).pc.Crashed? ==> c' == c)
            && (s.bus.active.Some? && !Step(s).pc.Crashed? ==>
                 HandedBack(s.bus, Step(s).bus,
                   if Execute(s.bus, state).Raise? then {EBUS_ERR_DEVICE} else ResultsOf(s.bus.active.value, state)))
  {
    hide Good, Execute, HandedBack, Sendable, ResultsOf, Follows;
    ExecuteEffect(s.bus, state);
    var r := Execute(s.bus, state);
    if r.Raise? && r.signal != Crash {
      ErrorHands(s.bus, r.bus, r.signal == Error);
    }
  }

  /** The results that a caller can get, and those that the active message can have. */
  predicate KnownResults(b: Bus) {
    && (forall i :: 0 <= i < |b.log.completed| ==> b.log.completed[i].state in {0, -3, -4})
    && (b.active.Some? ==> b.active.value.state in {0, -3})
  }

  lemma ActiveNumber(b: Bus, s: State)
    requires Good(b, s) && Traced(b, s) && b.active.Some? && s != IdleSystem
    ensures b.active.value.state in {0, -3}
  {
    hide Sound, Claimed, Awaiting, Transcript, Sent, Replied, Succeeded, Addressed, Spaced;
  }

  lemma StepNumbers(s: Sys)
    requires Tracked(s) && KnownResults(s.bus)
    ensures KnownResults(Step(s).bus) || Step(s).pc.Crashed?
  {
    hide Traced, Good, Execute, Guarded, HandedBack, Follows, Ledger;
    if s.pc.Exec? && !Step(s).pc.Crashed? {
      HandedBackBy(s, s.pc.state);
      ActTracked(s, Thread);
      HandedNumbers(s, s.pc.state);
      NextNumber(s);
    }
  }

  /** Whatever is active next has a result that goes with the next state. */
  lemma NextNumber(s: Sys)
    requires Tracked(s) && Tracked(Act(s, Thread)) && s.pc.Exec? && !Step(s).pc.Crashed?
    ensures Step(s).bus.active.Some? ==> Step(s).bus.active.value.state in {0, -3}
  {
    hide Traced, Good, Execute, Numbered, Ledger, Idle;
    var t := Step(s);
    GuardedIdle(s.bus);
    IdleActive(s.bus);
    if t.pc.Check? && t.bus.active.Some? {
      InvariantGood(t);
      NotIdleNext(s);
      ActiveNumber(t.bus, t.pc.state);
    }
  }

  lemma IdleActive(b: Bus)
    ensures Idle(b).active.None?
  {
  }

  lemma NotIdleNext(s: Sys)
    requires Invariant(s) && s.pc.Exec?
    ensures Step(s).pc.Check? ==> Step(s).pc.state != IdleSystem
  {
    hide Good, Execute, HandedBack, ResultsOf, Ledger;
    ExecuteEffect(s.bus, s.pc.state);
  }

  lemma HandedNumbers(s: Sys, state: State)
    requires s.pc == Exec(state) && KnownResults(s.bus) && !Step(s).pc.Crashed?
    requires s.bus.active.None? ==> Step(s).bus.log.completed == s.bus.log.completed
    requires s.bus.active.Some? ==>
               HandedBack(s.bus, Step(s).bus,
                 if Execute(s.bus, state).Raise? then {EBUS_ERR_DEVICE} else ResultsOf(s.bus.active.value, state))
    ensures var c := Step(s).bus.log.completed; forall i :: 0 <= i < |c| ==> c[i].state in {0, -3, -4}
  {
    hide Execute, Step;
    var c, c' := s.bus.log.completed, Step(s).bus.log.completed;
    if c' != c {
      assert c' == c + [c'[|c|]];
    }
  }

  lemma {:induction false} RunNumbers(s: Sys, actions: seq<Action>)
    requires Tracked(s) && KnownResults(s.bus) && !After(s, actions).pc.Crashed?
    ensures KnownResults(After(s, actions).bus)
    decreases |actions|
  {
    hide Tracked, KnownResults, Act;
    if actions != [] {
      var t := Act(s, actions[0]);
      ActTracked(s, actions[0]);
      if t.pc.Crashed? {
        CrashedForGood(t, actions[1..]);
      }
      ActNumbers(s, actions[0]);
      RunNumbers(t, actions[1..]);
    }
  }

  lemma ActNumbers(s: Sys, a: Action)
    requires Tracked(s) && KnownResults(s.bus)
    ensures KnownResults(Act(s, a).bus) || Act(s, a).pc.Crashed?
  {
    hide Tracked, Step, Submission;
    if a == Thread {
      StepNumbers(s);
    }
  }

  lemma {:induction false} CrashedForGood(s: Sys, actions: seq<Action>)
    requires s.pc.Crashed?
    ensures After(s, actions).pc.Crashed?
    decreases |actions|
  {
    hide Submission;
    if actions != [] {
      CrashedForGood(Act(s, actions[0]), actions[1..]);
    }
  }

  /** On every run the results that are handed back are 0, -3 for a failed transmission, and -4 for a device error. */
  lemma ResultNumbers(s: Sys)
    requires Reached(s) && !s.pc.Crashed?
    ensures forall i :: 0 <= i < |s.bus.log.completed| ==> s.bus.log.completed[i].state in {0, -3, -4}
  {
    hide After, Tracked;
    var address, lockMax, openMax, device, reactions, actions :|
      s == After(Start(address, lockMax, openMax, device, reactions), actions);
    StartTracked(address, lockMax, openMax, device, reactions);
    RunNumbers(Start(address, lockMax, openMax, device, reactions), actions);
  }

  /**
   A result of zero does not always mean that the message was sent. Answering somebody else's message hands back the
   message that is waiting for the bus, with result zero, and publishes it like one that was.
   */
  lemma WaitingMessageReportedSent(s: Sys)
    requires Reached(s) && s.pc == Exec(SendResponse) && s.bus.active.Some? && Execute(s.bus, SendResponse).Ok?
    ensures var m := s.bus.active.value;
            m.state == SEQ_OK && Step(s).bus.active.None?
            && |Step(s).bus.log.completed| == |s.bus.log.completed| + 1
            && Step(s).bus.log.completed[|s.bus.log.completed|] == m
            && s.bus.passive.Some?
            && Step(s).bus.log.published
               == s.bus.log.published + [PublicationOf(s.bus.passive.value), PublicationOf(m.tel)]
  {
    hide After, Reached, RespondTry, Ready, PublicationOf;
    StateInvariant(s, SendResponse);
    var t := s.bus.passive.value;
    RespondTryUntouched(s.bus, t, 1);
  }

  /** Two SYN bytes are all that is ever heard. */
  function Quiet(address: Byte, reactions: seq<Reaction>): Sys {
    Start(address, 5, 10, Device(false, [Data(SYN), Data(SYN)], [], []), reactions)
  }

  /** The device is opened, a message is enqueued and becomes active at the next SYN, and the participant is closed. */
  function ClosedEarly(vec: seq<Byte>): seq<Action> {
    [Thread, Enqueue(vec)] + [Thread, Thread, Close] + [Thread, Thread]
  }

  lemma {:induction false} AfterConcat(s: Sys, a: seq<Action>, b: seq<Action>)
    ensures After(s, a + b) == After(After(s, a), b)
    decreases |a|
  {
    hide Act;
    if a == [] {
      assert a + b == b;
    } else {
      assert (a + b)[1..] == a[1..] + b;
      AfterConcat(Act(s, a[0]), a[1..], b);
    }
  }

  lemma AfterOne(s: Sys, a: Action)
    ensures After(s, [a]) == Act(s, a)
  {
    hide Act;
    assert [a][1..] == [];
    assert After(Act(s, a), []) == Act(s, a);
  }

  /** Every message that is accepted can be reported as sent without a single byte having been written. */
  lemma ReportedButNeverSent(address: Byte, vec: seq<Byte>, reactions: seq<Reaction>)
    requires Submission(Quiet(address, reactions).bus, 0, vec).Some?
    ensures var s := After(Quiet(address, reactions), ClosedEarly(vec));
            && Reached(s) && s.bus.log.written == []
            && s.bus.log.completed == [Message(0, CreateMaster(CLEARED, [address] + vec), SEQ_OK)]
  {
    hide Reached, After, Step, Submission, CreateMaster;
    var s0 := Quiet(address, reactions);
    var m := Message(0, CreateMaster(CLEARED, [address] + vec), SEQ_OK);
    var s1 := Opened(address, vec, reactions);
    var s2 := Elected(s1, m);
    var s3 := Closed(s2, m);
    AfterConcat(s0, [Thread, Enqueue(vec)] + [Thread, Thread, Close], [Thread, Thread]);
    AfterConcat(s0, [Thread, Enqueue(vec)], [Thread, Thread, Close]);
    assert After(s0, ClosedEarly(vec)) == s3;
    QuietReached(address, vec, reactions);
  }

  lemma QuietReached(address: Byte, vec: seq<Byte>, reactions: seq<Reaction>)
    ensures Reached(After(Quiet(address, reactions), ClosedEarly(vec)))
  {
    hide After, ClosedEarly;
  }

  /** Waiting for the bus, nothing written and nothing handed back so far. */
  predicate Idling(s: Sys, queue: seq<Message>, active: Option<Message>) {
    && s.bus.queue == queue && s.bus.active == active && s.bus.log.written == [] && s.bus.log.completed == []
    && s.bus.sequence == EMPTY
  }

  lemma Opened(address: Byte, vec: seq<Byte>, reactions: seq<Reaction>) returns (s: Sys)
    requires Submission(Quiet(address, reactions).bus, 0, vec).Some?
    ensures s == After(Quiet(address, reactions), [Thread, Enqueue(vec)])
    ensures Idling(s, [Message(0, CreateMaster(CLEARED, [address] + vec), SEQ_OK)], None)
    ensures s.pc == Check(MonitorBus) && !s.close && !s.notified
    ensures s.bus.lockCounter == 5 && s.bus.device.input == [Data(SYN)]
  {
    hide CreateMaster, IsMaster;
    var s0 := Quiet(address, reactions);
    var s1 := Act(s0, Thread);
    assert s1.pc == Check(MonitorBus) && s1.bus.device.input == [Data(SYN)] by {
      OpensQuietly(s0.bus);
    }
    OpensQuietly(s0.bus);
    s := Act(s1, Enqueue(vec));
    AfterTwo(s0, Thread, Enqueue(vec));
  }

  lemma OpensQuietly(b: Bus)
    requires !b.device.open && b.device.openings == [] && b.device.input == [Data(SYN), Data(SYN)]
    ensures var r := Guarded(b, OpenDevice);
            && r.Ok? && r.value == MonitorBus
            && var b1 := b.(device := Device(true, [Data(SYN)], b.device.faults, []),
                            log := b.log.(heard := b.log.heard + [SYN]));
               r.bus == Reset(b1).(online := true)
  {
    hide Reset;
  }

  lemma AfterTwo(s: Sys, a: Action, b: Action)
    ensures After(s, [a, b]) == Act(Act(s, a), b)
  {
    hide Act;
    assert [a, b][1..] == [b] && [b][1..] == [];
    assert After(Act(s, a), [b]) == After(Act(Act(s, a), b), []);
  }

  lemma Elected(s: Sys, m: Message) returns (t: Sys)
    requires Idling(s, [m], None) && s.pc == Check(MonitorBus) && !s.close && !s.notified
    requires s.bus.lockCounter == 5 && s.bus.device.input == [Data(SYN)]
    ensures t == After(s, [Thread, Thread, Close])
    ensures Idling(t, [], Some(m)) && t.pc == Check(MonitorBus) && t.close && !t.notified
  {
    hide Parse;
    var s1 := Act(s, Thread);
    assert s1.pc == Exec(MonitorBus) && s1.bus == s.bus;
    var s2 := Act(s1, Thread);
    t := Act(s2, Close);
    AfterTwo(s, Thread, Thread);
    AfterConcat(s, [Thread, Thread], [Close]);
    assert [Thread, Thread] + [Close] == [Thread, Thread, Close] && [Close][1..] == [];
  }

  lemma Closed(s: Sys, m: Message) returns (t: Sys)
    requires Idling(s, [], Some(m)) && s.pc == Check(MonitorBus) && s.close
    ensures t == After(s, [Thread, Thread])
    ensures t.bus.log.written == [] && t.bus.log.completed == [m]
  {
    hide Guarded;
    var s1 := Act(s, Thread);
    t := Act(s1, Thread);
    GuardedIdle(s1.bus);
    AfterTwo(s, Thread, Thread);
    assert [] + [m] == [m];
  }
}

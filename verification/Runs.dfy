/** What holds on every run, whatever the device, the callers and the callbacks do. */
module Runs {
  import opened Wrappers
  import opened Bytes
  import opened Escape
  import opened Sequences
  import opened TelegramValues
  import opened Language
  import opened Roundtrip
  import opened BusModel
  import opened Machine
  import opened Framing

  predicate Numbered(ids: seq<nat>) {
    forall i :: 0 <= i < |ids| ==> ids[i] == i
  }

  predicate Invariant(s: Sys) {
    && Numbered(s.enqueued) && Ledger(s.bus) == s.enqueued
    && match s.pc
       case Exec(state) => Good(s.bus, state)
       case Check(state) => Good(s.bus, state)
       case Asleep => Good(s.bus, OpenDevice)
       case Crashed => true
  }

  lemma StartInvariant(address: Byte, lockMax: int, openMax: int, device: Device, reactions: seq<Reaction>)
    ensures Invariant(Start(address, lockMax, openMax, device, reactions))
  {
  }

  /** Closing may send any state to `idleSystem`. */
  lemma GoodIdle(b: Bus, s: State)
    requires Good(b, s)
    ensures Good(b, IdleSystem)
  {
    hide Sound, Spaced, Addressed;
  }

  lemma GuardedIdle(b: Bus)
    ensures Guarded(b, IdleSystem) == Ok(Idle(b), OpenDevice)
  {
    hide Idle;
  }

  lemma StepInvariant(s: Sys)
    requires Invariant(s)
    ensures Invariant(Step(s))
  {
    hide Good, Guarded, Ledger;
    match s.pc
    case Exec(state) =>
      GuardedKeeps(s.bus, state);
      GuardedIdle(s.bus);
    case Check(state) => GoodIdle(s.bus, state);
    case Asleep =>
    case Crashed =>
  }

  lemma SubmissionFresh(b: Bus, id: nat, vec: seq<Byte>)
    requires Submission(b, id, vec).Some?
    ensures Fresh(Submission(b, id, vec).value) && Submission(b, id, vec).value.id == id
  {
    hide CreateMaster, FrameCrc, KindOf, MasterFrame, Holds;
    AcceptedMaster(CLEARED, [b.address] + vec);
  }

  lemma EnqueueKeeps(b: Bus, m: Message, s: State)
    requires Fresh(m)
    ensures var b' := b.(queue := b.queue + [m]);
            (Good(b, s) ==> Good(b', s)) && Ledger(b') == Ledger(b) + [m.id]
  {
    hide Fresh, Sendable;
    IdsConcat(b.queue, [m]);
    assert Ids([m]) == [m.id];
  }

  lemma ActInvariant(s: Sys, a: Action)
    requires Invariant(s)
    ensures Invariant(Act(s, a))
  {
    hide Good, Step, Submission, Ledger, Fresh;
    match a
    case Thread => StepInvariant(s);
    case Close =>
    case Notify =>
    case Enqueue(vec) =>
      if Submission(s.bus, |s.enqueued|, vec).Some? {
        SubmissionFresh(s.bus, |s.enqueued|, vec);
        var m := Submission(s.bus, |s.enqueued|, vec).value;
        EnqueueKeeps(s.bus, m, if s.pc.Exec? || s.pc.Check? then s.pc.state else OpenDevice);
      }
  }

  lemma {:induction false} RunInvariant(s: Sys, actions: seq<Action>)
    requires Invariant(s)
    ensures Invariant(After(s, actions))
    decreases |actions|
  {
    hide Invariant, Act;
    if actions != [] {
      ActInvariant(s, actions[0]);
      RunInvariant(Act(s, actions[0]), actions[1..]);
    }
  }

  /** A state reached from the start. */
  ghost predicate Reached(s: Sys) {
    exists address, lockMax, openMax, device, reactions, actions ::
      s == After(Start(address, lockMax, openMax, device, reactions), actions)
  }

  lemma ReachedInvariant(s: Sys)
    requires Reached(s)
    ensures Invariant(s)
  {
    hide Invariant, After, Start;
    var address, lockMax, openMax, device, reactions, actions :|
      s == After(Start(address, lockMax, openMax, device, reactions), actions);
    StartInvariant(address, lockMax, openMax, device, reactions);
    RunInvariant(Start(address, lockMax, openMax, device, reactions), actions);
  }

  // ---------- Conservation ----------

  /**
   No message is lost, duplicated or overtaken: the messages handed back, the active one and the waiting ones are
   the enqueued ones in the order they were enqueued.
   */
  lemma Conservation(s: Sys)
    requires Reached(s)
    ensures Ids(s.bus.log.completed) + (if s.bus.active.Some? then [s.bus.active.value.id] else []) + Ids(s.bus.queue)
         == s.enqueued
    ensures Numbered(s.enqueued)
  {
    hide Good, After, Start, Reached;
    ReachedInvariant(s);
  }

  /** The k-th message handed back is the k-th one enqueued, and no message is handed back twice. */
  lemma CompletedInOrder(s: Sys, k: nat)
    requires Reached(s) && k < |s.bus.log.completed|
    ensures s.bus.log.completed[k].id == k
  {
    hide After, Start, Reached;
    Conservation(s);
    assert Ids(s.bus.log.completed)[k] == s.enqueued[k];
  }

  // ---------- The state machine ----------

  /** What the state about to run can rely on, and the result the active message has so far. */
  lemma StateInvariant(s: Sys, state: State)
    requires Reached(s) && (s.pc == Exec(state) || s.pc == Check(state))
    ensures state == LockBus || state == SendMessage || state == ReceiveResponse || state == FreeBus ==>
              s.bus.active.Some?
    ensures state == SendResponse ==> s.bus.passive.Some?
    ensures s.bus.passive.Some? ==> state == SendResponse || state == IdleSystem
    ensures state == OpenDevice ==> s.bus.active.None? && s.bus.passive.None?
    ensures s.bus.active.Some? && state != FreeBus && state != IdleSystem ==> s.bus.active.value.state == SEQ_OK
    ensures Ready(s.bus, state)
  {
    hide After, Start, Reached, Sound, Ready;
    ReachedInvariant(s);
    GoodReady(s.bus, state);
  }

  // ---------- Spacing of bus accesses ----------

  /** The countdown stays in range, and the bus is claimed only after `lockMax` SYN bytes since the last reset. */
  lemma AccessSpacing(s: Sys)
    requires Reached(s) && s.bus.lockMax >= 0 && !s.pc.Crashed?
    ensures 0 <= s.bus.lockCounter <= Larger(s.bus.lockMax, 2)
    ensures s.pc == Exec(LockBus) && !s.bus.log.tried ==> s.bus.log.syns >= s.bus.lockMax
  {
    hide After, Start, Reached, Fresh, Sendable;
    ReachedInvariant(s);
  }

  // ---------- Use of missing objects ----------

  /** The length byte of the message about to be received is too large, and nobody is waiting for a result. */
  predicate OversizedUnasked(b: Bus) {
    && b.active.None? && |b.device.input| >= 3 && b.device.input[0].Data? && b.device.input[1].Data?
    && b.device.input[2].Data? && Count(b.device.input[2].byte) > MAX_BYTES
  }

  lemma SlaveAddressNotExp(address: Byte)
    ensures SlaveAddress(address) == EXP ==> address == EXP
  {
    if IsMaster(address) {
      MasterPlusFive(address);
    }
  }

  lemma MasterPlusFive(address: Byte)
    requires IsMaster(address)
    ensures address + 5 != SYN && address + 5 != EXP
  {
    assert address & 0x0f != 0x04 && address & 0x0f != 0x05;
  }

  /** The message about to be received is complete, but decodes to a single byte. */
  predicate DecodesShort(b: Bus) {
    var input := b.device.input;
    && |input| >= 3 && input[0].Data? && input[1].Data? && input[2].Data? && Count(input[2].byte) <= MAX_BYTES
    && var t := Take(input[3..], Count(input[2].byte) + 1);
       && t.signal.None?
       && |Reduce(b.sequence.bytes + [input[0].byte, input[1].byte, input[2].byte] + t.got)| < 2
  }

  lemma HeaderStep(b: Bus, k: nat) returns (c: Bus)
    requires k > 0
    ensures HeaderReady(b) ==> HeaderNext(b, c) && ReceiveHeader(b, k) == ReceiveHeader(c, k - 1)
    ensures !HeaderReady(b) ==> ReceiveHeader(b, k).Raise?
    ensures ReceiveHeader(c, 0) == Ok(c, ())
  {
    var b1 := Read(b);
    c := b1.bus;
    if b1.Ok? {
      c := c.(sequence := Push(c.sequence, [b1.value]));
    }
  }

  predicate HeaderReady(b: Bus) {
    b.device.input != [] && b.device.input[0].Data?
  }

  predicate HeaderNext(b: Bus, c: Bus) {
    var input := b.device.input;
    && input != [] && input[0].Data? && c.device.input == input[1..]
    && c.sequence == Buffer(b.sequence.bytes + [input[0].byte], true)
    && c.active == b.active
  }

  /** The header is complete when three more bytes are heard. */
  lemma HeaderOfThree(b: Bus)
    requires |b.sequence.bytes| == 2
    ensures var r := ReceiveHeader(b, 3);
            var input := b.device.input;
            && (r.Ok? <==> |input| >= 3 && input[0].Data? && input[1].Data? && input[2].Data?)
            && (r.Ok? ==>
              && r.bus.sequence == Buffer(b.sequence.bytes + [input[0].byte, input[1].byte, input[2].byte], true)
              && r.bus.device.input == input[3..] && r.bus.active == b.active)
  {
    hide ReceiveHeader;
    var c1 := HeaderStep(b, 3);
    if HeaderReady(b) {
      var c2 := HeaderStep(c1, 2);
      if HeaderReady(c1) {
        var c3 := HeaderStep(c2, 1);
        if HeaderReady(c2) {
          var input := b.device.input;
          assert c2.device.input[0] == input[2];
          assert c3.device.input == input[3..];
          assert c3.sequence.bytes == b.sequence.bytes + [input[0].byte, input[1].byte, input[2].byte];
        }
      }
    }
  }

  /** Two plain header bytes leave at least two bytes after decoding, whatever surrounds them. */
  lemma PlainHeader(h: seq<Byte>, rest: seq<Byte>)
    requires |h| == 5 && !Escaped(h[1]) && !Escaped(h[4])
    ensures |Reduce(h + rest)| >= 2
  {
    EscapesConcat(h, rest);
    ReduceLength(h + rest, false);
    assert Escapes(h) <= 3 by {
      assert h == h[..1] + [h[1]] + h[2..4] + [h[4]];
      EscapesConcat(h[..1] + [h[1]] + h[2..4], [h[4]]);
      EscapesConcat(h[..1] + [h[1]], h[2..4]);
      EscapesConcat(h[..1], [h[1]]);
      EscapesConcat([], h[..1]);
      assert [] + h[..1] == h[..1];
    }
  }

  lemma MasterArgumentSize(s: seq<Byte>)
    ensures |s| >= 2 <==> |MasterArgument(s).bytes| >= 2
  {
    hide IsMaster;
    ExtendShape(s);
  }

  /** Receiving is reading the header, then the body with the checksum, then answering. */
  lemma ReceiveParts(b: Bus)
    requires |b.sequence.bytes| >= 2
    ensures var r1 := ReceiveHeader(b, 3);
            && (r1.Raise? ==> Receive(b) == Raise(r1.bus, r1.signal))
            && (r1.Ok? && Count(r1.bus.sequence.bytes[4]) <= MAX_BYTES && r1.bus.sequence.extended ==>
                 var r := ReceiveBytes(r1.bus, Count(r1.bus.sequence.bytes[4]) + 1);
                 Receive(b) == if r.Raise? then Raise(r.bus, r.signal) else Answer(r.bus))
  {
    hide ReceiveHeader, ReceiveBytes, Answer, Reset;
    var r1 := ReceiveHeader(b, 3);
    if r1.Ok? && Count(r1.bus.sequence.bytes[4]) <= MAX_BYTES && r1.bus.sequence.extended {
      ReceiveBytesSplit(r1.bus, Count(r1.bus.sequence.bytes[4]));
    }
  }

  lemma AnswerCrash(b: Bus, s: seq<Byte>)
    requires b.sequence == Buffer(s, true)
    ensures !NoCrash(Answer(b)) <==> |Reduce(s)| < 2
  {
    hide Reduce, CreateMaster, MasterArgument, WriteRead;
    MasterArgumentSize(Reduce(s));
  }

  lemma BytesReceived(b: Bus, n: nat)
    requires b.sequence.extended
    ensures var r, t := ReceiveBytes(b, n), Take(b.device.input, n);
            r.bus.sequence == Buffer(b.sequence.bytes + t.got, true) && (r.Ok? <==> t.signal.None?)
  {
    hide Take;
    var got := Take(b.device.input, n).got;
    assert got == [] ==> b.sequence.bytes + got == b.sequence.bytes;
  }

  lemma ReceiveCrash(b: Bus)
    requires Addressed(b)
    ensures !NoCrash(Receive(b)) <==> OversizedUnasked(b) || DecodesShort(b)
  {
    hide ReceiveHeader, ReceiveBytes, Answer, Reset, SlaveAddress, Count, Take, Reduce;
    HeaderOfThree(b);
    ReceiveParts(b);
    var r1 := ReceiveHeader(b, 3);
    if r1.Ok? {
      var h := r1.bus.sequence.bytes;
      assert h[4] == b.device.input[2].byte;
      var n := Count(h[4]);
      if n <= MAX_BYTES {
        BytesReceived(r1.bus, n + 1);
        var t := Take(b.device.input[3..], n + 1);
        AnswerCrash(ReceiveBytes(r1.bus, n + 1).bus, h + t.got);
      }
    }
  }

  /** The participant uses a missing object or byte in exactly two situations. */
  lemma CrashExactly(s: Sys)
    requires Reached(s) && !s.pc.Crashed?
    ensures Step(s).pc.Crashed? <==> s.pc == Exec(ReceiveMessage) && (OversizedUnasked(s.bus) || DecodesShort(s.bus))
  {
    hide After, Start, Reached, Sound, Ready, Idle, Open, Monitor, Receive, Process, Respond, Lock, Send, Listen, Free,
      HandleDeviceError, OversizedUnasked, DecodesShort;
    if s.pc.Exec? {
      ReachedInvariant(s);
      GoodReady(s.bus, s.pc.state);
      if s.pc.state == ReceiveMessage {
        ReceiveCrash(s.bus);
      }
    }
  }

  /** The second situation needs the own address EXP, or a SYN in the header. */
  lemma HeaderNeverShort(b: Bus)
    requires Addressed(b) && b.sequence.bytes[1] != SYN && b.address != EXP
    ensures !DecodesShort(b)
  {
    hide SlaveAddress, Count, Take, Reduce;
    SlaveAddressNotExp(b.address);
    var input := b.device.input;
    if |input| >= 3 && input[0].Data? && input[1].Data? && input[2].Data? && Count(input[2].byte) <= MAX_BYTES {
      SmallCountPlain(input[2].byte);
      var h := b.sequence.bytes + [input[0].byte, input[1].byte, input[2].byte];
      assert h[1] == b.sequence.bytes[1] && h[4] == input[2].byte;
      PlainHeader(h, Take(input[3..], Count(input[2].byte) + 1).got);
    }
  }

  /** It does occur there: with the own address EXP, four escapes, an empty body and a SYN decode to one byte. */
  lemma ShortForEscapeAddress(b: Bus)
    requires b.address == EXP && b.sequence == Buffer([EXP, EXP], true)
    requires b.device.input == [Data(EXP), Data(EXP), Data(0x00), Data(SYN)]
    ensures Addressed(b) && DecodesShort(b)
  {
    hide Take, Reduce, SlaveAddress;
    var input := b.device.input;
    TakeCons(SYN, [], 1);
    TakeNothing();
    assert [Data(SYN)] + [] == input[3..] && [SYN] + [] == [SYN];
    FourEscapes();
    assert b.sequence.bytes + [input[0].byte, input[1].byte, input[2].byte] + [SYN] == [EXP, EXP, EXP, EXP, 0x00, SYN];
  }

  lemma TakeNothing()
    ensures Take([], 0) == Taken([], [], None)
  {
  }

  lemma FourEscapes()
    ensures |Reduce([EXP, EXP, EXP, EXP, 0x00, SYN])| == 1
  {
    var w: seq<Byte> := [EXP, EXP, EXP, EXP, 0x00, SYN];
    ReduceLength(w, false);
    assert w == [EXP, EXP] + [EXP, EXP] + [0x00, SYN];
    EscapesConcat([EXP, EXP] + [EXP, EXP], [0x00, SYN]);
    EscapesConcat([EXP, EXP], [EXP, EXP]);
    EscapesTwo(EXP, EXP);
    EscapesTwo(0x00, SYN);
  }

  lemma EscapesTwo(a: Byte, b: Byte)
    ensures Escapes([a, b]) == (if Escaped(a) then 1 else 0) + (if Escaped(b) then 1 else 0)
  {
    assert [a, b][1..] == [b] && [b][1..] == [];
    assert Escapes([b]) == (if Escaped(b) then 1 else 0) + Escapes([]);
    assert Escapes([a, b]) == (if Escaped(a) then 1 else 0) + Escapes([b]);
  }
}

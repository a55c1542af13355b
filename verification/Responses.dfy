/**
 Responding to a message for us, and opening the device. The response that the callback supplies is what is sent, at
 most twice; and a device that cannot be opened is tried for ever.
 */
module Responses {
  import opened Wrappers
  import opened Bytes
  import opened Sequences
  import opened TelegramValues
  import opened Language
  import opened Roundtrip
  import opened BusModel
  import opened Transfers

  function Response(t: Tel): seq<Byte> {
    t.slave.bytes + [t.slaveCRC]
  }

  /** What one or two copies of the response do to the logs; the second one is sent exactly after a refusal. */
  predicate Responded(l: Log, l': Log, frame: seq<Byte>, a: seq<Attempt>, retry: nat) {
    && 1 <= |a| <= retry + 1 <= 2
    && (forall i :: 0 <= i < |a| ==> |a[i].echo| == |frame| && a[i].answer.Some?)
    && (|a| == 1 && retry == 1 ==> a[0].answer != Some(NAK)) && (|a| == 2 ==> a[0].answer == Some(NAK))
    && l'.heard == l.heard + AttemptsHeard(a) && l'.written == l.written + Copies(frame, |a|)
  }

  lemma RespondTryUnfolds(b: Bus, t: Tel, retry: nat)
    ensures var r1 := WriteAll(b, t.slave.bytes);
            var r2 := WriteRead(r1.bus, t.slaveCRC);
            var r3 := Read(r2.bus);
            RespondTry(b, t, retry) ==
              if r1.Raise? then Raise(r1.bus, r1.signal)
              else if r2.Raise? then Raise(r2.bus, r2.signal)
              else if r3.Raise? then Raise(r3.bus, r3.signal)
              else if r3.value == NAK && retry > 0 then RespondTry(r3.bus, t, retry - 1) else Ok(r3.bus, ())
  {
    hide WriteAll, WriteRead, Read;
  }

  lemma RespondOnce(b: Bus, t: Tel) returns (a: Attempt, c: Bus)
    requires WriteAll(b, t.slave.bytes).Ok?
    requires WriteRead(WriteAll(b, t.slave.bytes).bus, t.slaveCRC).Ok?
    requires Read(WriteRead(WriteAll(b, t.slave.bytes).bus, t.slaveCRC).bus).Ok?
    ensures var r := Read(WriteRead(WriteAll(b, t.slave.bytes).bus, t.slaveCRC).bus);
            && c == r.bus && a.answer == Some(r.value) && |a.echo| == |Response(t)|
            && c.log.heard == b.log.heard + a.Bytes() && c.log.written == b.log.written + Response(t)
  {
    hide WriteAll, WriteRead, Read;
    var m := t.slave.bytes;
    var b1 := WriteAll(b, m).bus;
    var e := WriteAllEcho(b, m);
    var b2 := WriteRead(b1, t.slaveCRC).bus;
    var y := WriteReadEcho(b1, t.slaveCRC);
    GrownTwice(b.log, b1.log, b2.log, e, m, e == m, [y], [t.slaveCRC], y == t.slaveCRC);
    c := Read(b2).bus;
    var x := Read(b2).value;
    ReadGrown(b2);
    var same := e == m && y == t.slaveCRC;
    GrownTwice(b.log, b2.log, c.log, e + [y], m + [t.slaveCRC], same, [x], [], true);
    assert m + [t.slaveCRC] + [] == m + [t.slaveCRC];
    a := Attempt(e + [y], Some(x));
  }

  /** A refused copy and a second one. */
  lemma RespondedAgain(l: Log, l1: Log, l2: Log, frame: seq<Byte>, a: Attempt, rest: seq<Attempt>)
    requires a.answer == Some(NAK) && |a.echo| == |frame| && Responded(l1, l2, frame, rest, 0)
    requires l1.heard == l.heard + a.Bytes() && l1.written == l.written + frame
    ensures Responded(l, l2, frame, [a] + rest, 1)
  {
    hide AttemptsHeard, Copies, Attempt.Bytes;
    assert rest == [rest[0]];
    BothHeard(a, rest[0]);
    OneAttempt(rest[0]);
    CopiesOf(frame);
    assert l.heard + a.Bytes() + rest[0].Bytes() == l.heard + (a.Bytes() + rest[0].Bytes());
    assert l.written + frame + frame == l.written + (frame + frame);
  }

  lemma BothHeard(a: Attempt, b: Attempt)
    ensures AttemptsHeard([a, b]) == a.Bytes() + b.Bytes() && [a] + [b] == [a, b]
  {
    OneAttempt(a);
    assert [a, b][..1] == [a];
  }

  lemma RespondTwice(b: Bus, t: Tel, retry: nat) returns (a: seq<Attempt>)
    requires RespondTry(b, t, retry).Ok? && retry <= 1
    ensures Responded(b.log, RespondTry(b, t, retry).bus.log, Response(t), a, retry)
    decreases retry
  {
    hide WriteAll, WriteRead, Read, RespondTry, AttemptsHeard, Copies, Response;
    RespondTryUnfolds(b, t, retry);
    var first, c := RespondOnce(b, t);
    if first.answer == Some(NAK) && retry > 0 {
      var rest := RespondTwice(c, t, retry - 1);
      RespondedAgain(b.log, c.log, RespondTry(c, t, 0).bus.log, Response(t), first, rest);
      a := [first] + rest;
    } else {
      OneAttempt(first);
      CopiesOf(Response(t));
      a := [first];
    }
  }

  lemma OneAttempt(a: Attempt)
    ensures AttemptsHeard([a]) == a.Bytes()
  {
    assert [a][..0] == [];
    assert AttemptsHeard([a]) == [] + a.Bytes();
  }

  /** `sendResponse` sends the response once, or twice when the first copy is refused, and publishes the telegram. */
  lemma ResponseSent(b: Bus) returns (a: seq<Attempt>)
    requires b.passive.Some? && Respond(b).Ok?
    ensures var t, r := b.passive.value, Respond(b);
            && Responded(b.log, r.bus.log, Response(t), a, 1)
            && r.value == MonitorBus && r.bus.passive.None? && r.bus.sequence == EMPTY
            && var p := b.log.published + [Publication(t.master.bytes, t.slave.bytes)];
               if b.active.None? then r.bus.log.published == p
               else
                 var u := b.active.value.tel;
                 r.bus.log.published == p + [Publication(u.master.bytes, u.slave.bytes)]
  {
    hide RespondTry, Responded;
    RespondTryUntouched(b, b.passive.value, 1);
    var t := b.passive.value;
    a := RespondTwice(b, t, 1);
    RespondedLogs(b.log, RespondTry(b, t, 1).bus.log, Respond(b).bus.log, Response(t), a);
  }

  lemma RespondedLogs(l: Log, l1: Log, l2: Log, frame: seq<Byte>, a: seq<Attempt>)
    requires Responded(l, l1, frame, a, 1) && l2.heard == l1.heard && l2.written == l1.written
    ensures Responded(l, l2, frame, a, 1)
  {
  }

  /**
   From the frame that was received and the data that the callback supplies, `processMessage` builds the telegram whose
   master part is that frame and whose slave part is that data, with or without the checksum it came with.
   */
  lemma ResponseBuilt(b: Bus, m: seq<Byte>, data: seq<Byte>)
    requires MasterFrame(m) && b.sequence.Logical() == Sealed(m)
    requires b.reactions != [] && b.reactions[0] == Reaction.Response(data)
    ensures var r := Process(b);
            && r.Ok?
            && (r.value == SendResponse <==> KindOf(m[1]) == MS && CreateSlave(CLEARED, data).slaveState == SEQ_OK)
            && (r.value == SendResponse ==>
                 && r.bus.passive.Some?
                 && var t := r.bus.passive.value;
                    && t.kind == MS && t.master == Stored(m) && t.masterCRC == FrameCrc(m)
                    && var f := t.slave.Logical();
                       SlaveFrame(f) && (data == f || data == Sealed(f)) && t.slaveCRC == FrameCrc(f))
            && (r.value != SendResponse ==>
                 r.value == MonitorBus && r.bus.sequence == EMPTY && r.bus.passive == b.passive)
  {
    hide CreateSlave, FrameCrc, IsMaster, KindOf, MasterArgument, Stored, SlaveFrame;
    var t := CreateMaster(CLEARED, Sealed(m));
    MasterCreated(m);
    SlaveKeepsMaster(t, data);
    if CreateSlave(t, data).slaveState == SEQ_OK {
      AcceptedSlave(t, data);
    }
  }

  lemma MasterCreated(m: seq<Byte>)
    requires MasterFrame(m)
    ensures CreateMaster(CLEARED, Sealed(m)) == WithMaster(CLEARED, m)
  {
    hide FrameCrc, IsMaster, KindOf, CreateMaster;
    assert Sealed(m) + [] == Sealed(m);
    TakeMasterFrame(CLEARED, m, []);
    TakenWhole(m);
  }

  lemma TakenWhole(m: seq<Byte>)
    requires MasterFrame(m)
    ensures TakeMaster(CLEARED, Sealed(m)) == CreateMaster(CLEARED, Sealed(m))
  {
    hide FrameCrc, CrcOf, IsMaster, KindOf;
    var s := Sealed(m);
    assert s[..|s|] == s;
    assert s[0] == m[0] && s[1] == m[1] && s[4] == m[4];
  }

  // ---------- Opening the device ----------

  /** `openDevice` and its exception handler called up to `n` times, as long as they lead back to it. */
  function OpenRun(b: Bus, n: nat): Run<State>
    decreases n
  {
    if n == 0 then Ok(b, OpenDevice)
    else
      var (b1, s) :- Guarded(b, OpenDevice);
      if s == OpenDevice then OpenRun(b1, n - 1) else Ok(b1, s)
  }

  /**
   A device that cannot be opened is tried for ever: the exception leads back to `openDevice`, and its handler clears
   the counter of attempts, so the limit is never reached.
   */
  lemma {:induction false} OpeningNeverGivesUp(b: Bus, n: nat)
    requires !b.device.open && b.openCounter == 0 && n <= |b.device.openings|
    requires forall i :: 0 <= i < n ==> b.device.openings[i] == Throws
    ensures var r := OpenRun(b, n);
            && r.Ok? && r.value == OpenDevice && r.bus.openCounter == 0 && !r.bus.device.open
            && r.bus.device.openings == b.device.openings[n..] && r.bus.device.input == b.device.input
    decreases n
  {
    hide Flush;
    if n > 0 {
      var b1 := Guarded(b, OpenDevice).bus;
      assert b1.device.openings == b.device.openings[1..];
      OpeningNeverGivesUp(b1, n - 1);
      assert b.device.openings[1..][n - 1..] == b.device.openings[n..];
    }
  }
}

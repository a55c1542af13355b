/**
 What the state methods make of the device. Every byte that comes in is heard once and in order; a method ends with an
 exception exactly at the first read or write that fails, and the kind of failure decides whether the device is closed.
 */
module Devices {
  import opened Wrappers
  import opened Bytes
  import opened Sequences
  import opened TelegramValues
  import opened BusModel
  import opened Machine
  import opened Runs

  // ---------- What was used ----------

  /** The bytes among the outcomes of reads. */
  function BytesOf(input: seq<Input>): seq<Byte> {
    if input == [] then [] else (if input[0].Data? then [input[0].byte] else []) + BytesOf(input[1..])
  }

  predicate AllData(input: seq<Input>) {
    forall i :: 0 <= i < |input| ==> input[i].Data?
  }

  predicate NoFault(faults: seq<bool>) {
    forall i :: 0 <= i < |faults| ==> !faults[i]
  }

  /** What was taken from the device between `b` and `a`. */
  predicate Later(b: Bus, a: Bus) {
    var k, j := |b.device.input| - |a.device.input|, |b.device.faults| - |a.device.faults|;
    && 0 <= k && 0 <= j && a.device.input == b.device.input[k..] && a.device.faults == b.device.faults[j..]
    && a.log.heard == b.log.heard + BytesOf(b.device.input[..k])
  }

  function ReadsOf(b: Bus, a: Bus): seq<Input>
    requires Later(b, a)
  {
    b.device.input[..|b.device.input| - |a.device.input|]
  }

  function WritesOf(b: Bus, a: Bus): seq<bool>
    requires Later(b, a)
  {
    b.device.faults[..|b.device.faults| - |a.device.faults|]
  }

  /** How reads end that end with a warning: with a timeout, or because nothing is left. */
  predicate EndsSilent(ins: seq<Input>, rest: seq<Input>) {
    || (ins != [] && ins[|ins| - 1] == Timeout && AllData(ins[..|ins| - 1]))
    || (rest == [] && AllData(ins))
  }

  predicate EndsWithFault(ins: seq<Input>) {
    ins != [] && ins[|ins| - 1] == Fault && AllData(ins[..|ins| - 1])
  }

  predicate EndsUnwritten(writes: seq<bool>) {
    writes != [] && writes[|writes| - 1] && NoFault(writes[..|writes| - 1])
  }

  /** Everything worked, or everything but the last read or write. */
  predicate Used(b: Bus, a: Bus, end: Option<Signal>) {
    && Later(b, a)
    && var ins, writes := ReadsOf(b, a), WritesOf(b, a);
       match end
       case None => AllData(ins) && NoFault(writes)
       case Some(Warning) => EndsSilent(ins, a.device.input) && NoFault(writes)
       case Some(Error) => (EndsWithFault(ins) && NoFault(writes)) || (AllData(ins) && EndsUnwritten(writes))
       case Some(Crash) => AllData(ins) && NoFault(writes)
  }

  function EndOf<T>(r: Run<T>): Option<Signal> {
    if r.Ok? then None else Some(r.signal)
  }

  lemma {:induction false} BytesConcat(a: seq<Input>, b: seq<Input>)
    ensures BytesOf(a + b) == BytesOf(a) + BytesOf(b)
    decreases |a|
  {
    hide BytesOf;
    if a == [] {
      NoBytes();
      assert a + b == b && [] + BytesOf(b) == BytesOf(b);
    } else {
      assert a + b == [a[0]] + (a[1..] + b) && a == [a[0]] + a[1..];
      BytesConcat(a[1..], b);
      BytesCons(a[0], a[1..] + b);
      BytesCons(a[0], a[1..]);
      SameJoined(if a[0].Data? then [a[0].byte] else [], BytesOf(a[1..]), BytesOf(b));
    }
  }

  lemma NoBytes()
    ensures BytesOf([]) == []
  {
  }

  lemma BytesCons(x: Input, s: seq<Input>)
    ensures BytesOf([x] + s) == (if x.Data? then [x.byte] else []) + BytesOf(s)
  {
    assert ([x] + s)[1..] == s;
  }

  lemma SameJoined(a: seq<Byte>, b: seq<Byte>, c: seq<Byte>)
    ensures a + (b + c) == a + b + c
  {
  }

  lemma UsedThen(b: Bus, a: Bus, c: Bus, end: Option<Signal>)
    requires Used(b, a, None) && Used(a, c, end)
    ensures Used(b, c, end)
  {
    hide AllData, NoFault, EndsSilent, EndsWithFault, EndsUnwritten;
    LaterThen(b, a, c);
    EndsLater(ReadsOf(b, a), ReadsOf(a, c), c.device.input);
    UnwrittenLater(WritesOf(b, a), WritesOf(a, c));
  }

  lemma LaterThen(b: Bus, a: Bus, c: Bus)
    requires Later(b, a) && Later(a, c)
    ensures Later(b, c) && ReadsOf(b, c) == ReadsOf(b, a) + ReadsOf(a, c)
    ensures WritesOf(b, c) == WritesOf(b, a) + WritesOf(a, c)
  {
    hide BytesOf;
    var x, y := |b.device.input| - |a.device.input|, |a.device.input| - |c.device.input|;
    assert b.device.input[..x] + b.device.input[x..][..y] == b.device.input[..x + y];
    BytesConcat(b.device.input[..x], b.device.input[x..][..y]);
    assert b.log.heard + BytesOf(b.device.input[..x]) + BytesOf(b.device.input[x..][..y])
        == b.log.heard + BytesOf(b.device.input[..x + y]);
    var u, v := |b.device.faults| - |a.device.faults|, |a.device.faults| - |c.device.faults|;
    assert b.device.faults[..u] + b.device.faults[u..][..v] == b.device.faults[..u + v];
  }

  lemma EndsLater(r: seq<Input>, s: seq<Input>, rest: seq<Input>)
    requires AllData(r)
    ensures AllData(s) ==> AllData(r + s)
    ensures EndsSilent(s, rest) ==> EndsSilent(r + s, rest)
    ensures EndsWithFault(s) ==> EndsWithFault(r + s)
  {
    if s != [] {
      assert (r + s)[..|r + s| - 1] == r + s[..|s| - 1];
    }
  }

  lemma UnwrittenLater(r: seq<bool>, s: seq<bool>)
    requires NoFault(r)
    ensures NoFault(s) ==> NoFault(r + s)
    ensures EndsUnwritten(s) ==> EndsUnwritten(r + s)
  {
    if s != [] {
      assert (r + s)[..|r + s| - 1] == r + s[..|s| - 1];
    }
  }

  /** Nothing of it concerns the device. */
  predicate Same(b: Bus, a: Bus) {
    a.device.input == b.device.input && a.device.faults == b.device.faults && a.log.heard == b.log.heard
  }

  lemma SameUsed(b: Bus, a: Bus)
    requires Same(b, a)
    ensures Used(b, a, None) && Used(b, a, Some(Crash))
  {
    assert b.log.heard + [] == b.log.heard;
  }

  lemma UsedSame(b: Bus, a: Bus, c: Bus, end: Option<Signal>)
    requires Used(b, a, end) && Same(a, c)
    ensures Used(b, c, end)
  {
  }

  lemma SameThen(b: Bus, a: Bus, c: Bus, end: Option<Signal>)
    requires Same(b, a) && Used(a, c, end)
    ensures Used(b, c, end)
  {
  }

  // ---------- Reading and writing ----------

  lemma OneRead(b: Bus, a: Bus)
    requires b.device.input != [] && a.device.input == b.device.input[1..] && a.device.faults == b.device.faults
    requires a.log.heard == b.log.heard + BytesOf([b.device.input[0]])
    ensures Later(b, a) && ReadsOf(b, a) == [b.device.input[0]] && WritesOf(b, a) == []
  {
    assert b.device.input[..1] == [b.device.input[0]];
  }

  lemma OneByte(x: Input)
    ensures BytesOf([x]) == if x.Data? then [x.byte] else []
  {
    assert [x][1..] == [];
  }

  lemma ReadUsed(b: Bus)
    ensures Used(b, Read(b).bus, EndOf(Read(b)))
  {
    hide BytesOf, Later, Used;
    if b.device.input == [] {
      NothingLeft(b);
    } else {
      OneByte(b.device.input[0]);
      assert b.log.heard + [] == b.log.heard;
      OneRead(b, Read(b).bus);
      OneReadUsed(b, Read(b).bus, b.device.input[0]);
    }
  }

  lemma NothingLeft(b: Bus)
    requires b.device.input == []
    ensures Used(b, b, Some(Warning))
  {
    hide Later;
    NothingUsed(b);
  }

  lemma OneReadUsed(b: Bus, a: Bus, x: Input)
    requires Later(b, a) && ReadsOf(b, a) == [x] && WritesOf(b, a) == []
    ensures Used(b, a, if x.Data? then None else if x == Timeout then Some(Warning) else Some(Error))
  {
    hide Later;
    assert [x][..0] == [];
  }

  lemma NothingUsed(b: Bus)
    ensures Later(b, b) && ReadsOf(b, b) == [] && WritesOf(b, b) == []
  {
    assert b.log.heard + [] == b.log.heard;
  }

  lemma OneWrite(b: Bus, a: Bus)
    requires b.device.faults != [] && a.device.faults == b.device.faults[1..] && a.device.input == b.device.input
    requires a.log.heard == b.log.heard
    ensures Later(b, a) && ReadsOf(b, a) == [] && WritesOf(b, a) == [b.device.faults[0]]
  {
    assert b.log.heard + [] == b.log.heard;
    assert b.device.faults[..1] == [b.device.faults[0]];
  }

  lemma WriteUsed(b: Bus, x: Byte)
    ensures Used(b, Write(b, x).bus, EndOf(Write(b, x)))
  {
    hide Later, Used;
    if b.device.faults == [] {
      SameUsed(b, Write(b, x).bus);
    } else {
      OneWrite(b, Write(b, x).bus);
      OneWriteUsed(b, Write(b, x).bus, b.device.faults[0]);
    }
  }

  lemma OneWriteUsed(b: Bus, a: Bus, fault: bool)
    requires Later(b, a) && ReadsOf(b, a) == [] && WritesOf(b, a) == [fault]
    ensures Used(b, a, if fault then Some(Error) else None)
  {
    hide Later;
    assert [fault][..0] == [];
  }

  lemma WriteReadUsed(b: Bus, x: Byte)
    ensures Used(b, WriteRead(b, x).bus, EndOf(WriteRead(b, x)))
  {
    hide Read, Write, Used;
    WriteUsed(b, x);
    var r1 := Write(b, x);
    if r1.Ok? {
      ReadUsed(r1.bus);
      var r2 := Read(r1.bus);
      UsedThen(b, r1.bus, r2.bus, EndOf(r2));
      UsedSame(b, r2.bus, WriteRead(b, x).bus, EndOf(r2));
    }
  }

  lemma {:induction false} WriteAllUsed(b: Bus, s: seq<Byte>)
    ensures Used(b, WriteAll(b, s).bus, EndOf(WriteAll(b, s)))
    decreases |s|
  {
    hide WriteRead, Used;
    if s == [] {
      SameUsed(b, b);
    } else {
      WriteReadUsed(b, s[0]);
      var r := WriteRead(b, s[0]);
      if r.Ok? {
        WriteAllUsed(r.bus, s[1..]);
        UsedThen(b, r.bus, WriteAll(b, s).bus, EndOf(WriteAll(b, s)));
      }
    }
  }

  /** The counted read loop reads byte after byte. */
  lemma {:induction false} TakeUsed(b: Bus, r: nat)
    ensures var t := Take(b.device.input, r); Used(b, Hear(b, t), t.signal)
    decreases |b.device.input|
  {
    hide Used;
    if r == 0 {
      assert b.log.heard + [] == b.log.heard;
      SameUsed(b, Hear(b, Take(b.device.input, 0)));
    } else {
      ReadUsed(b);
      TakeStep(b, r);
      var r1 := Read(b);
      if r1.Ok? {
        var r' := if r1.value == EXP then r else r - 1;
        TakeUsed(r1.bus, r');
        var t := Take(r1.bus.device.input, r');
        UsedThen(b, r1.bus, Hear(r1.bus, t), t.signal);
        assert b.log.heard + [r1.value] + t.got == b.log.heard + ([r1.value] + t.got);
      } else {
        assert b.log.heard + [] == b.log.heard;
      }
    }
  }

  lemma TakeStep(b: Bus, r: nat)
    requires r > 0
    ensures var t, e := Take(b.device.input, r), Read(b);
            if e.Raise? then t == Taken([], e.bus.device.input, Some(e.signal)) && e.bus.log == b.log
            else
              var u := Take(e.bus.device.input, if e.value == EXP then r else r - 1);
              t == u.(got := [e.value] + u.got) && |e.bus.device.input| < |b.device.input|
              && Hear(e.bus, u) == Hear(b, t).(log := Hear(e.bus, u).log, device := Hear(e.bus, u).device)
              && e.bus.log.heard == b.log.heard + [e.value] && e.bus.device.faults == b.device.faults
  {
  }

  // ---------- The state methods ----------

  lemma {:induction false} HeaderUsed(b: Bus, k: nat)
    ensures Used(b, ReceiveHeader(b, k).bus, EndOf(ReceiveHeader(b, k)))
    decreases k
  {
    hide Read, Used;
    if k == 0 {
      SameUsed(b, b);
    } else {
      ReadUsed(b);
      var r := Read(b);
      if r.Ok? {
        var c := r.bus.(sequence := Push(r.bus.sequence, [r.value]));
        HeaderUsed(c, k - 1);
        UsedSame(b, r.bus, c, None);
        UsedThen(b, c, ReceiveHeader(b, k).bus, EndOf(ReceiveHeader(b, k)));
      }
    }
  }

  lemma BytesUsed(b: Bus, n: nat)
    ensures Used(b, ReceiveBytes(b, n).bus, EndOf(ReceiveBytes(b, n)))
  {
    hide Take, Used;
    TakeUsed(b, n);
    var t := Take(b.device.input, n);
    UsedSame(b, Hear(b, t), ReceiveBytes(b, n).bus, t.signal);
  }

  lemma {:induction false} FlushUsed(b: Bus)
    ensures Used(b, Flush(b).bus, EndOf(Flush(b)))
    decreases |b.device.input|
  {
    hide Used;
    ReadUsed(b);
    var r := Read(b);
    if r.Ok? {
      if r.value == SYN {
        ResetSame(r.bus);
        UsedSame(b, r.bus, Flush(b).bus, None);
      } else {
        FlushUsed(r.bus);
        UsedThen(b, r.bus, Flush(b).bus, EndOf(Flush(b)));
      }
    }
  }

  lemma ResetSame(b: Bus)
    ensures Same(b, Reset(b)) && forall state: int :: Same(b, Reset(Mark(b, state)))
  {
  }

  /** Opening may fail by itself; otherwise it is reading. */
  lemma OpenUsed(b: Bus)
    ensures var r := Open(b);
            if !b.device.open && b.device.openings != [] && b.device.openings[0] == Throws
            then Same(b, r.bus) && EndOf(r) == Some(Error)
            else Used(b, r.bus, EndOf(r))
  {
    hide Flush, Used;
    var d := b.device;
    var b1 := if d.openings == [] then b else b.(device := d.(openings := d.openings[1..]));
    var b2 := b1.(device := b1.device.(open := true));
    FlushUsed(b);
    FlushUsed(b2);
    SameThen(b, b2, Flush(b2).bus, EndOf(Flush(b2)));
  }

  lemma MonitorUsed(b: Bus)
    ensures Used(b, Monitor(b).bus, EndOf(Monitor(b)))
  {
    hide Read, Used;
    ReadUsed(b);
    var r := Read(b);
    if r.Ok? {
      MonitorSame(b);
      UsedSame(b, r.bus, Monitor(b).bus, None);
    }
  }

  lemma MonitorSame(b: Bus)
    ensures Read(b).Ok? ==> Monitor(b).Ok? && Same(Read(b).bus, Monitor(b).bus)
  {
    hide Parse, Read, PublicationOf, Tel.IsValid, Addressed, Due;
  }

  lemma AnswerUsed(b: Bus)
    ensures Used(b, Answer(b).bus, EndOf(Answer(b)))
  {
    hide CreateMaster, MasterArgument, WriteRead, Used, Same, Answer;
    var b1 := b.(sequence := MasterArgument(b.sequence.Logical()));
    SequenceSame(b, MasterArgument(b.sequence.Logical()));
    SameUsed(b, b1);
    AnswerParts(b);
    if |b1.sequence.bytes| >= 2 {
      if b1.sequence.bytes[1] == BROAD {
        UsedSame(b, b1, Answer(b).bus, None);
      } else {
        var ack := if CreateMaster(CLEARED, b.sequence.Logical()).masterState == SEQ_OK then ACK else NAK;
        var r := WriteRead(b1, ack);
        WriteReadUsed(b1, ack);
        SameThen(b, b1, r.bus, EndOf(r));
        UsedSame(b, r.bus, Answer(b).bus, EndOf(r));
      }
    }
  }

  lemma SequenceSame(b: Bus, s: Buffer)
    ensures Same(b, b.(sequence := s)) && Same(b, b)
  {
  }

  /** Where the answer ends, as far as the device is concerned. */
  lemma AnswerParts(b: Bus)
    ensures var b1, a := b.(sequence := MasterArgument(b.sequence.Logical())), Answer(b);
            var ack := if CreateMaster(CLEARED, b.sequence.Logical()).masterState == SEQ_OK then ACK else NAK;
            var r := WriteRead(b1, ack);
            if |b1.sequence.bytes| < 2 then a == Raise(b1, Crash)
            else if b1.sequence.bytes[1] == BROAD then a.Ok? && Same(b1, a.bus)
            else EndOf(a) == EndOf(r) && Same(r.bus, a.bus)
  {
    hide CreateMaster, MasterArgument, WriteRead;
  }

  lemma ReceiveUsed(b: Bus)
    requires Ready(b, ReceiveMessage)
    ensures Used(b, Receive(b).bus, EndOf(Receive(b)))
  {
    hide ReceiveHeader, ReceiveBytes, Answer, Reset, Used, Count;
    HeaderUsed(b, 3);
    var r1 := ReceiveHeader(b, 3);
    if r1.Ok? {
      var c, n := r1.bus, Count(r1.bus.sequence.bytes[4]);
      if n > MAX_BYTES {
        ResetSame(c);
        SequenceSame(c, c.sequence);
        SameUsed(c, c);
        UsedThen(b, c, c, Some(Crash));
        UsedSame(b, c, Receive(b).bus, EndOf(Receive(b)));
      } else {
        BodyUsed(b, c, n);
      }
    }
  }

  lemma BodyUsed(b: Bus, c: Bus, n: nat)
    requires Used(b, c, None)
    ensures var r2 := ReceiveBytes(c, n);
            var r3 := ReceiveBytes(r2.bus, 1);
            && Used(b, r2.bus, EndOf(r2))
            && (r2.Ok? ==> Used(b, r3.bus, EndOf(r3)))
            && (r2.Ok? && r3.Ok? ==> Used(b, Answer(r3.bus).bus, EndOf(Answer(r3.bus))))
  {
    hide ReceiveBytes, Answer, Used;
    BytesUsed(c, n);
    var r2 := ReceiveBytes(c, n);
    UsedThen(b, c, r2.bus, EndOf(r2));
    if r2.Ok? {
      BytesUsed(r2.bus, 1);
      var r3 := ReceiveBytes(r2.bus, 1);
      UsedThen(b, r2.bus, r3.bus, EndOf(r3));
      if r3.Ok? {
        AnswerUsed(r3.bus);
        UsedThen(b, r3.bus, Answer(r3.bus).bus, EndOf(Answer(r3.bus)));
      }
    }
  }

  lemma ProcessSame(b: Bus)
    ensures Process(b).Ok? && Same(b, Process(b).bus)
  {
    hide CreateMaster, CreateSlave, MasterArgument;
  }

  lemma {:induction false} RespondTryUsed(b: Bus, t: Tel, retry: nat)
    ensures Used(b, RespondTry(b, t, retry).bus, EndOf(RespondTry(b, t, retry)))
    decreases retry
  {
    hide WriteAll, WriteRead, Read, Used;
    WriteAllUsed(b, t.slave.bytes);
    var r1 := WriteAll(b, t.slave.bytes);
    if r1.Ok? {
      WriteReadUsed(r1.bus, t.slaveCRC);
      var r2 := WriteRead(r1.bus, t.slaveCRC);
      UsedThen(b, r1.bus, r2.bus, EndOf(r2));
      if r2.Ok? {
        ReadUsed(r2.bus);
        var r3 := Read(r2.bus);
        UsedThen(b, r2.bus, r3.bus, EndOf(r3));
        if r3.Ok? && r3.value == NAK && retry > 0 {
          RespondTryUsed(r3.bus, t, retry - 1);
          UsedThen(b, r3.bus, RespondTry(b, t, retry).bus, EndOf(RespondTry(b, t, retry)));
        }
      }
    }
  }

  lemma RespondUsed(b: Bus)
    requires b.passive.Some?
    ensures Used(b, Respond(b).bus, EndOf(Respond(b)))
  {
    hide RespondTry, Used, Reset, Same;
    RespondTryUsed(b, b.passive.value, 1);
    var r := RespondTry(b, b.passive.value, 1);
    if r.Ok? {
      PublishSame(r.bus, b.passive.value);
      ResetSame(Publish(r.bus, b.passive.value));
      UsedSame(b, r.bus, Publish(r.bus, b.passive.value), None);
      UsedSame(b, Publish(r.bus, b.passive.value), Respond(b).bus, None);
    }
  }

  lemma PublishSame(b: Bus, t: Tel)
    ensures Same(b, Publish(b, t))
  {
  }

  lemma LockUsed(b: Bus)
    requires Ready(b, LockBus)
    ensures Used(b, Lock(b).bus, EndOf(Lock(b)))
  {
    hide Read, Write, Used, SamePriority;
    var qq, c := b.active.value.tel.master.bytes[0], Claim(b);
    WriteUsed(c, qq);
    var r1 := Write(c, qq);
    SameThen(b, c, r1.bus, EndOf(r1));
    if r1.Ok? {
      ReadUsed(r1.bus);
      var r2 := Read(r1.bus);
      UsedThen(b, r1.bus, r2.bus, EndOf(r2));
      UsedSame(b, r2.bus, Lock(b).bus, EndOf(r2));
    }
  }

  lemma SendOnceUsed(b: Bus, from: nat)
    requires b.active.Some? && from <= |b.active.value.tel.master.bytes|
    ensures Used(b, SendOnce(b, from).bus, EndOf(SendOnce(b, from)))
  {
    hide WriteAll, WriteRead, Read, Used;
    var t := b.active.value.tel;
    WriteAllUsed(b, t.master.bytes[from..]);
    var r1 := WriteAll(b, t.master.bytes[from..]);
    if r1.Ok? {
      WriteReadUsed(r1.bus, t.masterCRC);
      var r2 := WriteRead(r1.bus, t.masterCRC);
      UsedThen(b, r1.bus, r2.bus, EndOf(r2));
      if r2.Ok? && t.kind != BC {
        ReadUsed(r2.bus);
        var r3 := Read(r2.bus);
        UsedThen(b, r2.bus, r3.bus, EndOf(r3));
        UsedSame(b, r3.bus, SendOnce(b, from).bus, EndOf(r3));
      }
    }
  }

  lemma {:induction false} SendUsed(b: Bus, retry: nat)
    requires b.active.Some? && retry <= |b.active.value.tel.master.bytes|
    ensures Used(b, SendTry(b, retry).bus, EndOf(SendTry(b, retry)))
    decreases retry
  {
    hide SendOnce, Used;
    SendOnceUsed(b, retry);
    var r := SendOnce(b, retry);
    if r.Ok? && r.value.None? {
      if retry > 0 {
        SendUsed(r.bus, retry - 1);
        UsedThen(b, r.bus, SendTry(b, retry).bus, EndOf(SendTry(b, retry)));
      } else {
        UsedSame(b, r.bus, SendTry(b, retry).bus, None);
      }
    }
  }

  lemma AnswerResponseUsed(b: Bus, s: Buffer)
    requires b.active.Some?
    ensures Used(b, AnswerResponse(b, s).bus, EndOf(AnswerResponse(b, s)))
  {
    hide CreateSlave, WriteRead, Used;
    var t := CreateSlave(b.active.value.tel, s.Logical());
    var ack := if t.slaveState == SEQ_OK then ACK else NAK;
    var r := WriteRead(WithTel(b, t), ack);
    WriteReadUsed(WithTel(b, t), ack);
    SameThen(b, WithTel(b, t), r.bus, EndOf(r));
    UsedSame(b, r.bus, AnswerResponse(b, s).bus, EndOf(r));
  }

  lemma ListenOnceUsed(b: Bus)
    requires b.active.Some?
    ensures Used(b, ListenOnce(b).bus, EndOf(ListenOnce(b)))
  {
    hide Read, Take, AnswerResponse, Count, Reset, Used;
    ReadUsed(b);
    var r1 := Read(b);
    if r1.Ok? {
      var c, n := r1.bus, Count(r1.value);
      if n > MAX_BYTES {
        ResetSame(c);
        UsedSame(b, c, ListenOnce(b).bus, None);
      } else {
        TakeUsed(c, n + 1);
        var t := Take(c.device.input, n + 1);
        UsedThen(b, c, Hear(c, t), t.signal);
        if t.signal.None? {
          var s := Buffer([r1.value] + t.got, true);
          AnswerResponseUsed(Hear(c, t), s);
          UsedThen(b, Hear(c, t), ListenOnce(b).bus, EndOf(ListenOnce(b)));
        }
      }
    }
  }

  lemma {:induction false} ListenUsed(b: Bus, retry: nat)
    requires b.active.Some?
    ensures Used(b, ListenTry(b, retry).bus, EndOf(ListenTry(b, retry)))
    decreases retry
  {
    hide ListenOnce, Used;
    ListenOnceUsed(b);
    var r := ListenOnce(b);
    if r.Ok? && r.value.None? {
      if retry > 0 {
        ListenUsed(r.bus, retry - 1);
        UsedThen(b, r.bus, ListenTry(b, retry).bus, EndOf(ListenTry(b, retry)));
      } else {
        UsedSame(b, r.bus, ListenTry(b, retry).bus, None);
      }
    }
  }

  lemma FreeUsed(b: Bus)
    ensures Used(b, Free(b).bus, EndOf(Free(b)))
  {
    hide WriteRead, Reset, Used;
    WriteReadUsed(b, SYN);
    var r := WriteRead(b, SYN);
    if r.Ok? {
      ResetSame(r.bus);
      UsedSame(b, r.bus, Free(b).bus, None);
    }
  }

  /** Opening the device fails by itself. */
  predicate OpeningThrows(b: Bus, s: State) {
    s == OpenDevice && !b.device.open && b.device.openings != [] && b.device.openings[0] == Throws
  }

  /**
   Every state method goes on as long as the device works, and ends with an exception at the first read or write that
   fails: a fault is an error, a timeout or the end of the input a warning.
   */
  lemma ExecuteUsed(b: Bus, s: State)
    requires Ready(b, s)
    ensures var r := Execute(b, s);
            if OpeningThrows(b, s) then Same(b, r.bus) && EndOf(r) == Some(Error)
            else Used(b, r.bus, EndOf(r))
  {
    hide Used, Idle, Open, Monitor, Receive, Process, Respond, Lock, SendTry, ListenTry, Free;
    match s
    case IdleSystem => IdleUsed(b);
    case OpenDevice => OpenUsed(b);
    case MonitorBus => MonitorUsed(b);
    case ReceiveMessage => ReceiveUsed(b);
    case ProcessMessage =>
      ProcessSame(b);
      SameUsed(b, Process(b).bus);
    case SendResponse => RespondUsed(b);
    case LockBus => LockUsed(b);
    case SendMessage => SendUsed(b, 1);
    case ReceiveResponse => ListenUsed(b, 1);
    case FreeBus => FreeUsed(b);
  }

  lemma IdleUsed(b: Bus)
    ensures Used(b, Idle(b), None)
  {
    hide Used;
    SameUsed(b, Idle(b));
  }

  // ---------- Every run ----------

  /** The error handler leads to opening the device again after a fault, and to listening otherwise. */
  lemma ErrorsHandled(b: Bus, s: State)
    requires Ready(b, s)
    ensures var e, r := Execute(b, s), Guarded(b, s);
            && (e.Raise? && e.signal == Error ==> r.Ok? && r.value == OpenDevice && !r.bus.device.open)
            && (e.Raise? && e.signal == Warning ==>
                 r.Ok? && r.value == MonitorBus && r.bus.device.open == e.bus.device.open)
            && (e.Raise? && e.signal == Crash ==> r.Raise?)
            && Same(e.bus, r.bus)
  {
    hide Execute;
  }

  lemma StepHeard(s: Sys)
    requires Invariant(s)
    ensures Later(s.bus, Step(s).bus)
  {
    hide Good, Execute, Ready, Used, Later, Same;
    if s.pc.Exec? {
      GoodReady(s.bus, s.pc.state);
      ExecuteUsed(s.bus, s.pc.state);
      ErrorsHandled(s.bus, s.pc.state);
      UsedLater(s.bus, s.pc.state);
    } else {
      NothingUsed(s.bus);
      assert Step(s).bus == s.bus;
    }
  }

  lemma UsedLater(b: Bus, s: State)
    requires var r := Execute(b, s);
             if OpeningThrows(b, s) then Same(b, r.bus) else Used(b, r.bus, EndOf(r))
    requires Same(Execute(b, s).bus, Guarded(b, s).bus)
    ensures Later(b, Guarded(b, s).bus)
  {
    hide Execute;
    assert b.log.heard + [] == b.log.heard;
  }

  lemma ActHeard(s: Sys, a: Action)
    requires Invariant(s)
    ensures Later(s.bus, Act(s, a).bus)
  {
    hide Step, Later, Submission, Invariant;
    if a == Thread {
      StepHeard(s);
    } else {
      NothingUsed(s.bus);
      QueueLater(s.bus, Act(s, a).bus);
    }
  }

  lemma QueueLater(b: Bus, a: Bus)
    requires a == b.(queue := a.queue) && Later(b, b)
    ensures Later(b, a)
  {
  }

  /** On every run: what was heard is every byte that came in, once and in order, and nothing else. */
  lemma {:induction false} HeardExactly(s: Sys, actions: seq<Action>)
    requires Invariant(s)
    ensures Later(s.bus, After(s, actions).bus)
    decreases |actions|
  {
    hide Invariant, Act, Later;
    if actions == [] {
      NothingUsed(s.bus);
    } else {
      ActHeard(s, actions[0]);
      ActInvariant(s, actions[0]);
      HeardExactly(Act(s, actions[0]), actions[1..]);
      LaterThen(s.bus, Act(s, actions[0]).bus, After(s, actions).bus);
    }
  }
}

/**
 Every transfer can happen. For each accepted message, and each exchange that a sender and its counterpart can go
 through, there is a run in which the bus carries exactly that exchange and the message is handed back with the result
 that it deserves. In particular every accepted message can be sent.
 */
module Cooperation {
  import opened Wrappers
  import opened Bytes
  import opened Escape
  import opened Sequences
  import opened TelegramValues
  import opened Language
  import opened BusModel
  import opened Framing
  import opened Transfers
  import opened Machine
  import opened Runs
  import opened Results
  import opened Delivery
  import Monitoring
  import Roundtrip

  // ---------- A device that works ----------

  /** The writes succeed, and the bytes `h` come in before `rest`. */
  predicate Feeding(b: Bus, h: seq<Byte>, rest: seq<Input>) {
    b.device.faults == [] && b.device.input == Datas(h) + rest
  }

  /** The state after `h` was heard and `w` written. */
  function Fed(b: Bus, h: seq<Byte>, w: seq<Byte>, same: bool, rest: seq<Input>): Bus {
    b.(device := b.device.(input := rest),
       log := b.log.(heard := b.log.heard + h, written := b.log.written + w, echoed := b.log.echoed && same))
  }

  lemma FedTwice(b: Bus, h: seq<Byte>, w: seq<Byte>, same: bool, mid: seq<Input>,
                 h': seq<Byte>, w': seq<Byte>, same': bool, rest: seq<Input>)
    ensures Fed(Fed(b, h, w, same, mid), h', w', same', rest) == Fed(b, h + h', w + w', same && same', rest)
  {
    assert b.log.heard + h + h' == b.log.heard + (h + h');
    assert b.log.written + w + w' == b.log.written + (w + w');
  }

  lemma DatasAppend(a: seq<Byte>, c: seq<Byte>, rest: seq<Input>)
    ensures Datas(a + c) + rest == Datas(a) + (Datas(c) + rest)
  {
  }

  lemma ReadFed(b: Bus, x: Byte, rest: seq<Input>)
    requires Feeding(b, [x], rest)
    ensures Read(b) == Ok(Fed(b, [x], [], true, rest), x)
  {
    assert b.device.input[0] == Data(x) && b.device.input[1..] == rest;
    assert b.log.written + [] == b.log.written;
  }

  lemma WriteReadFed(b: Bus, x: Byte, y: Byte, rest: seq<Input>)
    requires Feeding(b, [y], rest)
    ensures WriteRead(b, x) == Ok(Fed(b, [y], [x], y == x, rest), ())
  {
    assert b.device.input[0] == Data(y) && b.device.input[1..] == rest;
  }

  lemma {:induction false} WriteAllFed(b: Bus, s: seq<Byte>, e: seq<Byte>, rest: seq<Input>)
    requires |e| == |s| && Feeding(b, e, rest)
    ensures WriteAll(b, s) == Ok(Fed(b, e, s, e == s, rest), ())
    decreases |s|
  {
    if s == [] {
      assert Datas(e) + rest == rest;
      assert b.log.heard + e == b.log.heard && b.log.written + s == b.log.written;
    } else {
      hide WriteAll, WriteRead, Datas;
      var e', s' := e[1..], s[1..];
      assert e == [e[0]] + e' && s == [s[0]] + s';
      DatasAppend([e[0]], e', rest);
      WriteAllUnfolds(b, s);
      WriteReadFed(b, s[0], e[0], Datas(e') + rest);
      var b1 := WriteRead(b, s[0]).bus;
      WriteAllFed(b1, s', e', rest);
      FedTwice(b, [e[0]], [s[0]], e[0] == s[0], Datas(e') + rest, e', s', e' == s', rest);
    }
  }

  // ---------- The copies of the frame ----------

  /** The same message, further along: `h` was heard, `w` written, and `rest` is still to come. */
  predicate Along(b: Bus, c: Bus, h: seq<Byte>, w: seq<Byte>, rest: seq<Input>) {
    && c.device == b.device.(input := rest)
    && c.log.heard == b.log.heard + h && c.log.written == b.log.written + w
    && c.log.lockHeard == b.log.lockHeard && c.log.lockWritten == b.log.lockWritten
    && c.log.completed == b.log.completed
    && b.active.Some? && c.active.Some? && c.active.value.id == b.active.value.id
    && Frame(c.active.value.tel) == Frame(b.active.value.tel) && c.active.value.tel.kind == b.active.value.tel.kind
    && c.active.value.tel.master == b.active.value.tel.master
    && c.active.value.tel.masterCRC == b.active.value.tel.masterCRC
  }

  lemma AlongTwice(b: Bus, c: Bus, d: Bus, h: seq<Byte>, w: seq<Byte>, mid: seq<Input>,
                   h': seq<Byte>, w': seq<Byte>, rest: seq<Input>)
    requires Along(b, c, h, w, mid) && Along(c, d, h', w', rest)
    ensures Along(b, d, h + h', w + w', rest)
  {
    assert b.log.heard + h + h' == b.log.heard + (h + h');
    assert b.log.written + w + w' == b.log.written + (w + w');
  }

  /** The next state after an attempt, if it was not refused. */
  function NextAfter(a: Attempt, kind: Kind): Option<State> {
    if a.answer.None? then Some(FreeBus)
    else if a.answer.value == NAK then None
    else if a.answer.value == ACK && kind != MM then Some(ReceiveResponse)
    else Some(FreeBus)
  }

  /** One copy goes out from index `from`, and `echo` comes back. */
  lemma CopyFed(b: Bus, t: Tel, from: nat, echo: seq<Byte>, rest: seq<Input>) returns (c: Bus, same: bool)
    requires from <= |t.master.bytes| && |echo| == |Frame(t)| - from && Feeding(b, echo, rest)
    ensures var r := WriteAll(b, t.master.bytes[from..]);
            r.Ok? && WriteRead(r.bus, t.masterCRC) == Ok(c, ())
    ensures c == Fed(b, echo, Frame(t)[from..], same, rest)
  {
    hide WriteAll, WriteRead, Datas, Fed;
    var m := t.master.bytes[from..];
    var e, y := echo[..|m|], echo[|m|];
    assert echo == e + [y];
    DatasAppend(e, [y], rest);
    WriteAllFed(b, m, e, Datas([y]) + rest);
    FeedingOn(b, e, m, e == m, [y], rest);
    WriteReadFed(Fed(b, e, m, e == m, Datas([y]) + rest), t.masterCRC, y, rest);
    FedTwice(b, e, m, e == m, Datas([y]) + rest, [y], [t.masterCRC], y == t.masterCRC, rest);
    same := e == m && y == t.masterCRC;
    c := Fed(b, echo, Frame(t)[from..], same, rest);
    assert Frame(t)[from..] == m + [t.masterCRC];
  }

  lemma SendOnceFed(b: Bus, from: nat, a: Attempt, rest: seq<Input>)
    requires b.active.Some? && from <= |b.active.value.tel.master.bytes|
    requires Feeding(b, a.Bytes(), rest) && |a.echo| == |Frame(b.active.value.tel)| - from
    requires b.active.value.tel.kind == BC <==> a.answer.None?
    ensures var r := SendOnce(b, from);
            && r.Ok? && r.value == NextAfter(a, b.active.value.tel.kind)
            && Along(b, r.bus, a.Bytes(), Frame(b.active.value.tel)[from..], rest)
  {
    hide WriteAll, WriteRead, Read, Datas, Fed, Along, SendOnce;
    var t := b.active.value.tel;
    if a.answer.None? {
      var c, same := CopyFed(b, t, from, a.echo, rest);
      FedAlong(b, a.echo, Frame(t)[from..], same, rest);
      SendOnceUnanswered(b, from, c);
    } else {
      var x := a.answer.value;
      DatasAppend(a.echo, [x], rest);
      var c, same := CopyFed(b, t, from, a.echo, Datas([x]) + rest);
      FeedingOn(b, a.echo, Frame(t)[from..], same, [x], rest);
      ReadFed(c, x, rest);
      FedTwice(b, a.echo, Frame(t)[from..], same, Datas([x]) + rest, [x], [], true, rest);
      assert Frame(t)[from..] + [] == Frame(t)[from..];
      var d := Fed(b, a.Bytes(), Frame(t)[from..], same && true, rest);
      FedAlong(b, a.Bytes(), Frame(t)[from..], same && true, rest);
      FedInput(b, a.Bytes(), Frame(t)[from..], same && true, rest);
      AnsweredAlong(b, d, a.Bytes(), Frame(t)[from..], rest, x);
      SendOnceAnswered(b, from, c, d, x);
    }
  }

  lemma SendOnceUnanswered(b: Bus, from: nat, c: Bus)
    requires b.active.Some? && from <= |b.active.value.tel.master.bytes| && b.active.value.tel.kind == BC
    requires var r := WriteAll(b, b.active.value.tel.master.bytes[from..]);
             r.Ok? && WriteRead(r.bus, b.active.value.tel.masterCRC) == Ok(c, ())
    ensures SendOnce(b, from) == Ok(c, Some(FreeBus))
  {
    hide WriteAll, WriteRead;
  }

  lemma SendOnceAnswered(b: Bus, from: nat, c: Bus, d: Bus, x: Byte)
    requires b.active.Some? && from <= |b.active.value.tel.master.bytes| && b.active.value.tel.kind != BC
    requires var r := WriteAll(b, b.active.value.tel.master.bytes[from..]);
             r.Ok? && WriteRead(r.bus, b.active.value.tel.masterCRC) == Ok(c, ())
    requires Read(c) == Ok(d, x) && d.active == b.active
    ensures var t := b.active.value.tel;
            var e := WithTel(d, t.(slaveACK := x));
            SendOnce(b, from) ==
              if x == NAK then Ok(e, None)
              else if x == ACK then Ok(e, Some(if t.kind == MM then FreeBus else ReceiveResponse))
              else Ok(Mark(e, EBUS_ERR_TRANSMIT), Some(FreeBus))
  {
    hide WriteAll, WriteRead, Read, WithTel, Mark;
  }

  lemma AnsweredAlong(b: Bus, d: Bus, h: seq<Byte>, w: seq<Byte>, rest: seq<Input>, x: Byte)
    requires Along(b, d, h, w, rest) && d.active == b.active
    ensures var e := WithTel(d, b.active.value.tel.(slaveACK := x));
            Along(b, e, h, w, rest) && Along(b, Mark(e, EBUS_ERR_TRANSMIT), h, w, rest)
  {
  }

  lemma NoDatas(rest: seq<Input>)
    ensures Datas([]) + rest == rest
  {
  }

  lemma FeedingOn(b: Bus, h: seq<Byte>, w: seq<Byte>, same: bool, next: seq<Byte>, rest: seq<Input>)
    requires b.device.faults == []
    ensures Feeding(Fed(b, h, w, same, Datas(next) + rest), next, rest)
  {
  }

  lemma FedAlong(b: Bus, h: seq<Byte>, w: seq<Byte>, same: bool, rest: seq<Input>)
    requires b.active.Some?
    ensures Along(b, Fed(b, h, w, same, rest), h, w, rest)
  {
  }

  function NextState(x: Exchange, t: Tel): State {
    if t.kind == MS && Confirmed(x) then ReceiveResponse else FreeBus
  }

  /** The first copy without its first byte, which was sent and read back before. */
  function Rest(a: Attempt): Attempt
    requires a.echo != []
  {
    a.(echo := a.echo[1..])
  }

  lemma OnlyCopyFed(b: Bus, x: Exchange, rest: seq<Input>)
    requires b.active.Some? && Sent(x, b.active.value.tel) && |x.attempts| == 1 && b.active.value.tel.master.bytes != []
    requires b.active.value.tel.kind != Undefined && Feeding(b, Rest(x.attempts[0]).Bytes(), rest)
    ensures var f, r := Frame(b.active.value.tel), Send(b);
            && r.Ok? && r.value == NextState(x, b.active.value.tel)
            && Along(b, r.bus, Rest(x.attempts[0]).Bytes(), f[1..], rest)
  {
    hide SendOnce, Along, Feeding;
    SendOnceFed(b, 1, Rest(x.attempts[0]), rest);
    SendTryUnfolds(b, 1);
  }

  lemma TwoCopiesFed(b: Bus, x: Exchange, rest: seq<Input>)
    requires b.active.Some? && Sent(x, b.active.value.tel) && |x.attempts| == 2 && b.active.value.tel.master.bytes != []
    requires b.active.value.tel.kind != Undefined
    requires Feeding(b, Rest(x.attempts[0]).Bytes() + x.attempts[1].Bytes(), rest)
    ensures var f, r := Frame(b.active.value.tel), Send(b);
            && r.Ok? && r.value == NextState(x, b.active.value.tel)
            && Along(b, r.bus, Rest(x.attempts[0]).Bytes() + x.attempts[1].Bytes(), f[1..] + f, rest)
  {
    hide SendOnce, Datas;
    var f, a, a' := Frame(b.active.value.tel), Rest(x.attempts[0]), x.attempts[1];
    DatasAppend(a.Bytes(), a'.Bytes(), rest);
    SendOnceFed(b, 1, a, Datas(a'.Bytes()) + rest);
    SendTryUnfolds(b, 1);
    var c := SendOnce(b, 1).bus;
    SendOnceFed(c, 0, a', rest);
    SendTryUnfolds(c, 0);
    assert f[0..] == f;
    var d := SendOnce(c, 0).bus;
    AlongTwice(b, c, d, a.Bytes(), f[1..], Datas(a'.Bytes()) + rest, a'.Bytes(), f, rest);
    MarkAlong(b, d, a.Bytes() + a'.Bytes(), f[1..] + f, rest);
  }

  lemma MarkAlong(b: Bus, d: Bus, h: seq<Byte>, w: seq<Byte>, rest: seq<Input>)
    requires Along(b, d, h, w, rest)
    ensures Along(b, Mark(d, EBUS_ERR_TRANSMIT), h, w, rest)
  {
  }

  /** Everything that is heard of the copies, after the first byte. */
  lemma SendFed(b: Bus, x: Exchange, rest: seq<Input>)
    requires b.active.Some? && Sent(x, b.active.value.tel) && b.active.value.tel.master.bytes != []
    requires b.active.value.tel.kind != Undefined && AttemptsHeard(x.attempts) != []
    requires Feeding(b, AttemptsHeard(x.attempts)[1..], rest)
    ensures var f, r := Frame(b.active.value.tel), Send(b);
            && r.Ok? && r.value == NextState(x, b.active.value.tel)
            && |Copies(f, |x.attempts|)| > 0
            && Along(b, r.bus, AttemptsHeard(x.attempts)[1..], Copies(f, |x.attempts|)[1..], rest)
  {
    hide Send, Feeding, Along, Copies, AttemptsHeard;
    var t := b.active.value.tel;
    var f, a := Frame(t), x.attempts;
    SentParts(x, t);
    CopiesOf(f);
    RestBytes(a[0]);
    if |a| == 1 {
      OnlyCopyFed(b, x, rest);
    } else {
      assert (a[0].Bytes() + a[1].Bytes())[1..] == a[0].Bytes()[1..] + a[1].Bytes();
      assert (f + f)[1..] == f[1..] + f;
      TwoCopiesFed(b, x, rest);
    }
  }

  lemma RestBytes(a: Attempt)
    requires a.echo != []
    ensures a.Bytes() != [] && a.Bytes()[1..] == Rest(a).Bytes()
  {
  }

  // ---------- The responses ----------

  lemma ListenOnceFed(b: Bus, y: Reply, rest: seq<Input>)
    requires b.active.Some? && Framed(y.bytes) && y.ack == (if Correct(y.bytes) then ACK else NAK)
    requires Feeding(b, y.bytes + [y.echo], rest)
    ensures var r := ListenOnce(b);
            && r.Ok? && r.value == (if Correct(y.bytes) then Some(FreeBus) else None)
            && Along(b, r.bus, y.bytes + [y.echo], [y.ack], rest)
  {
    hide Read, Take, AnswerResponse, Datas, Correct, Shortest, Fed, Along, Count;
    var nn, got := y.bytes[0], y.bytes[1..];
    assert y.bytes == [nn] + got && y.bytes + [y.echo] == [nn] + (got + [y.echo]);
    DatasAppend([nn], got + [y.echo], rest);
    DatasAppend(got, [y.echo], rest);
    var mid := Datas([y.echo]) + rest;
    ReadFed(b, nn, Datas(got) + mid);
    var b1 := Read(b).bus;
    FedInput(b, [nn], [], true, Datas(got) + mid);
    FedInput(b, y.bytes, [], true, mid);
    TakesShortest(got, mid, Count(nn) + 1);
    var b2 := Hear(b1, Taken(got, mid, None));
    HearFed(b, nn, got, mid);
    FeedingOn(b, y.bytes, [], true, [y.echo], rest);
    AnswerFed(b2, y, rest);
    var c := AnswerResponse(b2, Buffer(y.bytes, true)).bus;
    FedAlong(b, y.bytes, [], true, mid);
    AlongTwice(b, b2, c, y.bytes, [], mid, [y.echo], [y.ack], rest);
    assert [] + [y.ack] == [y.ack];
  }

  lemma FedInput(b: Bus, h: seq<Byte>, w: seq<Byte>, same: bool, rest: seq<Input>)
    ensures var c := Fed(b, h, w, same, rest); c.device.input == rest && c.active == b.active
  {
  }

  lemma HearFed(b: Bus, nn: Byte, got: seq<Byte>, mid: seq<Input>)
    ensures Hear(Fed(b, [nn], [], true, Datas(got) + mid), Taken(got, mid, None)) == Fed(b, [nn] + got, [], true, mid)
  {
    assert b.log.heard + [nn] + got == b.log.heard + ([nn] + got);
  }

  lemma AnswerFed(b: Bus, y: Reply, rest: seq<Input>)
    requires b.active.Some? && Framed(y.bytes) && y.ack == (if Correct(y.bytes) then ACK else NAK)
    requires Feeding(b, [y.echo], rest)
    ensures var r := AnswerResponse(b, Buffer(y.bytes, true));
            && r.Ok? && r.value == (if Correct(y.bytes) then Some(FreeBus) else None)
            && Along(b, r.bus, [y.echo], [y.ack], rest)
  {
    hide CreateSlave, Reduce, WriteRead, Correct, Framed, Datas, SlaveIs;
    var t := b.active.value.tel;
    CorrectExactly(t, y.bytes);
    SlaveKeepsFrame(t, Reduce(y.bytes));
    var u := CreateSlave(t, Reduce(y.bytes));
    WriteReadFed(WithTel(b, u), y.ack, y.echo, rest);
  }

  /** All the responses, the first refused when there are two. */
  lemma ListenFed(b: Bus, x: Exchange, rest: seq<Input>)
    requires b.active.Some? && Replied(x, b.active.value.tel) && x.replies != []
    requires Feeding(b, RepliesHeard(x.replies), rest)
    ensures var r := Listen(b);
            && r.Ok? && r.value == FreeBus && Along(b, r.bus, RepliesHeard(x.replies), Acks(x.replies), rest)
  {
    hide ListenOnce, Along, Framed, Correct, Datas, Confirmed, RepliesHeard;
    var y := x.replies;
    RepliesParts(y);
    ListenTryUnfolds(b, 1);
    if |y| == 1 {
      ListenOnceFed(b, y[0], rest);
      assert Acks(y) == [y[0].ack];
    } else {
      var h, h' := y[0].bytes + [y[0].echo], y[1].bytes + [y[1].echo];
      assert RepliesHeard(y) == h + h';
      DatasAppend(h, h', rest);
      ListenOnceFed(b, y[0], Datas(h') + rest);
      var c := ListenOnce(b).bus;
      AlongFeeding(b, c, h, [y[0].ack], h', rest);
      ListenOnceFed(c, y[1], rest);
      ListenTryUnfolds(c, 0);
      var d := ListenOnce(c).bus;
      AlongTwice(b, c, d, h, [y[0].ack], Datas(h') + rest, h', [y[1].ack], rest);
      assert Acks(y) == [y[0].ack] + [y[1].ack];
      MarkAlong(b, d, h + h', Acks(y), rest);
    }
  }

  lemma AlongFeeding(b: Bus, c: Bus, h: seq<Byte>, w: seq<Byte>, next: seq<Byte>, rest: seq<Input>)
    requires b.device.faults == [] && Along(b, c, h, w, Datas(next) + rest)
    ensures Feeding(c, next, rest) && c.active.Some?
  {
  }

  // ---------- State methods in a row ----------

  /** `n` state methods, each with its exceptions handled. */
  function Turns(b: Bus, s: State, n: nat): Run<State>
    decreases n
  {
    if n == 0 then Ok(b, s)
    else
      var (b1, s1) :- Guarded(b, s);
      Turns(b1, s1, n - 1)
  }

  lemma {:induction false} TurnsConcat(b: Bus, s: State, n: nat, m: nat)
    requires Turns(b, s, n).Ok?
    ensures Turns(b, s, n + m) == Turns(Turns(b, s, n).bus, Turns(b, s, n).value, m)
    decreases n
  {
    hide Guarded;
    if n > 0 {
      TurnsConcat(Guarded(b, s).bus, Guarded(b, s).value, n - 1, m);
    }
  }

  lemma OneTurn(b: Bus, s: State)
    requires Execute(b, s).Ok?
    ensures Turns(b, s, 1) == Execute(b, s)
  {
    hide Execute;
    assert Guarded(b, s) == Execute(b, s);
    assert Turns(Guarded(b, s).bus, Guarded(b, s).value, 0) == Execute(b, s);
  }

  /** Left alone, the thread goes through them. */
  lemma {:induction false} TurnsReached(s: Sys, state: State, n: nat)
    requires Reached(s) && s.pc == Check(state) && !s.close && Turns(s.bus, state, n).Ok?
    ensures var r := Turns(s.bus, state, n); Reached(s.(bus := r.bus, pc := Check(r.value)))
    decreases n
  {
    hide Reached, Guarded, Placed, Step;
    if n == 0 {
      assert s.(bus := s.bus, pc := Check(state)) == s;
    } else {
      ReachedPlaced(s);
      PlacedState(s);
      ReachedStep(s);
      ReachedStep(Step(s));
      TurnSteps(s, state);
      var s1 := s.(bus := Guarded(s.bus, state).bus, pc := Check(Guarded(s.bus, state).value));
      TurnsReached(s1, s1.pc.state, n - 1);
    }
  }

  lemma TurnSteps(s: Sys, state: State)
    requires s.pc == Check(state) && !s.close && state != IdleSystem && Guarded(s.bus, state).Ok?
    ensures Step(Step(s)) == s.(bus := Guarded(s.bus, state).bus, pc := Check(Guarded(s.bus, state).value))
  {
    hide Guarded;
  }

  // ---------- A header ----------

  lemma ByteStep(b: Bus, x: Byte, rest: seq<Input>)
    requires b.device.input == [Data(x)] + rest && x != SYN
    ensures var r := Monitor(b);
            && r.Ok? && r.bus.sequence == Buffer(b.sequence.bytes + [x], true)
            && r.bus == b.(device := b.device.(input := rest), log := b.log.(heard := b.log.heard + [x]),
                           sequence := Buffer(b.sequence.bytes + [x], true))
            && r.value == if Addressed(r.bus) then ReceiveMessage else MonitorBus
  {
    hide Addressed;
    assert b.device.input[0] == Data(x) && b.device.input[1..] == rest;
  }

  /** The second byte makes it a message for us. */
  lemma HeaderTurns(b: Bus, q: Byte, zz: Byte, rest: seq<Input>)
    requires b.sequence.bytes == [] && q != SYN && zz != SYN && b.device.input == [Data(q), Data(zz)] + rest
    requires zz == BROAD || zz == b.address || zz == SlaveAddress(b.address)
    ensures Turns(b, MonitorBus, 2) ==
            Ok(b.(device := b.device.(input := rest), log := b.log.(heard := b.log.heard + [q, zz]),
                  sequence := Buffer([q, zz], true)), ReceiveMessage)
  {
    hide SlaveAddress, Guarded, Monitor;
    assert b.device.input == [Data(q)] + ([Data(zz)] + rest);
    ByteStep(b, q, [Data(zz)] + rest);
    var b1 := Monitor(b).bus;
    assert b1.sequence.bytes == [q];
    OneTurn(b, MonitorBus);
    ByteStep(b1, zz, rest);
    OneTurn(b1, MonitorBus);
    TurnsConcat(b, MonitorBus, 1, 1);
    assert [q] + [zz] == [q, zz] && b.log.heard + [q] + [zz] == b.log.heard + [q, zz];
  }

  // ---------- A whole exchange ----------

  predicate SameMaster(t: Tel, u: Tel) {
    t.kind == u.kind && t.master == u.master && t.masterCRC == u.masterCRC
  }

  /** The log since the claim is the exchange, and the same message is active. */
  predicate Carried(b: Bus, c: Bus, x: Exchange, rest: seq<Input>) {
    && c.device == b.device.(input := rest) && c.log.completed == b.log.completed
    && b.active.Some? && c.active.Some? && c.active.value.id == b.active.value.id
    && SameMaster(c.active.value.tel, b.active.value.tel)
    && c.log.lockHeard <= |c.log.heard| && c.log.heard[c.log.lockHeard..] == Heard(x)
    && c.log.lockWritten <= |c.log.written|
    && c.log.written[c.log.lockWritten..] == Written(x, Frame(b.active.value.tel))
  }

  /** The bus was claimed with the byte `qq`. */
  predicate Locked(b: Bus, c: Bus, qq: Byte) {
    && c.active == b.active && c.device == b.device.(input := c.device.input) && c.log.completed == b.log.completed
    && c.log.heard == b.log.heard + [qq] && c.log.written == b.log.written + [qq]
    && c.log.lockHeard == |b.log.heard| && c.log.lockWritten == |b.log.written|
  }

  lemma LockFed(b: Bus, rest: seq<Input>)
    requires Ready(b, LockBus)
    requires var qq := b.active.value.tel.master.bytes[0]; Feeding(b, [qq], rest)
    ensures var qq, r := b.active.value.tel.master.bytes[0], Lock(b);
            r.Ok? && r.value == SendMessage && Locked(b, r.bus, qq) && r.bus.device.input == rest
  {
    hide SamePriority;
    assert b.device.input[0] == Data(b.active.value.tel.master.bytes[0]) && b.device.input[1..] == rest;
  }

  /** Claiming and sending. */
  lemma SendTurns(b: Bus, x: Exchange, rest: seq<Input>) returns (c: Bus, d: Bus)
    requires Ready(b, LockBus) && b.active.value.tel.kind != Undefined
    requires Sent(x, b.active.value.tel) && Feeding(b, AttemptsHeard(x.attempts), rest)
    ensures var t, a := b.active.value.tel, AttemptsHeard(x.attempts);
            var w := Copies(Frame(t), |x.attempts|);
            && t.master.bytes != [] && a == [t.master.bytes[0]] + a[1..] && w == [t.master.bytes[0]] + w[1..]
            && Locked(b, c, t.master.bytes[0]) && Turns(b, LockBus, 2) == Ok(d, NextState(x, t))
            && Along(c, d, a[1..], w[1..], rest)
  {
    hide Sent, Along, Lock, Send, AttemptsHeard, Datas, Copies, Guarded, Confirmed, NextState;
    var t := b.active.value.tel;
    var qq, f, a := t.master.bytes[0], Frame(t), AttemptsHeard(x.attempts);
    AttemptsNonempty(x, t);
    CopiesStart(f, |x.attempts|);
    assert a == [qq] + a[1..];
    DatasAppend([qq], a[1..], rest);
    LockFed(b, Datas(a[1..]) + rest);
    c := Lock(b).bus;
    OneTurn(b, LockBus);
    SendFed(c, x, rest);
    d := Send(c).bus;
    OneTurn(c, SendMessage);
    TurnsConcat(b, LockBus, 1, 1);
  }

  /** Claiming, sending and, when it is due, receiving. */
  lemma ExchangeTurns(b: Bus, x: Exchange, rest: seq<Input>) returns (n: nat)
    requires Ready(b, LockBus) && b.active.value.tel.kind != Undefined
    requires Sent(x, b.active.value.tel) && Replied(x, b.active.value.tel) && Feeding(b, Heard(x), rest)
    ensures var r := Turns(b, LockBus, n); r.Ok? && r.value == FreeBus && Carried(b, r.bus, x, rest)
  {
    hide Sent, Replied, Along, Listen, AttemptsHeard, RepliesHeard, Datas, Copies, Acks, Guarded, Confirmed, Carried,
      Turns;
    var t, a, y := b.active.value.tel, AttemptsHeard(x.attempts), RepliesHeard(x.replies);
    var w := Copies(Frame(t), |x.attempts|);
    DatasAppend(a, y, rest);
    var c, d := SendTurns(b, x, Datas(y) + rest);
    RepliesDue(x, t);
    AlongFeeding(c, d, a[1..], w[1..], y, rest);
    if NextState(x, t) == ReceiveResponse {
      AlongActive(c, d, a[1..], w[1..], Datas(y) + rest);
      RepliedSame(x, t, d.active.value.tel);
      ListenFed(d, x, rest);
      OneTurn(d, ReceiveResponse);
      TurnsConcat(b, LockBus, 2, 1);
      AlongTwice(c, d, Listen(d).bus, a[1..], w[1..], Datas(y) + rest, y, Acks(x.replies), rest);
      CarriedAlong(b, c, Listen(d).bus, x, a[1..] + y, w[1..] + Acks(x.replies), rest);
      n := 3;
    } else {
      NothingReplied(rest);
      assert a[1..] + [] == a[1..] && a + [] == a && w[1..] + [] == w[1..];
      CarriedAlong(b, c, d, x, a[1..] + y, w[1..] + Acks(x.replies), rest);
      n := 2;
    }
  }

  lemma AttemptsNonempty(x: Exchange, t: Tel)
    requires Sent(x, t)
    ensures AttemptsHeard(x.attempts) != [] && AttemptsHeard(x.attempts)[0] == Frame(t)[0]
    ensures x.attempts != [] && |x.attempts| <= 2
  {
    SentParts(x, t);
    assert x.attempts[0].Bytes() != [];
  }

  lemma CopiesStart(f: seq<Byte>, n: nat)
    requires f != []
    ensures 1 <= n <= 2 ==> Copies(f, n) != [] && Copies(f, n)[0] == f[0]
  {
    CopiesOf(f);
  }

  lemma RepliesDue(x: Exchange, t: Tel)
    requires Replied(x, t)
    ensures x.replies != [] <==> NextState(x, t) == ReceiveResponse
  {
    hide Answered, Correct;
  }

  lemma RepliedSame(x: Exchange, t: Tel, u: Tel)
    requires Replied(x, t) && t.kind == u.kind
    ensures Replied(x, u)
  {
  }

  lemma AlongActive(b: Bus, c: Bus, h: seq<Byte>, w: seq<Byte>, rest: seq<Input>)
    requires Along(b, c, h, w, rest)
    ensures b.active.Some? && c.active.Some? && c.active.value.tel.kind == b.active.value.tel.kind
  {
  }

  lemma NothingReplied(rest: seq<Input>)
    ensures RepliesHeard([]) == [] && Acks([]) == [] && Datas([]) + rest == rest
  {
  }

  lemma CarriedAlong(b: Bus, b1: Bus, c: Bus, x: Exchange, h: seq<Byte>, w: seq<Byte>, rest: seq<Input>)
    requires Along(b1, c, h, w, rest) && b.active.Some? && b.active.value.tel.master.bytes != []
    requires var qq := b.active.value.tel.master.bytes[0];
             && Locked(b, b1, qq)
             && [qq] + h == Heard(x) && [qq] + w == Written(x, Frame(b.active.value.tel))
    ensures Carried(b, c, x, rest)
  {
    hide Heard, Written;
    var qq := b.active.value.tel.master.bytes[0];
    assert b.log.heard + [qq] + h == b.log.heard + ([qq] + h);
    assert b.log.written + [qq] + w == b.log.written + ([qq] + w);
    assert (b.log.heard + ([qq] + h))[|b.log.heard|..] == [qq] + h;
    assert (b.log.written + ([qq] + w))[|b.log.written|..] == [qq] + w;
  }

  // ---------- From the start ----------

  /** The device is open and skipped to a SYN, and `queue` is waiting. */
  function Begun(address: Byte, lockMax: int, input: seq<Input>, reactions: seq<Reaction>, queue: seq<Message>): Bus {
    Bus(address, lockMax, lockMax, 10, 0, EMPTY, None, None, true, queue, Device(true, input, [], []), reactions,
        SILENCE.(heard := [SYN]))
  }

  function Origin(address: Byte, lockMax: int, input: seq<Input>, reactions: seq<Reaction>): Sys {
    Start(address, lockMax, 10, Device(false, [Data(SYN)] + input, [], []), reactions)
  }

  predicate Accepted(address: Byte, vec: seq<Byte>) {
    CreateMaster(CLEARED, [address] + vec).masterState == SEQ_OK
  }

  /** The message that `transmit` makes of `vec`. */
  function Made(address: Byte, vec: seq<Byte>): Message {
    Message(0, CreateMaster(CLEARED, [address] + vec), SEQ_OK)
  }

  lemma OriginOpens(address: Byte, lockMax: int, input: seq<Input>, reactions: seq<Reaction>)
    ensures Guarded(Origin(address, lockMax, input, reactions).bus, OpenDevice)
            == Ok(Begun(address, lockMax, input, reactions, []), MonitorBus)
  {
    assert ([Data(SYN)] + input)[1..] == input && [] + [SYN] == [SYN];
  }

  lemma OriginReached(address: Byte, lockMax: int, input: seq<Input>, reactions: seq<Reaction>)
    ensures Reached(Origin(address, lockMax, input, reactions))
  {
    hide Start;
    var s := Origin(address, lockMax, input, reactions);
    assert s == After(s, []);
  }

  lemma ReachedAct(s: Sys, a: Action)
    requires Reached(s)
    ensures Reached(Act(s, a))
  {
    hide After, Start, Act;
    var address, lockMax, openMax, device, reactions, actions :|
      s == After(Start(address, lockMax, openMax, device, reactions), actions);
    AfterConcat(Start(address, lockMax, openMax, device, reactions), actions, [a]);
    AfterOne(s, a);
  }

  /** The thread listens, and nobody has anything to send. */
  lemma Listening(address: Byte, lockMax: int, input: seq<Input>, reactions: seq<Reaction>) returns (s: Sys)
    ensures Reached(s) && s.pc == Check(MonitorBus) && !s.close
    ensures s.bus == Begun(address, lockMax, input, reactions, []) && s.enqueued == []
  {
    hide Reached, Guarded;
    var o := Origin(address, lockMax, input, reactions);
    OriginReached(address, lockMax, input, reactions);
    OriginOpens(address, lockMax, input, reactions);
    ReachedStep(o);
    s := Step(o);
  }

  /** The thread listens, and an accepted message is waiting. */
  lemma Submitted(address: Byte, lockMax: int, input: seq<Input>, reactions: seq<Reaction>, vec: seq<Byte>)
      returns (s: Sys)
    requires Accepted(address, vec)
    ensures Reached(s) && s.pc == Check(MonitorBus) && !s.close
    ensures s.bus == Begun(address, lockMax, input, reactions, [Made(address, vec)])
  {
    hide Reached, CreateMaster;
    var s0 := Listening(address, lockMax, input, reactions);
    AcceptedFromMaster(address, vec);
    ReachedAct(s0, Enqueue(vec));
    s := Act(s0, Enqueue(vec));
  }

  lemma AcceptedFromMaster(address: Byte, vec: seq<Byte>)
    requires Accepted(address, vec)
    ensures IsMaster(address)
  {
    hide CrcOf, IsMaster, KindOf;
  }

  /** A SYN on a silent bus. */
  lemma SynStep(b: Bus, rest: seq<Input>)
    requires b.sequence.bytes == [] && Monitoring.MessagePending(b) && b.lockCounter >= 0
    requires b.device.input == [Data(SYN)] + rest
    ensures var r := Monitor(b);
            && r.Ok? && r.value == (if b.lockCounter <= 1 then LockBus else MonitorBus)
            && r.bus.lockCounter == (if b.lockCounter == 0 then 0 else b.lockCounter - 1)
            && r.bus.sequence.bytes == [] && r.bus.active == Some(Monitoring.Upfront(b))
            && r.bus.device == b.device.(input := rest) && r.bus.log.completed == b.log.completed
            && r.bus.address == b.address && r.bus.reactions == b.reactions
  {
    hide Parse;
    assert b.device.input[0] == Data(SYN) && b.device.input[1..] == rest;
  }

  lemma {:induction false} SilentTurns(b: Bus, n: nat, rest: seq<Input>)
    requires b.sequence.bytes == [] && Monitoring.MessagePending(b)
    requires b.lockCounter >= 0 && n == Larger(b.lockCounter, 1)
    requires b.device.input == Datas(Monitoring.Syns(n)) + rest
    ensures var r := Turns(b, MonitorBus, n);
            && r.Ok? && r.value == LockBus && r.bus.active == Some(Monitoring.Upfront(b))
            && r.bus.device == b.device.(input := rest) && r.bus.log.completed == b.log.completed
    decreases n
  {
    hide Monitor, Guarded, Datas;
    var syns := Monitoring.Syns(n - 1);
    assert Monitoring.Syns(n) == [SYN] + syns;
    DatasCons(SYN, syns, rest);
    SynStep(b, Datas(syns) + rest);
    OneTurn(b, MonitorBus);
    TurnsConcat(b, MonitorBus, 1, n - 1);
    var b1 := Monitor(b).bus;
    if b.lockCounter > 1 {
      SilentTurns(b1, n - 1, rest);
    } else {
      assert syns == [];
      NoDatas(rest);
    }
  }

  // ---------- Every transfer happens ----------

  /** What comes in: silence until the bus may be claimed, then the exchange, and the closing SYN. */
  function Script(lockMax: nat, x: Exchange): seq<Input> {
    Datas(Monitoring.Syns(Larger(lockMax, 1))) + (Datas(Heard(x)) + [Data(SYN)])
  }

  /** The bus is about to be freed after exactly the exchange `x`. */
  predicate AboutToFree(s: Sys, t: Tel, x: Exchange) {
    && s.pc == Exec(FreeBus) && s.bus.active.Some? && s.bus.log.completed == []
    && var m := s.bus.active.value;
       m.id == 0 && SameMaster(m.tel, t) && Transcript(s.bus.log, Frame(t), x, [])
       && Settled(m, x)
  }

  lemma AcceptedReady(b: Bus, address: Byte, vec: seq<Byte>)
    requires Accepted(address, vec) && b.active == Some(Made(address, vec))
    ensures Ready(b, LockBus) && b.active.value.tel.kind != Undefined && |Frame(b.active.value.tel)| > 2
  {
    hide CreateMaster, IsMaster, KindOf, FrameCrc;
    Roundtrip.AcceptedMaster(CLEARED, [address] + vec);
    var t := Made(address, vec).tel;
    assert Sendable(t);
    SendableSize(t);
    SendableKind(t);
    SendableNonempty(t);
  }

  lemma SameFrame(x: Exchange, t: Tel, u: Tel)
    requires Frame(t) == Frame(u) && t.kind == u.kind
    ensures Sent(x, t) <==> Sent(x, u)
    ensures Replied(x, t) <==> Replied(x, u)
    ensures Succeeded(x, t) <==> Succeeded(x, u)
  {
  }

  /** What was carried up to here is the transfer that the invariant knows of. */
  lemma CarriedSettled(s: Sys, b: Bus, x: Exchange, rest: seq<Input>)
    requires Reached(s) && s.pc == Exec(FreeBus) && Carried(b, s.bus, x, rest) && |Frame(b.active.value.tel)| > 2
    requires Sent(x, b.active.value.tel) && Replied(x, b.active.value.tel)
    ensures Transcript(s.bus.log, Frame(b.active.value.tel), x, []) && Settled(s.bus.active.value, x)
    ensures Step(s).bus.log.completed == s.bus.log.completed + [s.bus.active.value.(state :=
              if Free(s.bus).Raise? then EBUS_ERR_DEVICE
              else if Succeeded(x, b.active.value.tel) then SEQ_OK else EBUS_ERR_TRANSMIT)]
  {
    hide Reached, Sent, Replied, Succeeded, Written, Heard, Echoed, Step, Free;
    var t, u := b.active.value.tel, s.bus.active.value.tel;
    var y := TransferResult(s);
    SameFrame(x, t, u);
    assert Heard(y) + [] == Heard(y) && Written(y, Frame(u)) + [] == Written(y, Frame(u));
    SpelledUnique(u, x, y);
  }

  lemma FreeFed(b: Bus)
    requires Feeding(b, [SYN], [])
    ensures Free(b).Ok?
  {
    hide Reset;
    WriteReadFed(b, SYN, SYN, []);
  }

  /**
   Whatever the sender and its counterpart do within the rules, there is a run in which exactly that happens on the
   bus, and in which the message is then handed back with zero if it succeeded and as failed otherwise.
   */
  lemma EveryTransferHappens(address: Byte, lockMax: nat, reactions: seq<Reaction>, vec: seq<Byte>, x: Exchange)
      returns (s: Sys)
    requires Accepted(address, vec)
    requires Sent(x, Made(address, vec).tel) && Replied(x, Made(address, vec).tel)
    ensures var t := Made(address, vec).tel;
            && Reached(s) && AboutToFree(s, t, x) && |Step(s).bus.log.completed| == 1
            && var m := Step(s).bus.log.completed[0];
               m.id == 0 && m.state == if Succeeded(x, t) then SEQ_OK else EBUS_ERR_TRANSMIT
  {
    hide Reached, Sent, Replied, Succeeded, CreateMaster, Accepted, Transcript, Settled, Turns, Heard, Datas, Guarded,
      Written, Free;
    var m := Made(address, vec);
    var tail, n := Datas(Heard(x)) + [Data(SYN)], Larger(lockMax, 1);
    var s0 := Submitted(address, lockMax, Script(lockMax, x), reactions, vec);
    SilentTurns(s0.bus, n, tail);
    var b := Turns(s0.bus, MonitorBus, n).bus;
    AcceptedReady(b, address, vec);
    var k := ExchangeTurns(b, x, [Data(SYN)]);
    TurnsConcat(s0.bus, MonitorBus, n, k);
    TurnsReached(s0, MonitorBus, n + k);
    var s1 := s0.(bus := Turns(s0.bus, MonitorBus, n + k).bus, pc := Check(FreeBus));
    ReachedStep(s1);
    s := Step(s1);
    assert s == s1.(pc := Exec(FreeBus));
    CarriedSettled(s, b, x, [Data(SYN)]);
    assert Feeding(s.bus, [SYN], []) by {
      OneData(SYN);
    }
    FreeFed(s.bus);
  }

  lemma OneData(x: Byte)
    ensures Datas([x]) + [] == [Data(x)]
  {
  }

  // ---------- Sending succeeds ----------

  /** Every byte comes back, the frame is acknowledged, and a response is given when it is due. */
  function Plain(t: Tel, replies: seq<Reply>): Exchange {
    if t.kind == BC then Exchange([Attempt(Frame(t), None)], [])
    else Exchange([Attempt(Frame(t), Some(ACK))], if t.kind == MS then replies else [])
  }

  /** A response in wire form with the checksum `c`, acknowledged as it deserves. */
  function Spoken(f: seq<Byte>, c: Byte): Reply {
    var ack := if c == FrameCrc(f) then ACK else NAK;
    Reply(Extend(f + [c]), ack, ack)
  }

  lemma SpokenFramed(f: seq<Byte>, c: Byte)
    requires SlaveFrame(f)
    ensures Framed(Extend(f + [c]))
  {
    hide Extend, Reduce, Shortest;
    var nn, d := f[0], f[1..] + [c];
    SmallCountPlain(nn);
    assert f + [c] == [nn] + d;
    ExtendConcat([nn], d);
    ExtendFixedPoint([nn]);
    var w := Extend(d);
    assert ([nn] + w)[1..] == w;
    FrameConsumed(d, []);
    TakesShortest(w, [], |d|);
  }

  lemma SpokenAnswered(f: seq<Byte>, c: Byte)
    requires SlaveFrame(f)
    ensures var y := Spoken(f, c);
            && Framed(y.bytes) && NoSyn(y.bytes) && (Correct(y.bytes) <==> c == FrameCrc(f))
            && Reduce(y.bytes) == f + [c] && Answered([y])
  {
    hide FrameCrc, Extend, Reduce, Framed, SynCount;
    var w := Extend(f + [c]);
    SpokenFramed(f, c);
    ReduceExtend(f + [c]);
    ExtendShape(f + [c]);
    SynCountZero(w);
    assert (f + [c])[..|f|] == f;
  }

  lemma PlainSent(t: Tel, replies: seq<Reply>)
    requires |Frame(t)| > 2 && t.kind != Undefined && Answered(replies)
    requires t.kind == MS ==> |replies| == 1 && Correct(replies[0].bytes)
    ensures var x := Plain(t, replies); Sent(x, t) && Replied(x, t) && Succeeded(x, t)
  {
    hide Correct, Framed;
  }

  /** Every accepted message can be sent: there is a run in which its transfer succeeds and zero is handed back. */
  lemma EveryMessageCanBeSent(address: Byte, lockMax: nat, reactions: seq<Reaction>, vec: seq<Byte>, f: seq<Byte>)
      returns (s: Sys)
    requires Accepted(address, vec) && SlaveFrame(f)
    ensures Reached(s) && s.pc == Exec(FreeBus) && WasSent(s.bus)
    ensures |Step(s).bus.log.completed| == 1 && Step(s).bus.log.completed[0].state == SEQ_OK
  {
    hide Reached, Sent, Replied, Succeeded, CreateMaster, Accepted, Transcript, Step, WasSent, Correct, Framed;
    var t := Made(address, vec).tel;
    var replies := [Spoken(f, FrameCrc(f))];
    SpokenAnswered(f, FrameCrc(f));
    AcceptedReady(Begun(address, 0, [], [], []).(active := Some(Made(address, vec))), address, vec);
    PlainSent(t, replies);
    s := EveryTransferHappens(address, lockMax, reactions, vec, Plain(t, replies));
    SettledZero(s, t, Plain(t, replies));
    SentExactly(s, FreeBus);
  }

  lemma SettledZero(s: Sys, t: Tel, x: Exchange)
    requires AboutToFree(s, t, x) && Succeeded(x, t)
    ensures s.bus.active.Some? && s.bus.active.value.state == SEQ_OK && Succeeded(x, s.bus.active.value.tel)
  {
    hide Transcript, Sent, Replied;
    SameFrame(x, t, s.bus.active.value.tel);
  }
}

/**
 Transfers. From the moment the bus is claimed until it is freed, the bytes heard and written are exactly the copies
 of the master frame, their answers, the responses and our acknowledgements; and the result that the caller gets says
 whether these amount to a success.
 */
module Transfers {
  import opened Wrappers
  import opened Bytes
  import opened Escape
  import opened Sequences
  import opened TelegramValues
  import opened Language
  import opened BusModel
  import opened Framing

  /** One copy of the master frame as it was read back, and the byte that answered it; a broadcast is not answered. */
  datatype Attempt = Attempt(echo: seq<Byte>, answer: Option<Byte>) {
    function Bytes(): seq<Byte> {
      if answer.Some? then echo + [answer.value] else echo
    }
  }

  /** One response, our acknowledgement, and how that was read back. */
  datatype Reply = Reply(bytes: seq<Byte>, ack: Byte, echo: Byte)

  datatype Exchange = Exchange(attempts: seq<Attempt>, replies: seq<Reply>)

  const NOTHING := Exchange([], [])

  function Frame(t: Tel): seq<Byte> {
    t.master.bytes + [t.masterCRC]
  }

  function AttemptsHeard(a: seq<Attempt>): seq<Byte> {
    if a == [] then [] else AttemptsHeard(a[..|a| - 1]) + a[|a| - 1].Bytes()
  }

  function RepliesHeard(r: seq<Reply>): seq<Byte> {
    if r == [] then [] else RepliesHeard(r[..|r| - 1]) + r[|r| - 1].bytes + [r[|r| - 1].echo]
  }

  function Copies(frame: seq<Byte>, n: nat): seq<Byte> {
    if n == 0 then [] else Copies(frame, n - 1) + frame
  }

  lemma CopiesOf(f: seq<Byte>)
    ensures Copies(f, 1) == f && Copies(f, 2) == f + f
  {
    assert [] + f == f;
    assert Copies(f, 2) == Copies(f, 1) + f;
  }

  function Acks(r: seq<Reply>): (s: seq<Byte>)
    ensures |s| == |r|
  {
    seq(|r|, i requires 0 <= i < |r| => r[i].ack)
  }

  function Heard(x: Exchange): seq<Byte> {
    AttemptsHeard(x.attempts) + RepliesHeard(x.replies)
  }

  function Written(x: Exchange, frame: seq<Byte>): seq<Byte> {
    Copies(frame, |x.attempts|) + Acks(x.replies)
  }

  /** Everything sent was read back unchanged. */
  predicate Echoed(x: Exchange, frame: seq<Byte>) {
    && (forall i :: 0 <= i < |x.attempts| ==> x.attempts[i].echo == frame)
    && (forall i :: 0 <= i < |x.replies| ==> x.replies[i].echo == x.replies[i].ack)
  }

  /** Since the bus was claimed: `x`, and the start of another copy. */
  predicate Transcript(l: Log, frame: seq<Byte>, x: Exchange, start: seq<Byte>) {
    && l.lockHeard <= |l.heard| && l.heard[l.lockHeard..] == Heard(x) + start
    && l.lockWritten <= |l.written| && l.written[l.lockWritten..] == Written(x, frame) + start
    && (l.echoed <==> Echoed(x, frame))
  }

  // ---------- What a transfer looks like ----------

  /** At most two copies were sent, the second one because the first was refused. */
  predicate Sent(x: Exchange, t: Tel) {
    var a, frame := x.attempts, Frame(t);
    && 1 <= |a| <= 2
    && (forall i :: 0 <= i < |a| ==> |a[i].echo| == |frame|)
    && a[0].echo[0] == frame[0]
    && (t.kind == BC ==> |a| == 1 && a[0].answer.None?)
    && (t.kind != BC ==>
        && (forall i :: 0 <= i < |a| ==> a[i].answer.Some?)
        && (a[0].answer.value == NAK <==> |a| == 2))
  }

  predicate Confirmed(x: Exchange) {
    x.attempts != [] && x.attempts[|x.attempts| - 1].answer == Some(ACK)
  }

  /** The frame of a response: a SYN among the bytes makes it come out one byte short, without its checksum. */
  function ResponseFrame(bytes: seq<Byte>): seq<Byte> {
    var s := Reduce(bytes);
    if NoSyn(bytes) && s != [] then s[..|s| - 1] else s
  }

  /** No byte is missing, and the last one is the checksum of the others. */
  predicate Checked(bytes: seq<Byte>) {
    var s := Reduce(bytes);
    NoSyn(bytes) && s != [] && s[|s| - 1] == FrameCrc(s[..|s| - 1])
  }

  /** The frame came out without a checksum byte, so nothing is compared. */
  predicate Unchecked(bytes: seq<Byte>) {
    SynCount(bytes) == 1 && bytes != [] && Count(bytes[0]) > 0
  }

  /** The responses that are acknowledged. */
  predicate Correct(bytes: seq<Byte>) {
    Checked(bytes) || Unchecked(bytes)
  }

  /** A complete response: as many units as its first byte announces. */
  predicate Framed(bytes: seq<Byte>) {
    bytes != [] && Count(bytes[0]) <= MAX_BYTES && Shortest(bytes[1..], Count(bytes[0]) + 1)
  }

  /** Every response was answered as it deserves. */
  predicate Answered(r: seq<Reply>) {
    forall i :: 0 <= i < |r| ==> Framed(r[i].bytes) && r[i].ack == if Correct(r[i].bytes) then ACK else NAK
  }

  /** Responses came exactly when one was due; a second one, because the first was refused. */
  predicate Replied(x: Exchange, t: Tel) {
    var r := x.replies;
    && Answered(r) && |r| <= 2
    && (r != [] <==> t.kind == MS && Confirmed(x))
    && (r != [] ==> (|r| == 2 <==> !Correct(r[0].bytes)))
  }

  predicate Succeeded(x: Exchange, t: Tel) {
    || t.kind == BC
    || (Confirmed(x) && (t.kind == MM || (x.replies != [] && Correct(x.replies[|x.replies| - 1].bytes))))
  }

  /** The slave part of the telegram is the response, with the checksum of its frame. */
  predicate SlaveIs(t: Tel, bytes: seq<Byte>) {
    var f := ResponseFrame(bytes);
    && SlaveFrame(f) && t.slave == (if NoSyn(bytes) then Stored(f) else Buffer(f, false))
    && t.slaveNN == |f| - 1 && t.slaveCRC == FrameCrc(f) && t.slaveState == SEQ_OK
  }

  // ---------- The three stages ----------

  /** The first byte of the frame went out and came back. */
  predicate Claimed(b: Bus) {
    b.active.Some? && var t := b.active.value.tel; Transcript(b.log, Frame(t), NOTHING, Frame(t)[..1])
  }

  /** The frame was acknowledged and a response is due. */
  ghost predicate Awaiting(b: Bus) {
    && b.active.Some?
    && var t := b.active.value.tel;
       exists x :: Transcript(b.log, Frame(t), x, []) && Sent(x, t) && t.kind == MS && Confirmed(x) && x.replies == []
  }

  /** The transfer is over: this is what happened, and what the caller is told. */
  predicate Settled(m: Message, x: Exchange) {
    && Sent(x, m.tel) && Replied(x, m.tel)
    && m.state == (if Succeeded(x, m.tel) then SEQ_OK else EBUS_ERR_TRANSMIT)
    && (Succeeded(x, m.tel) && m.tel.kind == MS ==> SlaveIs(m.tel, x.replies[|x.replies| - 1].bytes))
    && (x.replies != [] ==> m.tel.masterACK == x.replies[|x.replies| - 1].ack)
  }

  ghost predicate Finished(b: Bus) {
    && b.active.Some?
    && exists x :: Transcript(b.log, Frame(b.active.value.tel), x, []) && Settled(b.active.value, x)
  }

  // ---------- Claiming ----------

  lemma LockClaims(b: Bus)
    requires b.active.Some? && b.active.value.tel.master.bytes != []
    requires Lock(b).Ok? && Lock(b).value == SendMessage
    ensures Claimed(Lock(b).bus)
  {
    hide SamePriority;
    var t := b.active.value.tel;
    var l, l' := b.log, Lock(b).bus.log;
    assert Frame(t)[..1] == [t.master.bytes[0]];
    assert (l.heard + [t.master.bytes[0]])[|l.heard|..] == [t.master.bytes[0]];
    assert (l.written + [t.master.bytes[0]])[|l.written|..] == [t.master.bytes[0]];
    assert Heard(NOTHING) + Frame(t)[..1] == Frame(t)[..1];
    assert Written(NOTHING, Frame(t)) + Frame(t)[..1] == Frame(t)[..1];
  }

  // ---------- Sending ----------

  lemma {:induction false} WriteAllEcho(b: Bus, s: seq<Byte>) returns (e: seq<Byte>)
    requires WriteAll(b, s).Ok?
    ensures |e| == |s| && Grown(b.log, WriteAll(b, s).bus.log, e, s, e == s)
    decreases |s|
  {
    if s == [] {
      e := [];
    } else {
      hide WriteAll, WriteRead;
      WriteAllUnfolds(b, s);
      var b1 := WriteRead(b, s[0]).bus;
      var y := WriteReadEcho(b, s[0]);
      var e' := WriteAllEcho(b1, s[1..]);
      e := [y] + e';
      GrownTwice(b.log, b1.log, WriteAll(b1, s[1..]).bus.log, [y], [s[0]], y == s[0], e', s[1..], e' == s[1..]);
      assert s == [s[0]] + s[1..];
      assert e == s <==> y == s[0] && e' == s[1..] by {
        assert e[1..] == e' && e[0] == y;
      }
    }
  }

  lemma WriteAllUnfolds(b: Bus, s: seq<Byte>)
    requires s != []
    ensures var r := WriteRead(b, s[0]);
            WriteAll(b, s) == if r.Raise? then Raise(r.bus, r.signal) else WriteAll(r.bus, s[1..])
  {
    hide WriteRead;
  }

  /** `h` was heard and `w` written; `same` says whether what was sent came back. */
  predicate Grown(l: Log, l': Log, h: seq<Byte>, w: seq<Byte>, same: bool) {
    && l'.heard == l.heard + h && l'.written == l.written + w && (l'.echoed <==> l.echoed && same)
    && l'.lockHeard == l.lockHeard && l'.lockWritten == l.lockWritten
  }

  lemma GrownTwice(l: Log, l1: Log, l2: Log, h1: seq<Byte>, w1: seq<Byte>, s1: bool,
                   h2: seq<Byte>, w2: seq<Byte>, s2: bool)
    requires Grown(l, l1, h1, w1, s1) && Grown(l1, l2, h2, w2, s2)
    ensures Grown(l, l2, h1 + h2, w1 + w2, s1 && s2)
  {
    assert l.heard + h1 + h2 == l.heard + (h1 + h2);
    assert l.written + w1 + w2 == l.written + (w1 + w2);
  }

  lemma WriteReadEcho(b: Bus, x: Byte) returns (y: Byte)
    requires WriteRead(b, x).Ok?
    ensures Grown(b.log, WriteRead(b, x).bus.log, [y], [x], y == x)
  {
    y := WriteRead(b, x).bus.log.heard[|b.log.heard|];
  }

  lemma ReadGrown(b: Bus)
    requires Read(b).Ok?
    ensures Grown(b.log, Read(b).bus.log, [Read(b).value], [], true)
  {
  }

  /** Responding hands back nothing and publishes nothing before it is done. */
  lemma RespondTryUntouched(b: Bus, t: Tel, retry: nat)
    ensures RespondTry(b, t, retry).bus.active == b.active
    ensures RespondTry(b, t, retry).bus.log.completed == b.log.completed
    ensures RespondTry(b, t, retry).bus.log.published == b.log.published
    decreases retry
  {
    hide WriteAll, WriteRead, Read;
    var r1 := WriteAll(b, t.slave.bytes);
    if r1.Ok? {
      var r2 := WriteRead(r1.bus, t.slaveCRC);
      if r2.Ok? {
        var r3 := Read(r2.bus);
        if r3.Ok? && r3.value == NAK && retry > 0 {
          RespondTryUntouched(r3.bus, t, retry - 1);
        }
      }
    }
  }

  /** What one copy does to the logs and to the message. */
  lemma SendOnceEffect(b: Bus, from: nat) returns (a: Attempt)
    requires b.active.Some? && from <= |b.active.value.tel.master.bytes|
    requires SendOnce(b, from).Ok?
    ensures var r := SendOnce(b, from);
            var m, t, w := b.active.value, b.active.value.tel, Frame(b.active.value.tel)[from..];
            && r.bus.active.Some?
            && |a.echo| == |w| && Grown(b.log, r.bus.log, a.Bytes(), w, a.echo == w)
            && (t.kind == BC <==> a.answer.None?)
            && (t.kind == BC ==> r.value == Some(FreeBus) && r.bus.active == b.active)
            && (t.kind != BC ==>
                && r.value == (if a.answer.value == NAK then None
                              else if a.answer.value == ACK && t.kind != MM then Some(ReceiveResponse)
                              else Some(FreeBus))
                && r.bus.active.value.tel == t.(slaveACK := a.answer.value)
                && r.bus.active.value.state ==
                     if a.answer.value == NAK || a.answer.value == ACK then m.state else EBUS_ERR_TRANSMIT)
  {
    hide WriteAll, WriteRead, Read, Grown;
    var t := b.active.value.tel;
    var e := CopyEcho(b, t, from);
    var b2 := WriteRead(WriteAll(b, t.master.bytes[from..]).bus, t.masterCRC).bus;
    a := Attempt(e, None);
    if t.kind != BC {
      var b3, x := Read(b2).bus, Read(b2).value;
      ReadGrown(b2);
      GrownTwice(b.log, b2.log, b3.log, e, Frame(t)[from..], e == Frame(t)[from..], [x], [], true);
      assert Frame(t)[from..] + [] == Frame(t)[from..];
      a := Attempt(e, Some(x));
    }
  }

  /** The copy from the index on, with its checksum, and what came back. */
  lemma CopyEcho(b: Bus, t: Tel, from: nat) returns (e: seq<Byte>)
    requires from <= |t.master.bytes| && WriteAll(b, t.master.bytes[from..]).Ok?
    requires WriteRead(WriteAll(b, t.master.bytes[from..]).bus, t.masterCRC).Ok?
    ensures var w, c := Frame(t)[from..], WriteRead(WriteAll(b, t.master.bytes[from..]).bus, t.masterCRC).bus;
            |e| == |w| && Grown(b.log, c.log, e, w, e == w)
  {
    hide WriteAll, WriteRead, Grown;
    var m := t.master.bytes[from..];
    var b1 := WriteAll(b, m).bus;
    var h := WriteAllEcho(b, m);
    var b2 := WriteRead(b1, t.masterCRC).bus;
    var y := WriteReadEcho(b1, t.masterCRC);
    GrownTwice(b.log, b1.log, b2.log, h, m, h == m, [y], [t.masterCRC], y == t.masterCRC);
    assert Frame(t)[from..] == m + [t.masterCRC];
    SameSnoc(h, y, m, t.masterCRC);
    e := h + [y];
  }

  lemma SameSnoc(s: seq<Byte>, x: Byte, t: seq<Byte>, y: Byte)
    requires |s| == |t|
    ensures s + [x] == t + [y] <==> s == t && x == y
  {
    assert (s + [x])[..|s|] == s && (t + [y])[..|t|] == t;
    assert (s + [x])[|s|] == x && (t + [y])[|t|] == y;
  }

  lemma Appended(x: Exchange, a: Attempt, frame: seq<Byte>)
    requires x.replies == []
    ensures var x' := Exchange(x.attempts + [a], []);
            && Heard(x') == Heard(x) + a.Bytes() && Written(x', frame) == Written(x, frame) + frame
            && (Echoed(x', frame) <==> Echoed(x, frame) && a.echo == frame)
  {
    var x' := Exchange(x.attempts + [a], []);
    assert x'.attempts[..|x.attempts|] == x.attempts;
    assert AttemptsHeard(x'.attempts) == AttemptsHeard(x.attempts) + a.Bytes();
    assert x'.attempts[|x.attempts|] == a;
    if Echoed(x', frame) {
      forall i | 0 <= i < |x.attempts|
        ensures x.attempts[i].echo == frame
      {
        assert x'.attempts[i].echo == frame;
      }
    }
  }

  /** A copy, together with its first bytes sent before, is one more attempt. */
  lemma Attempted(l: Log, l': Log, frame: seq<Byte>, x: Exchange, from: nat, a: Attempt)
    requires from <= |frame| && x.replies == [] && Transcript(l, frame, x, frame[..from])
    requires |a.echo| == |frame| - from && Grown(l, l', a.Bytes(), frame[from..], a.echo == frame[from..])
    ensures Transcript(l', frame, Exchange(x.attempts + [a.(echo := frame[..from] + a.echo)], []), [])
  {
    hide Heard, Written, Echoed;
    var start := frame[..from];
    var a' := a.(echo := start + a.echo);
    Appended(x, a', frame);
    assert start + frame[from..] == frame;
    assert a'.echo == frame <==> a.echo == frame[from..] by {
      assert a'.echo[from..] == a.echo && a'.echo[..from] == start;
    }
    assert a'.Bytes() == start + a.Bytes();
    Since(l.heard, l.lockHeard, a.Bytes(), Heard(x), start);
    Since(l.written, l.lockWritten, frame[from..], Written(x, frame), start);
  }

  lemma Since(log: seq<Byte>, mark: nat, more: seq<Byte>, s: seq<Byte>, start: seq<Byte>)
    requires mark <= |log| && log[mark..] == s + start
    ensures (log + more)[mark..] == s + (start + more) + []
  {
    assert (log + more)[mark..] == log[mark..] + more;
  }

  /** What is left of a refused first copy. */
  predicate RefusedOnce(b: Bus, x: Exchange) {
    && b.active.Some? && Transcript(b.log, Frame(b.active.value.tel), x, [])
    && |x.attempts| == 1 && x.replies == [] && x.attempts[0].answer == Some(NAK)
    && |x.attempts[0].echo| == |Frame(b.active.value.tel)| && x.attempts[0].echo[0] == Frame(b.active.value.tel)[0]
    && b.active.value.state == SEQ_OK && b.active.value.tel.kind != BC
  }

  /** A state method leads to the next stage. */
  ghost predicate Leads(r: Run<State>) {
    r.Ok? ==> (r.value == ReceiveResponse ==> Awaiting(r.bus)) && (r.value == FreeBus ==> Finished(r.bus))
  }

  lemma SentOnce(b: Bus) returns (x: Exchange)
    requires Claimed(b) && b.active.value.tel.master.bytes != [] && b.active.value.state == SEQ_OK
    requires b.active.value.tel.kind != Undefined
    requires SendOnce(b, 1).Ok?
    ensures var r := SendOnce(b, 1);
            && (r.value.None? ==> RefusedOnce(r.bus, x))
            && (r.value.Some? ==> Leads(Ok(r.bus, r.value.value)))
  {
    hide Transcript, SendOnce;
    var t := b.active.value.tel;
    var frame := Frame(t);
    var b1 := SendOnce(b, 1).bus;
    var a := SendOnceEffect(b, 1);
    Attempted(b.log, b1.log, frame, NOTHING, 1, a);
    assert frame[..1] + a.echo != [] && (frame[..1] + a.echo)[0] == frame[0];
    x := Exchange([a.(echo := frame[..1] + a.echo)], []);
    assert [] + x.attempts == x.attempts;
    assert Frame(b1.active.value.tel) == frame;
    if SendOnce(b, 1).value.Some? {
      SentLeads(b1, x, SendOnce(b, 1).value.value);
    }
  }

  lemma SentTwice(b: Bus, x: Exchange)
    requires RefusedOnce(b, x) && b.active.value.tel.kind != Undefined
    requires SendOnce(b, 0).Ok?
    ensures var r := SendOnce(b, 0);
            Leads(if r.value.Some? then Ok(r.bus, r.value.value) else Ok(Mark(r.bus, EBUS_ERR_TRANSMIT), FreeBus))
  {
    hide Transcript, SendOnce, Sent, Confirmed;
    var t := b.active.value.tel;
    var frame := Frame(t);
    var b1 := SendOnce(b, 0).bus;
    var a := SendOnceEffect(b, 0);
    assert frame[..0] == [] && frame[0..] == frame;
    Attempted(b.log, b1.log, frame, x, 0, a);
    assert [] + a.echo == a.echo;
    var x' := Exchange(x.attempts + [a], []);
    assert Frame(b1.active.value.tel) == frame;
    TwoAttempts(x, a, b1.active.value.tel);
    var r := SendOnce(b, 0);
    var b2 := if r.value.Some? then b1 else Mark(b1, EBUS_ERR_TRANSMIT);
    var next := if r.value.Some? then r.value.value else FreeBus;
    SentLeads(b2, x', next);
  }

  lemma TwoAttempts(x: Exchange, a: Attempt, t: Tel)
    requires |x.attempts| == 1 && x.attempts[0].answer == Some(NAK) && x.attempts[0].echo != []
    requires |x.attempts[0].echo| == |a.echo| == |Frame(t)| && x.attempts[0].echo[0] == Frame(t)[0]
    requires t.kind != BC && a.answer.Some?
    ensures var x' := Exchange(x.attempts + [a], []);
            Sent(x', t) && (Confirmed(x') <==> a.answer.value == ACK)
  {
    var x' := Exchange(x.attempts + [a], []);
    assert x'.attempts[0] == x.attempts[0] && x'.attempts[1] == a;
  }

  /** The last copy decides where the transfer goes from here. */
  lemma SentLeads(b: Bus, x: Exchange, next: State)
    requires b.active.Some? && b.active.value.tel.kind != Undefined
    requires var m := b.active.value;
             && Transcript(b.log, Frame(m.tel), x, []) && Sent(x, m.tel) && x.replies == []
             && next == (if m.tel.kind == MS && Confirmed(x) then ReceiveResponse else FreeBus)
             && m.state == if m.tel.kind == BC || Confirmed(x) then SEQ_OK else EBUS_ERR_TRANSMIT
    ensures Leads(Ok(b, next))
  {
    hide Transcript, Sent;
    assert Replied(x, b.active.value.tel) || next == ReceiveResponse;
  }

  lemma SendLeads(b: Bus)
    requires Claimed(b) && b.active.value.tel.master.bytes != [] && b.active.value.state == SEQ_OK
    requires b.active.value.tel.kind != Undefined
    ensures Leads(Send(b))
  {
    hide Transcript, RefusedOnce, SendOnce, Awaiting, Finished;
    var r := SendOnce(b, 1);
    SendTryUnfolds(b, 1);
    if r.Ok? {
      var x := SentOnce(b);
      if r.value.None? {
        SendTryUnfolds(r.bus, 0);
        KindKept(b);
        if SendOnce(r.bus, 0).Ok? {
          SentTwice(r.bus, x);
        }
      }
    }
  }

  lemma KindKept(b: Bus)
    requires b.active.Some? && b.active.value.tel.master.bytes != [] && SendOnce(b, 1).Ok?
    ensures SendOnce(b, 1).bus.active.Some? && SendOnce(b, 1).bus.active.value.tel.kind == b.active.value.tel.kind
  {
    var a := SendOnceEffect(b, 1);
  }

  lemma SendTryUnfolds(b: Bus, retry: nat)
    requires b.active.Some? && retry <= |b.active.value.tel.master.bytes|
    ensures var r := SendOnce(b, retry);
            SendTry(b, retry) ==
              if r.Raise? then Raise(r.bus, r.signal)
              else if r.value.Some? then Ok(r.bus, r.value.value)
              else if retry > 0 then SendTry(r.bus, retry - 1)
              else Ok(Mark(r.bus, EBUS_ERR_TRANSMIT), FreeBus)
  {
    hide SendOnce;
  }

  // ---------- Receiving the response ----------

  /** The responses so far were refused. */
  predicate RefusedReplies(b: Bus, x: Exchange) {
    && b.active.Some?
    && var t := b.active.value.tel;
       && Transcript(b.log, Frame(t), x, []) && Sent(x, t) && t.kind == MS && Confirmed(x)
       && Answered(x.replies) && |x.replies| <= 1 && (x.replies != [] ==> !Correct(x.replies[0].bytes))
       && b.active.value.state == SEQ_OK
  }

  /** A complete response decodes to one byte less for each SYN in it. */
  lemma FramedSize(bytes: seq<Byte>)
    requires Framed(bytes)
    ensures var s := Reduce(bytes);
            s != [] && s[0] == bytes[0] && |s| + SynCount(bytes) == Count(bytes[0]) + 2
    ensures SynCount(bytes) == 0 <==> NoSyn(bytes)
  {
    var nn, got := bytes[0], bytes[1..];
    assert bytes == [nn] + got;
    ReducePlain([nn], got);
    SynCountZero(bytes);
  }

  lemma CutChecksum(s: seq<Byte>)
    requires s != []
    ensures CrcOf(Buffer(s[..|s| - 1], false)) == FrameCrc(s[..|s| - 1])
  {
  }

  /** A response is acknowledged exactly when its checksum is right or was never looked at. */
  lemma CorrectExactly(t: Tel, bytes: seq<Byte>)
    requires Framed(bytes)
    ensures CreateSlave(t, Reduce(bytes)).slaveState == SEQ_OK <==> Correct(bytes)
    ensures Correct(bytes) ==> SlaveIs(CreateSlave(t, Reduce(bytes)), bytes)
  {
    hide CrcOf, Reduce, SynCount, NoSyn, Shortest, Count, Extend;
    FramedSize(bytes);
    CutChecksum(Reduce(bytes));
    BareChecksum(Reduce(bytes));
  }

  lemma BareChecksum(s: seq<Byte>)
    ensures CrcOf(Buffer(s, false)) == FrameCrc(s)
  {
  }

  /** A response whose checksum byte arrived as SYN is acknowledged, whatever its data. */
  lemma UncheckedResponse(d: Byte)
    requires !Escaped(d)
    ensures var bytes := [0x01, d, SYN];
            Framed(bytes) && Unchecked(bytes) && Correct(bytes) && ResponseFrame(bytes) == [0x01, d]
  {
    var bytes := [0x01, d, SYN];
    assert bytes[1..] == [d, SYN];
    UnitsOfTwo(d);
    assert SynCount(bytes) == SynCount([d, SYN]);
    assert bytes[2] == SYN;
    ReducePlain([0x01, d], [SYN]);
    assert bytes == [0x01, d] + [SYN];
    ReduceLength([SYN], false);
    assert Escapes([SYN]) == 1;
    assert [0x01, d] + [] == [0x01, d];
  }

  lemma SlaveKeepsFrame(t: Tel, s: seq<Byte>)
    ensures var u := CreateSlave(t, s);
            u.master == t.master && u.masterCRC == t.masterCRC && u.kind == t.kind
  {
    hide CrcOf;
  }

  /** What one response does to the logs and to the message. */
  lemma ListenOnceEffect(b: Bus) returns (y: Reply)
    requires b.active.Some? && ListenOnce(b).Ok? && ListenOnce(b).value != Some(MonitorBus)
    ensures var r := ListenOnce(b);
            && Framed(y.bytes) && y.ack == (if Correct(y.bytes) then ACK else NAK)
            && Grown(b.log, r.bus.log, y.bytes + [y.echo], [y.ack], y.echo == y.ack)
            && r.bus.active.Some? && r.bus.active.value.state == b.active.value.state
            && Frame(r.bus.active.value.tel) == Frame(b.active.value.tel)
            && r.bus.active.value.tel.kind == b.active.value.tel.kind
            && r.value == (if Correct(y.bytes) then Some(FreeBus) else None)
            && (Correct(y.bytes) ==> SlaveIs(r.bus.active.value.tel, y.bytes))
            && r.bus.active.value.tel.masterACK == y.ack
  {
    hide Take, AnswerResponse, Framed, Correct, Reset, Count;
    var b1, nn := Read(b).bus, Read(b).value;
    ReadGrown(b);
    var taken := Take(b1.device.input, Count(nn) + 1);
    var b2 := Hear(b1, taken);
    assert Grown(b1.log, b2.log, taken.got, [], true);
    GrownTwice(b.log, b1.log, b2.log, [nn], [], true, taken.got, [], true);
    var bytes := [nn] + taken.got;
    TakenFramed(b1.device.input, nn, taken);
    var b3 := AnswerResponse(b2, Buffer(bytes, true)).bus;
    var echo := AnswerResponseEffect(b2, bytes);
    y := Reply(bytes, if Correct(bytes) then ACK else NAK, echo);
    GrownTwice(b.log, b2.log, b3.log, bytes, [], true, [echo], [y.ack], y.echo == y.ack);
  }

  lemma TakenFramed(input: seq<Input>, nn: Byte, taken: Taken)
    requires Count(nn) <= MAX_BYTES && taken == Take(input, Count(nn) + 1) && taken.signal.None?
    ensures Framed([nn] + taken.got)
  {
    hide Take, Shortest, Datas;
    TakeShape(input, Count(nn) + 1);
    TakesShortest(taken.got, taken.rest, Count(nn) + 1);
    assert ([nn] + taken.got)[1..] == taken.got;
  }

  lemma AnswerResponseEffect(b: Bus, bytes: seq<Byte>) returns (echo: Byte)
    requires b.active.Some? && AnswerResponse(b, Buffer(bytes, true)).Ok? && Framed(bytes)
    ensures var r := AnswerResponse(b, Buffer(bytes, true));
            var ack := if Correct(bytes) then ACK else NAK;
            && Grown(b.log, r.bus.log, [echo], [ack], echo == ack)
            && r.bus.active.Some? && r.bus.active.value.state == b.active.value.state
            && Frame(r.bus.active.value.tel) == Frame(b.active.value.tel)
            && r.bus.active.value.tel.kind == b.active.value.tel.kind
            && r.value == (if Correct(bytes) then Some(FreeBus) else None)
            && (Correct(bytes) ==> SlaveIs(r.bus.active.value.tel, bytes))
            && r.bus.active.value.tel.masterACK == ack
  {
    hide CreateSlave, Reduce, WriteRead, Correct, Framed;
    var t := b.active.value.tel;
    CorrectExactly(t, bytes);
    SlaveKeepsFrame(t, Reduce(bytes));
    var u := CreateSlave(t, Reduce(bytes));
    var ack := if u.slaveState == SEQ_OK then ACK else NAK;
    echo := WriteReadEcho(WithTel(b, u), ack);
    assert SlaveIs(u, bytes) ==> SlaveIs(u.(masterACK := ack), bytes);
  }

  lemma RepliesSnoc(r: seq<Reply>, y: Reply)
    ensures RepliesHeard(r + [y]) == RepliesHeard(r) + (y.bytes + [y.echo])
    ensures Acks(r + [y]) == Acks(r) + [y.ack]
  {
    var r' := r + [y];
    assert r'[..|r|] == r && r'[|r|] == y;
    assert RepliesHeard(r') == RepliesHeard(r) + y.bytes + [y.echo];
  }

  lemma ReplyAppended(x: Exchange, y: Reply, frame: seq<Byte>)
    ensures var x' := x.(replies := x.replies + [y]);
            && Heard(x') == Heard(x) + (y.bytes + [y.echo]) && Written(x', frame) == Written(x, frame) + [y.ack]
            && (Echoed(x', frame) <==> Echoed(x, frame) && y.echo == y.ack)
  {
    hide RepliesHeard, Acks, AttemptsHeard, Copies;
    var x' := x.(replies := x.replies + [y]);
    RepliesSnoc(x.replies, y);
    assert x'.replies[|x.replies|] == y;
    if Echoed(x', frame) {
      forall i | 0 <= i < |x.replies|
        ensures x.replies[i].echo == x.replies[i].ack
      {
        assert x'.replies[i].echo == x'.replies[i].ack;
      }
    }
  }

  lemma Replying(l: Log, l': Log, frame: seq<Byte>, x: Exchange, y: Reply)
    requires Transcript(l, frame, x, []) && Grown(l, l', y.bytes + [y.echo], [y.ack], y.echo == y.ack)
    ensures Transcript(l', frame, x.(replies := x.replies + [y]), [])
  {
    hide Heard, Written, Echoed;
    ReplyAppended(x, y, frame);
    Since(l.heard, l.lockHeard, y.bytes + [y.echo], Heard(x), []);
    Since(l.written, l.lockWritten, [y.ack], Written(x, frame), []);
    assert [] + (y.bytes + [y.echo]) == y.bytes + [y.echo] && [] + [y.ack] == [y.ack];
  }

  lemma ListenedOnce(b: Bus, x: Exchange) returns (x': Exchange)
    requires RefusedReplies(b, x) && ListenOnce(b).Ok? && ListenOnce(b).value != Some(MonitorBus)
    ensures var r := ListenOnce(b);
            && (r.value.Some? ==> r.value == Some(FreeBus) && Finished(r.bus))
            && (r.value.None? && x.replies == [] ==> RefusedReplies(r.bus, x') && |x'.replies| == 1)
            && (r.value.None? && x.replies != [] ==> Finished(Mark(r.bus, EBUS_ERR_TRANSMIT)))
  {
    hide Transcript, Framed, Correct, SlaveIs, ListenOnce, Sent;
    var t := b.active.value.tel;
    var r := ListenOnce(b);
    var y := ListenOnceEffect(b);
    Replying(b.log, r.bus.log, Frame(t), x, y);
    x' := x.(replies := x.replies + [y]);
    assert x'.replies[|x.replies|] == y;
    SentSame(x, x', t, r.bus.active.value.tel);
    if r.value.Some? {
      assert Settled(r.bus.active.value, x');
    } else if x.replies != [] {
      assert x'.replies[0] == x.replies[0];
      var b' := Mark(r.bus, EBUS_ERR_TRANSMIT);
      assert Settled(b'.active.value, x');
      assert Transcript(b'.log, Frame(b'.active.value.tel), x', []);
    }
  }

  lemma SentSame(x: Exchange, y: Exchange, t: Tel, u: Tel)
    requires Sent(x, t) && x.attempts == y.attempts && Frame(t) == Frame(u) && t.kind == u.kind
    ensures Sent(y, u)
  {
  }

  lemma ListenTryUnfolds(b: Bus, retry: nat)
    requires b.active.Some?
    ensures var r := ListenOnce(b);
            ListenTry(b, retry) ==
              if r.Raise? then Raise(r.bus, r.signal)
              else if r.value.Some? then Ok(r.bus, r.value.value)
              else if retry > 0 then ListenTry(r.bus, retry - 1)
              else Ok(Mark(r.bus, EBUS_ERR_TRANSMIT), FreeBus)
  {
    hide ListenOnce;
  }

  lemma ListenLeads(b: Bus)
    requires Awaiting(b) && b.active.value.state == SEQ_OK
    ensures Leads(Listen(b))
  {
    hide Transcript, Sent, Confirmed, ListenOnce, Finished, ListenTry;
    var t := b.active.value.tel;
    var x :| Transcript(b.log, Frame(t), x, []) && Sent(x, t) && t.kind == MS && Confirmed(x) && x.replies == [];
    ListenTryUnfolds(b, 1);
    var r := ListenOnce(b);
    if r.Ok? && r.value != Some(MonitorBus) {
      var x' := ListenedOnce(b, x);
      if r.value.None? {
        ListenTryUnfolds(r.bus, 0);
        var r' := ListenOnce(r.bus);
        if r'.Ok? && r'.value != Some(MonitorBus) {
          var x'' := ListenedOnce(r.bus, x');
        }
      }
    }
  }
}

/**
 What a result of zero means. On every run the log tells whether the active message was sent: that is the case exactly
 when the bus is about to be freed after a successful transfer. Zero is handed back there, but also by closing and
 by `sendResponse`, wherever the message was.
 */
module Delivery {
  import opened Wrappers
  import opened Bytes
  import opened Escape
  import opened Sequences
  import opened TelegramValues
  import opened Language
  import opened BusModel
  import opened Machine
  import opened Runs
  import opened Framing
  import opened Transfers
  import opened Results

  /** Since it became active the message was transferred successfully: the log since the last claim is that transfer. */
  ghost predicate WasSent(b: Bus) {
    && b.active.Some? && b.log.tried
    && var t := b.active.value.tel;
       exists x :: Transcript(b.log, Frame(t), x, []) && Sent(x, t) && Replied(x, t) && Succeeded(x, t)
  }

  // ---------- The log determines the transfer ----------

  lemma {:induction false} CopiesSize(frame: seq<Byte>, n: nat)
    ensures |Copies(frame, n)| == n * |frame|
  {
    if n > 0 {
      CopiesSize(frame, n - 1);
    }
  }

  /** Two counts of copies with fewer bytes behind them than a copy has. */
  lemma SameCounts(size: nat, n: nat, r: nat, n': nat, r': nat)
    requires 1 <= n <= 2 && 1 <= n' <= 2 && r <= 2 && r' <= 2 && size > 2
    requires n * size + r == n' * size + r'
    ensures n == n' && r == r'
  {
    assert n == 1 || n == 2;
    assert n' == 1 || n' == 2;
  }

  /** A complete response is told by its own length byte from what follows. */
  lemma FramedPrefix(a: seq<Byte>, b: seq<Byte>, rest: seq<Byte>, rest': seq<Byte>)
    requires Framed(a) && Framed(b) && a + rest == b + rest'
    ensures a == b && rest == rest'
  {
    hide Units;
    assert a[0] == (a + rest)[0] && b[0] == (b + rest')[0];
    ShorterFramed(a, b, rest, rest');
    ShorterFramed(b, a, rest', rest);
    assert a == (a + rest)[..|a|] && b == (b + rest')[..|b|];
    assert rest == (a + rest)[|a|..] && rest' == (b + rest')[|b|..];
  }

  lemma ShorterFramed(a: seq<Byte>, b: seq<Byte>, rest: seq<Byte>, rest': seq<Byte>)
    requires Framed(a) && Framed(b) && a + rest == b + rest' && a[0] == b[0]
    ensures |a| >= |b|
  {
    hide Units;
    if |a| < |b| {
      Unfinished(a, b, rest, rest');
    }
  }

  lemma Unfinished(a: seq<Byte>, b: seq<Byte>, rest: seq<Byte>, rest': seq<Byte>)
    requires Framed(b) && a != [] && a + rest == b + rest' && |a| < |b|
    ensures Units(a[1..]) < Count(b[0]) + 1
  {
    hide Units;
    assert b[1..][..|a| - 1] == a[1..] by {
      assert (b + rest')[1..|a|] == b[1..][..|a| - 1];
      assert (a + rest)[1..|a|] == a[1..];
    }
  }

  lemma SplitAt(a: seq<Byte>, b: seq<Byte>, rest: seq<Byte>, rest': seq<Byte>)
    requires a + rest == b + rest' && |a| == |b|
    ensures a == b && rest == rest'
  {
    assert a == (a + rest)[..|a|] && b == (b + rest')[..|b|];
    assert rest == (a + rest)[|a|..] && rest' == (b + rest')[|b|..];
  }

  lemma SentParts(x: Exchange, t: Tel)
    requires Sent(x, t)
    ensures var a := x.attempts;
            && (|a| == 1 ==> AttemptsHeard(a) == a[0].Bytes())
            && (|a| == 2 ==> AttemptsHeard(a) == a[0].Bytes() + a[1].Bytes())
            && (forall i :: 0 <= i < |a| ==> |a[i].Bytes()| == |Frame(t)| + if t.kind == BC then 0 else 1)
  {
    var a := x.attempts;
    assert a[..1][..0] == [] && a[..1][0] == a[0];
    assert AttemptsHeard(a[..1]) == [] + a[0].Bytes();
    if |a| == 2 {
      assert AttemptsHeard(a) == AttemptsHeard(a[..1]) + a[1].Bytes();
    } else {
      assert a == a[..1];
    }
  }

  lemma SameAttempt(a: Attempt, b: Attempt, t: Tel)
    requires |a.echo| == |b.echo| == |Frame(t)| && a.Bytes() == b.Bytes() && a.answer.Some? == b.answer.Some?
    ensures a == b
  {
    if a.answer.Some? {
      SplitAt(a.echo, b.echo, [a.answer.value], [b.answer.value]);
      assert [a.answer.value][0] == [b.answer.value][0];
    }
  }

  lemma SameAttempts(x: Exchange, y: Exchange, t: Tel, rest: seq<Byte>, rest': seq<Byte>)
    requires Sent(x, t) && Sent(y, t) && |x.attempts| == |y.attempts|
    requires AttemptsHeard(x.attempts) + rest == AttemptsHeard(y.attempts) + rest'
    ensures x.attempts == y.attempts && rest == rest'
  {
    hide Attempt.Bytes, AttemptsHeard;
    var a, b := x.attempts, y.attempts;
    SentParts(x, t);
    SentParts(y, t);
    SplitAt(AttemptsHeard(a), AttemptsHeard(b), rest, rest');
    if |a| == 1 {
      SameAttempt(a[0], b[0], t);
    } else {
      SplitAt(a[0].Bytes(), b[0].Bytes(), a[1].Bytes(), b[1].Bytes());
      SameAttempt(a[0], b[0], t);
      SameAttempt(a[1], b[1], t);
    }
  }

  lemma OneReplyHeard(a: Reply)
    ensures RepliesHeard([a]) == a.bytes + [a.echo]
  {
    assert [a][..0] == [];
    assert RepliesHeard([a]) == [] + a.bytes + [a.echo];
  }

  lemma RepliesParts(r: seq<Reply>)
    ensures |r| == 1 ==> RepliesHeard(r) == r[0].bytes + [r[0].echo]
    ensures |r| == 2 ==> RepliesHeard(r) == r[0].bytes + ([r[0].echo] + (r[1].bytes + [r[1].echo]))
  {
    hide RepliesHeard, Acks;
    if |r| == 1 {
      assert r == [r[0]];
      OneReplyHeard(r[0]);
    } else if |r| == 2 {
      var a, b := r[0], r[1];
      assert r == [a] + [b];
      OneReplyHeard(a);
      RepliesSnoc([a], b);
      assert a.bytes + [a.echo] + (b.bytes + [b.echo]) == a.bytes + ([a.echo] + (b.bytes + [b.echo]));
    }
  }

  lemma SameReplies(r: seq<Reply>, s: seq<Reply>)
    requires Answered(r) && Answered(s) && |r| == |s| <= 2 && RepliesHeard(r) == RepliesHeard(s)
    ensures r == s
  {
    hide Framed, Correct, RepliesHeard;
    RepliesParts(r);
    RepliesParts(s);
    if |r| == 1 {
      FramedPrefix(r[0].bytes, s[0].bytes, [r[0].echo], [s[0].echo]);
      assert [r[0].echo][0] == [s[0].echo][0];
    } else if |r| == 2 {
      var rest, rest' := r[1].bytes + [r[1].echo], s[1].bytes + [s[1].echo];
      FramedPrefix(r[0].bytes, s[0].bytes, [r[0].echo] + rest, [s[0].echo] + rest');
      SplitAt([r[0].echo], [s[0].echo], rest, rest');
      FramedPrefix(r[1].bytes, s[1].bytes, [r[1].echo], [s[1].echo]);
      assert [r[0].echo][0] == [s[0].echo][0] && [r[1].echo][0] == [s[1].echo][0];
    }
  }

  /** Two transfers of the same frame that spell the same bytes are the same. */
  lemma SpelledUnique(t: Tel, x: Exchange, y: Exchange)
    requires |Frame(t)| > 2 && Sent(x, t) && Replied(x, t) && Sent(y, t) && Replied(y, t)
    requires Heard(x) == Heard(y) && |Written(x, Frame(t))| == |Written(y, Frame(t))|
    ensures |x.attempts| == |y.attempts| && x == y
  {
    hide Correct, Framed, Confirmed, AttemptsHeard, RepliesHeard, Copies, Answered, Echoed;
    var f := Frame(t);
    CopiesSize(f, |x.attempts|);
    CopiesSize(f, |y.attempts|);
    SameCounts(|f|, |x.attempts|, |x.replies|, |y.attempts|, |y.replies|);
    SameAttempts(x, y, t, RepliesHeard(x.replies), RepliesHeard(y.replies));
    SameReplies(x.replies, y.replies);
  }

  /** There is at most one way to read the log as a transfer. */
  lemma ExchangeUnique(l: Log, t: Tel, x: Exchange, y: Exchange)
    requires |Frame(t)| > 2
    requires Transcript(l, Frame(t), x, []) && Sent(x, t) && Replied(x, t)
    requires Transcript(l, Frame(t), y, []) && Sent(y, t) && Replied(y, t)
    ensures x == y
  {
    hide Sent, Replied, Written, Heard, Echoed;
    assert Heard(x) + [] == Heard(x) && Heard(y) + [] == Heard(y);
    SpelledUnique(t, x, y);
  }

  lemma TranscriptParts(l: Log, frame: seq<Byte>, x: Exchange)
    requires Transcript(l, frame, x, [])
    ensures l.heard[l.lockHeard..] == AttemptsHeard(x.attempts) + RepliesHeard(x.replies)
    ensures |l.written[l.lockWritten..]| == |Copies(frame, |x.attempts|)| + |x.replies|
  {
    hide AttemptsHeard, RepliesHeard, Copies, Echoed;
    assert Heard(x) + [] == Heard(x);
  }

  // ---------- Between the transfers ----------

  /** The bus was claimed in vain: what was read back is not the source address. */
  predicate Outbid(b: Bus) {
    && b.active.Some? && b.log.lockHeard < |b.log.heard| && b.active.value.tel.master.bytes != []
    && b.log.heard[b.log.lockHeard] != b.active.value.tel.master.bytes[0]
  }

  predicate Transferring(s: State) {
    s == SendMessage || s == ReceiveResponse || s == FreeBus
  }

  /** How the last claim of the bus goes with the state. */
  predicate Standing(b: Bus, s: State) {
    && (b.log.tried ==> b.active.Some?)
    && (Transferring(s) ==> b.log.tried)
    && (b.log.tried && !Transferring(s) && s != IdleSystem ==> Outbid(b))
  }

  /** More was heard, but the claim and the active message are the same. */
  predicate Onward(a: Bus, b: Bus) {
    && b.log.heard <= a.log.heard && a.log.lockHeard == b.log.lockHeard && a.log.tried == b.log.tried
    && a.active == b.active
  }

  lemma OnwardStanding(a: Bus, b: Bus, s: State, next: State)
    requires Onward(a, b) && Standing(b, s) && !Transferring(s) && !Transferring(next) && s != IdleSystem
    ensures Standing(a, next)
  {
  }

  lemma OnwardTwice(a: Bus, b: Bus, c: Bus)
    requires Onward(a, b) && Onward(b, c)
    ensures Onward(a, c)
  {
  }

  lemma ReadOnward(b: Bus)
    ensures Onward(Read(b).bus, b)
  {
  }

  lemma WriteReadOnward(b: Bus, x: Byte)
    ensures Onward(WriteRead(b, x).bus, b)
  {
  }

  lemma MonitorStanding(b: Bus)
    requires Standing(b, MonitorBus)
    ensures Monitor(b).Ok? ==> Standing(Monitor(b).bus, Monitor(b).value)
  {
    hide Addressed, Parse, PublicationOf, Tel.IsValid, SlaveAddress;
    ReadOnward(b);
    var r := Read(b);
    if r.Ok? {
      OnwardStanding(r.bus, b, MonitorBus, MonitorBus);
      var c := Decode(CountDown(r.bus));
      assert Onward(c, r.bus);
      OnwardStanding(c, r.bus, MonitorBus, LockBus);
      OnwardStanding(c, r.bus, MonitorBus, MonitorBus);
    }
  }

  lemma HeaderOnward(b: Bus, a: Bus, k: nat)
    requires Onward(a, b)
    ensures Onward(ReceiveHeader(a, k).bus, b)
    decreases k
  {
    hide Read;
    if k > 0 {
      ReadOnward(a);
      var r := Read(a);
      if r.Ok? {
        OnwardTwice(r.bus, a, b);
        HeaderOnward(b, r.bus.(sequence := Push(r.bus.sequence, [r.value])), k - 1);
      }
    }
  }

  lemma BytesOnward(b: Bus, n: nat)
    ensures Onward(ReceiveBytes(b, n).bus, b)
  {
    hide Take;
  }

  lemma AnswerOnward(b: Bus)
    ensures Onward(Answer(b).bus, b)
  {
    hide CreateMaster, MasterArgument, WriteRead, Reduce;
    var s := b.sequence.Logical();
    var b1 := b.(sequence := MasterArgument(s));
    var ack := if CreateMaster(CLEARED, s).masterState == SEQ_OK then ACK else NAK;
    WriteReadOnward(b1, ack);
  }

  lemma ResetStanding(b: Bus, c: Bus, next: State)
    requires c.log.tried == Reset(b).log.tried && !Transferring(next)
    ensures Standing(c, next)
  {
  }

  lemma ReceiveStanding(b: Bus)
    requires Standing(b, ReceiveMessage) && Ready(b, ReceiveMessage)
    ensures Receive(b).Ok? ==> Standing(Receive(b).bus, Receive(b).value)
  {
    hide ReceiveHeader, ReceiveBytes, Answer, Reset, Count, Standing, Onward;
    OnwardSelf(b);
    HeaderOnward(b, b, 3);
    var r1 := ReceiveHeader(b, 3);
    if r1.Ok? {
      var n := Count(r1.bus.sequence.bytes[4]);
      if n > MAX_BYTES {
        if r1.bus.active.Some? {
          ResetStanding(Mark(r1.bus, EBUS_ERR_TRANSMIT), Reset(Mark(r1.bus, EBUS_ERR_TRANSMIT)), MonitorBus);
        }
      } else {
        BytesOnward(r1.bus, n);
        OnwardTwice(ReceiveBytes(r1.bus, n).bus, r1.bus, b);
        var r2 := ReceiveBytes(r1.bus, n);
        if r2.Ok? {
          BytesOnward(r2.bus, 1);
          OnwardTwice(ReceiveBytes(r2.bus, 1).bus, r2.bus, b);
          var r3 := ReceiveBytes(r2.bus, 1);
          if r3.Ok? {
            AnswerOnward(r3.bus);
            OnwardTwice(Answer(r3.bus).bus, r3.bus, b);
            AnswerNext(r3.bus);
            if Answer(r3.bus).Ok? {
              OnwardStanding(Answer(r3.bus).bus, b, ReceiveMessage, Answer(r3.bus).value);
            }
          }
        }
      }
    }
  }

  lemma OnwardSelf(b: Bus)
    ensures Onward(b, b)
  {
  }

  lemma AnswerNext(b: Bus)
    ensures Answer(b).Ok? ==> Answer(b).value == ProcessMessage || Answer(b).value == MonitorBus
  {
    hide CreateMaster, MasterArgument, WriteRead, Reduce;
  }

  lemma ProcessStanding(b: Bus)
    requires Standing(b, ProcessMessage)
    ensures Standing(Process(b).bus, Process(b).value)
  {
    hide CreateMaster, CreateSlave, MasterArgument;
  }

  lemma RespondStanding(b: Bus)
    requires b.passive.Some?
    ensures Respond(b).Ok? ==> Standing(Respond(b).bus, Respond(b).value)
  {
    hide RespondTry;
  }

  lemma LockStanding(b: Bus)
    requires Ready(b, LockBus)
    ensures Lock(b).Ok? ==> Standing(Lock(b).bus, Lock(b).value)
  {
    hide SamePriority;
  }

  lemma SendStanding(b: Bus, a: Bus, retry: nat)
    requires a.active.Some? && retry <= |a.active.value.tel.master.bytes| && Untouched(a, b) && b.log.tried
    ensures SendTry(a, retry).Ok? ==>
              Transferring(SendTry(a, retry).value) && Standing(SendTry(a, retry).bus, SendTry(a, retry).value)
    decreases retry
  {
    hide Sendable, SendOnce;
    SendOnceApart(b, a, retry);
    SendTryUnfolds(a, retry);
    var r := SendOnce(a, retry);
    if r.Ok? && r.value.None? && retry > 0 {
      SendStanding(b, r.bus, retry - 1);
    }
  }

  lemma ListenStanding(b: Bus, a: Bus, retry: nat)
    requires a.active.Some? && Untouched(a, b) && b.log.tried
    ensures ListenTry(a, retry).Ok? ==> Standing(ListenTry(a, retry).bus, ListenTry(a, retry).value)
    decreases retry
  {
    hide Sendable, ListenOnce, HandedBack;
    ListenOnceApart(b, a);
    ListenTryUnfolds(a, retry);
    OversizedStanding(a);
    var r := ListenOnce(a);
    if r.Ok? && r.value.None? && retry > 0 {
      ListenStanding(b, r.bus, retry - 1);
    }
  }

  lemma OversizedStanding(a: Bus)
    requires a.active.Some?
    ensures var r := ListenOnce(a);
            r.Ok? && r.value == Some(MonitorBus) ==> Standing(r.bus, MonitorBus)
  {
    hide Read, Take, AnswerResponse, Count;
    var r1 := Read(a);
    if r1.Ok? {
      var taken := Take(r1.bus.device.input, Count(r1.value) + 1);
      var b2 := Hear(r1.bus, taken);
      AnswerResponseNext(b2, Buffer([r1.value] + taken.got, true));
    }
  }

  lemma AnswerResponseNext(b: Bus, s: Buffer)
    requires b.active.Some?
    ensures var r := AnswerResponse(b, s); r.Ok? ==> r.value == Some(FreeBus) || r.value.None?
  {
    hide CreateSlave, WriteRead;
  }

  lemma FreeStanding(b: Bus)
    ensures Free(b).Ok? ==> Standing(Free(b).bus, Free(b).value)
  {
    hide WriteRead;
  }

  lemma OpenStanding(b: Bus)
    ensures Open(b).Ok? ==> Standing(Open(b).bus, Open(b).value)
  {
    hide Flush;
    var d := b.device;
    var b1 := if d.openings == [] then b else b.(device := d.(openings := d.openings[1..]));
    FlushStanding(b);
    FlushStanding(b1.(device := b1.device.(open := true)));
  }

  lemma FlushStanding(b: Bus)
    ensures Flush(b).Ok? ==> Standing(Flush(b).bus, Flush(b).value)
    decreases |b.device.input|
  {
    var r := Read(b);
    if r.Ok? && r.value != SYN {
      FlushStanding(r.bus);
    }
  }

  lemma ExecuteStanding(b: Bus, s: State)
    requires Good(b, s) && Standing(b, s)
    ensures Execute(b, s).Ok? ==> Standing(Execute(b, s).bus, Execute(b, s).value)
  {
    hide Sound, Monitor, Receive, Process, Respond, Lock, SendTry, ListenTry, Free, Open, Standing, Sendable;
    GoodReady(b, s);
    match s
    case IdleSystem => ResetStanding(b.(device := b.device.(open := false)), Idle(b), OpenDevice);
    case OpenDevice => OpenStanding(b);
    case MonitorBus => MonitorStanding(b);
    case ReceiveMessage => ReceiveStanding(b);
    case ProcessMessage => ProcessStanding(b);
    case SendResponse => RespondStanding(b);
    case LockBus => LockStanding(b);
    case SendMessage =>
      StandingTried(b, s);
      SendStanding(b, b, 1);
    case ReceiveResponse =>
      StandingTried(b, s);
      ListenStanding(b, b, 1);
    case FreeBus => FreeStanding(b);
  }

  lemma StandingTried(b: Bus, s: State)
    requires Standing(b, s) && Transferring(s)
    ensures b.log.tried
  {
  }

  lemma GuardedStanding(b: Bus, s: State)
    requires Good(b, s) && Standing(b, s)
    ensures Guarded(b, s).Ok? ==> Standing(Guarded(b, s).bus, Guarded(b, s).value)
  {
    hide Good, Execute, Standing, Reset;
    ExecuteStanding(b, s);
    var r := Execute(b, s);
    if r.Raise? && r.signal != Crash {
      var (c, next) := HandleDeviceError(r.bus, r.signal == Error);
      ResetStanding(Mark(r.bus, EBUS_ERR_DEVICE), c, next);
    }
  }

  // ---------- Every run ----------

  ghost predicate Placed(s: Sys) {
    && Tracked(s)
    && (s.pc.Exec? || s.pc.Check? ==> Standing(s.bus, s.pc.state))
    && (s.pc.Check? ==> s.pc.state != IdleSystem)
    && (s.pc == Asleep ==> Standing(s.bus, OpenDevice))
  }

  lemma ActPlaced(s: Sys, a: Action)
    requires Placed(s)
    ensures Placed(Act(s, a))
  {
    hide Tracked, Good, Guarded, Standing, Submission;
    ActTracked(s, a);
    if s.pc.Exec? || s.pc.Check? {
      assert Good(s.bus, s.pc.state) by {
        TrackedGood(s);
      }
    }
    if a == Thread {
      match s.pc
      case Exec(state) =>
        GuardedStanding(s.bus, state);
        GuardedNext(s.bus, state);
        GuardedIdle(s.bus);
      case Check(state) => StandingIdle(s.bus, state);
      case Asleep =>
      case Crashed =>
    } else if s.pc != Crashed {
      StandingSame(s.bus, Act(s, a).bus, if s.pc == Asleep then OpenDevice else s.pc.state);
    }
  }

  lemma TrackedGood(s: Sys)
    requires Tracked(s) && (s.pc.Exec? || s.pc.Check?)
    ensures Good(s.bus, s.pc.state)
  {
    hide Good, Traced;
  }

  lemma GuardedNext(b: Bus, s: State)
    requires Good(b, s)
    ensures Guarded(b, s).Ok? ==> Guarded(b, s).value != IdleSystem
  {
    hide Good, Execute, HandedBack, SameMessage, Reset;
    ExecuteEffect(b, s);
  }

  lemma StandingIdle(b: Bus, s: State)
    requires Standing(b, s)
    ensures Standing(b, IdleSystem)
  {
    hide Outbid;
  }

  lemma StandingSame(a: Bus, b: Bus, s: State)
    requires Standing(a, s) && a.active == b.active && a.log == b.log
    ensures Standing(b, s)
  {
  }

  lemma {:induction false} RunPlaced(s: Sys, actions: seq<Action>)
    requires Placed(s)
    ensures Placed(After(s, actions))
    decreases |actions|
  {
    hide Placed, Act;
    if actions != [] {
      ActPlaced(s, actions[0]);
      RunPlaced(Act(s, actions[0]), actions[1..]);
    }
  }

  lemma ReachedPlaced(s: Sys)
    requires Reached(s)
    ensures Placed(s)
  {
    hide Tracked, After;
    var address, lockMax, openMax, device, reactions, actions :|
      s == After(Start(address, lockMax, openMax, device, reactions), actions);
    var s0 := Start(address, lockMax, openMax, device, reactions);
    StartTracked(address, lockMax, openMax, device, reactions);
    RunPlaced(s0, actions);
  }

  lemma SendableSize(t: Tel)
    requires Sendable(t)
    ensures |Frame(t)| > 2
  {
    hide KindOf, FrameCrc, IsMaster;
    var m := t.master.Logical();
    if t.master == Stored(m) {
      ExtendShape(m);
    }
  }

  ghost predicate Transferred(b: Bus, x: Exchange) {
    && b.active.Some?
    && var t := b.active.value.tel;
       Transcript(b.log, Frame(t), x, []) && Sent(x, t) && Replied(x, t) && Succeeded(x, t)
  }

  lemma TransferredSize(b: Bus, x: Exchange)
    requires Transferred(b, x) && |Frame(b.active.value.tel)| > 2
    ensures var size, w := |Frame(b.active.value.tel)|, b.log.written[b.log.lockWritten..];
            |w| >= size && (b.active.value.tel.kind == MS ==> |w| != size && |w| != 2 * size)
  {
    hide Echoed, Copies, Transcript, Correct, Answered, Confirmed;
    var f := Frame(b.active.value.tel);
    TranscriptParts(b.log, f, x);
    CopiesSize(f, |x.attempts|);
    if |x.attempts| == 1 {
      assert |Copies(f, |x.attempts|)| == |f|;
    } else {
      assert |Copies(f, |x.attempts|)| == 2 * |f|;
    }
  }

  lemma ClaimedSize(b: Bus)
    requires Claimed(b)
    ensures |b.log.written[b.log.lockWritten..]| == 1
  {
    hide Echoed;
  }

  lemma AwaitingSize(b: Bus)
    requires Awaiting(b)
    ensures var size, w := |Frame(b.active.value.tel)|, b.log.written[b.log.lockWritten..];
            b.active.value.tel.kind == MS && (|w| == size || |w| == 2 * size)
  {
    hide Echoed, Copies, Transcript, Confirmed;
    var t := b.active.value.tel;
    var f := Frame(t);
    var y :| Transcript(b.log, f, y, []) && Sent(y, t) && t.kind == MS && Confirmed(y) && y.replies == [];
    TranscriptParts(b.log, f, y);
    CopiesSize(f, |y.attempts|);
    if |y.attempts| == 1 {
      assert |Copies(f, |y.attempts|)| == |f|;
    } else {
      assert |Copies(f, |y.attempts|)| == 2 * |f|;
    }
  }

  lemma TransferredHead(b: Bus, x: Exchange)
    requires Transferred(b, x) && b.active.value.tel.master.bytes != []
    ensures b.log.lockHeard < |b.log.heard|
    ensures b.log.heard[b.log.lockHeard] == b.active.value.tel.master.bytes[0]
  {
    hide Replied, Succeeded, Echoed, Written, Heard, Sent;
    var t := b.active.value.tel;
    FirstHeard(x, t);
    var h := b.log.heard[b.log.lockHeard..];
    assert Heard(x) + [] == Heard(x);
    assert h == Heard(x) && h[0] == b.log.heard[b.log.lockHeard];
    assert Frame(t)[0] == t.master.bytes[0];
  }

  lemma FirstHeard(x: Exchange, t: Tel)
    requires Sent(x, t)
    ensures Heard(x) != [] && Heard(x)[0] == Frame(t)[0]
  {
    hide RepliesHeard;
    SentParts(x, t);
    assert x.attempts[0].Bytes()[0] == x.attempts[0].echo[0];
  }

  lemma NotYetSent(b: Bus, s: State)
    requires b.active.Some? && |Frame(b.active.value.tel)| > 2
    requires Traced(b, s) && Standing(b, s) && s != FreeBus && s != IdleSystem
    ensures !WasSent(b)
  {
    hide Transcript, Sent, Replied, Succeeded, Claimed, Awaiting;
    if s == SendMessage {
      ClaimedSize(b);
    } else if s == ReceiveResponse {
      AwaitingSize(b);
    }
    if WasSent(b) {
      var t := b.active.value.tel;
      var x :| Transcript(b.log, Frame(t), x, []) && Sent(x, t) && Replied(x, t) && Succeeded(x, t);
      SentFacts(b, x);
    }
  }

  lemma SentFacts(b: Bus, x: Exchange)
    requires Transferred(b, x) && |Frame(b.active.value.tel)| > 2 && b.active.value.tel.master.bytes != []
    ensures var size, w := |Frame(b.active.value.tel)|, b.log.written[b.log.lockWritten..];
            |w| >= size && (b.active.value.tel.kind == MS ==> |w| != size && |w| != 2 * size)
    ensures b.log.lockHeard < |b.log.heard|
    ensures b.log.heard[b.log.lockHeard] == b.active.value.tel.master.bytes[0]
  {
    hide Transferred;
    TransferredSize(b, x);
    TransferredHead(b, x);
  }

  lemma FinishedSent(b: Bus)
    requires Finished(b) && b.log.tried && |Frame(b.active.value.tel)| > 2
    ensures WasSent(b) <==> b.active.value.state == SEQ_OK
  {
    hide Transcript, Sent, Replied, Succeeded;
    var m := b.active.value;
    var x :| Transcript(b.log, Frame(m.tel), x, []) && Settled(m, x);
    if WasSent(b) {
      var y :| Transcript(b.log, Frame(m.tel), y, []) && Sent(y, m.tel) && Replied(y, m.tel) && Succeeded(y, m.tel);
      ExchangeUnique(b.log, m.tel, x, y);
    }
  }

  /** On every run: the active message was sent exactly when the bus is about to be freed and nothing went wrong. */
  lemma SentExactly(s: Sys, state: State)
    requires Reached(s) && (s.pc == Exec(state) || s.pc == Check(state)) && state != IdleSystem && s.bus.active.Some?
    ensures WasSent(s.bus) <==> state == FreeBus && s.bus.active.value.state == SEQ_OK
  {
    hide Reached, Traced, Standing, Finished, WasSent, Sendable, Fresh, Spaced;
    ReachedPlaced(s);
    TrackedGood(s);
    SendableSize(s.bus.active.value.tel);
    TracedNow(s);
    if state == FreeBus {
      FreeTraced(s.bus);
      FinishedSent(s.bus);
    } else {
      NotYetSent(s.bus, state);
    }
  }

  lemma TracedNow(s: Sys)
    requires Tracked(s) && (s.pc.Exec? || s.pc.Check?)
    ensures Traced(s.bus, s.pc.state)
  {
    hide Traced, Invariant;
  }

  lemma FreeTraced(b: Bus)
    requires Traced(b, FreeBus) && Standing(b, FreeBus)
    ensures Finished(b) && b.log.tried
  {
    hide Finished;
  }

  // ---------- What zero means ----------

  /** What the next two steps of the thread hand back, the test of the close flag and a state method. */
  function Turn(s: Sys): Sys {
    Step(Step(s))
  }

  /** Closing hands back the active message as it is, without writing anything, in every state. */
  lemma ClosingHandsBack(s: Sys, state: State)
    requires Reached(s) && s.pc == Check(state) && s.close && s.bus.active.Some?
    ensures var m, b := s.bus.active.value, Turn(s).bus;
            && b.log.completed == s.bus.log.completed + [m] && b.log.written == s.bus.log.written
            && state != IdleSystem && (state != FreeBus ==> m.state == SEQ_OK) && (state == FreeBus ==> Finished(s.bus))
  {
    hide Reached, Guarded, Traced, Ready, Standing, Finished, Invariant;
    StateInvariant(s, state);
    GuardedIdle(s.bus);
    ReachedPlaced(s);
    TracedNow(s);
    if state == FreeBus {
      FreeFinished(s.bus);
    }
  }

  lemma FreeFinished(b: Bus)
    requires Traced(b, FreeBus)
    ensures Finished(b)
  {
    hide Finished;
  }

  /** Without a close request zero is handed back by `sendResponse` and `freeBus`, unless the device fails there. */
  predicate HandsBackZero(s: Sys, state: State)
    requires s.bus.active.Some?
  {
    && s.bus.active.value.state == SEQ_OK
    && (s.close || ((state == SendResponse || state == FreeBus) && Execute(s.bus, state).Ok?))
  }

  /**
   On every run: when a message is handed back with zero, exactly; and whether it was sent, exactly. Zero is true if
   and only if it comes from `freeBus`, or from a close request that replaced `freeBus`.
   */
  lemma ZeroExactly(s: Sys, state: State)
    requires Reached(s) && s.pc == Check(state) && s.bus.active.Some?
    ensures var m, c, c' := s.bus.active.value, s.bus.log.completed, Turn(s).bus.log.completed;
            && (HandsBackZero(s, state) <==> c' == c + [m] && m.state == SEQ_OK)
            && (c' != c && !HandsBackZero(s, state) ==> |c'| == |c| + 1 && c'[|c|].state != SEQ_OK)
    ensures WasSent(s.bus) <==> state == FreeBus && s.bus.active.value.state == SEQ_OK
  {
    hide Reached, Guarded, WasSent, Invariant, Execute, Placed;
    ReachedPlaced(s);
    PlacedState(s);
    SentExactly(s, state);
    if s.close {
      ClosingHandsBack(s, state);
    } else {
      var s1 := s.(pc := Exec(state));
      assert Step(s) == s1;
      ReachedStep(s);
      ReachedInvariant(s1);
      HandedBackBy(s1, state);
      if state == FreeBus {
        FreeHands(s1.bus);
        FreeReady(s1.bus);
      } else if state == SendResponse && Execute(s1.bus, state).Ok? {
        WaitingMessageReportedSent(s1);
      } else {
        OthersHandBack(s, s1, state);
      }
    }
  }

  lemma FreeReady(b: Bus)
    ensures Execute(b, FreeBus) == Free(b)
  {
    hide Free;
  }

  lemma PlacedState(s: Sys)
    requires Placed(s) && s.pc.Check?
    ensures s.pc.state != IdleSystem
  {
    hide Tracked, Standing;
  }

  lemma OthersHandBack(s: Sys, s1: Sys, state: State)
    requires s1 == s.(pc := Exec(state)) && s.bus.active.Some? && state != FreeBus && state != IdleSystem
    requires Execute(s.bus, state).Raise? || state != SendResponse
    requires Step(s1).pc.Crashed? ==> Step(s1).bus.log.completed == s.bus.log.completed
    requires !Step(s1).pc.Crashed? ==>
               HandedBack(s.bus, Step(s1).bus,
                 if Execute(s.bus, state).Raise? then {EBUS_ERR_DEVICE} else ResultsOf(s.bus.active.value, state))
    ensures var c, c' := s.bus.log.completed, Step(s1).bus.log.completed;
            c' != c ==> |c'| == |c| + 1 && c'[|c|].state != SEQ_OK
  {
    hide Execute, Guarded;
  }

  /** A step from a state that is reached reaches the next one. */
  lemma ReachedStep(s: Sys)
    requires Reached(s)
    ensures Reached(Step(s))
  {
    hide After, Start, Step;
    var address, lockMax, openMax, device, reactions, actions :|
      s == After(Start(address, lockMax, openMax, device, reactions), actions);
    AfterConcat(Start(address, lockMax, openMax, device, reactions), actions, [Thread]);
    assert After(s, [Thread]) == Step(s) by {
      AfterOne(s, Thread);
    }
  }
}

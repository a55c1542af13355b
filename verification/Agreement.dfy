/**
 The sender and a third participant agree. When a transfer between two others succeeded, everything sent came back, and
 what is sent is the wire form of the frame, then a listener decodes from the bus the telegram that the sender
 published. A broadcast is no such transfer: every participant receives it, see `Receiving`.
 */
module Agreement {
  import opened Wrappers
  import opened Bytes
  import opened Escape
  import opened Sequences
  import opened TelegramValues
  import opened Language
  import opened Roundtrip
  import opened BusModel
  import opened Machine
  import opened Runs
  import opened Framing
  import opened Transfers
  import Results
  import Monitoring

  /**
   The frame is stored the way it has to travel. Frames are sent as they are stored, without expanding them, so this
   fails for a frame without a checksum byte that contains SYN or EXP, and for a checksum that is SYN or EXP.
   */
  predicate WireExact(t: Tel) {
    Frame(t) == Extend(t.master.Logical() + [t.masterCRC])
  }

  /** In particular when neither the stored frame nor its checksum contains SYN or EXP. */
  lemma PlainIsExact(t: Tel)
    requires Sendable(t) && NoEscaped(Frame(t))
    ensures WireExact(t)
  {
    hide IsMaster, FrameCrc, KindOf, Reduce;
    var m := t.master.bytes;
    assert NoEscaped(m) && !Escaped(t.masterCRC) by {
      assert Frame(t)[|m|] == t.masterCRC;
      forall i | 0 <= i < |m|
        ensures !Escaped(m[i])
      {
        assert Frame(t)[i] == m[i];
      }
    }
    ExtendFixedPoint(m);
    ExtendReduceWellFormed(m);
    ExtendFixedPoint(Frame(t));
    ReduceExtend(m);
  }

  /**
   In terms of what is handed to `transmit`: the checksum is neither SYN nor EXP, and a frame that comes without its
   checksum contains neither. A frame that brings its checksum along is stored in wire form.
   */
  lemma WireExactExactly(address: Byte, vec: seq<Byte>)
    requires CreateMaster(CLEARED, [address] + vec).masterState == SEQ_OK
    ensures var t, s := CreateMaster(CLEARED, [address] + vec), [address] + vec;
            |s| >= 5 && (WireExact(t) <==> !Escaped(t.masterCRC) && (|s| == 5 + Count(s[4]) ==> NoEscaped(s)))
  {
    hide FrameCrc, IsMaster, KindOf, Reduce, Extend, CreateMaster, MasterShape, CrcOf, NoEscaped, Count;
    var t, s := CreateMaster(CLEARED, [address] + vec), [address] + vec;
    CreatedShape(CLEARED, s);
    ShapedMaster(s);
    var c := t.masterCRC;
    if |s| == 5 + Count(s[4]) {
      CreatedBare(CLEARED, s);
      ExtendFixedPoint(s + [c]);
      NoEscapedSnoc(s, c);
    } else {
      CreatedSealed(CLEARED, s);
      var m := s[..5 + Count(s[4])];
      RepresentationKeepsFrame(Buffer(m, false));
      ExtendSnoc(m, c);
      LastByteDiffers(Extend(m), Extend(m), c);
    }
  }

  lemma NoEscapedSnoc(s: seq<Byte>, c: Byte)
    ensures NoEscaped(s + [c]) <==> NoEscaped(s) && !Escaped(c)
  {
    if NoEscaped(s + [c]) {
      assert (s + [c])[|s|] == c;
      forall i | 0 <= i < |s|
        ensures !Escaped(s[i])
      {
        assert (s + [c])[i] == s[i];
      }
    }
  }

  /** A listener has the sender's telegram: the same frames, and the answer that a master-master message got. */
  predicate Agrees(p: Tel, t: Tel) {
    && p.IsValid() && p.kind == t.kind && p.master.Logical() == t.master.Logical()
    && (t.kind == MS ==> p.slave.Logical() == t.slave.Logical())
    && (t.kind == MM ==> p.slaveState != SEQ_ERR_ACK_MISS)
  }

  // ---------- What was on the bus ----------

  /** Everything heard since the bus was claimed. */
  function Trace(l: Log): seq<Byte> {
    if l.lockHeard <= |l.heard| then l.heard[l.lockHeard..] else []
  }

  function LastAnswer(x: Exchange): seq<Byte>
    requires x.attempts != []
  {
    var a := x.attempts[|x.attempts| - 1]; if a.answer.Some? then [a.answer.value] else []
  }

  lemma AttemptsSpelled(x: Exchange, t: Tel)
    requires Sent(x, t) && Echoed(x, Frame(t))
    ensures AttemptsHeard(x.attempts) == (if |x.attempts| == 2 then Frame(t) + [NAK] else []) + Frame(t) + LastAnswer(x)
  {
    var a, f := x.attempts, Frame(t);
    assert a[0].echo == f;
    var last := a[|a| - 1];
    assert last.echo == f;
    assert last.Bytes() == f + LastAnswer(x);
    if |a| == 2 {
      assert a[..1][..0] == [] && a[..1][0] == a[0];
      assert AttemptsHeard(a[..1]) == [] + a[0].Bytes();
      assert a[0].answer == Some(NAK);
      assert AttemptsHeard(a) == AttemptsHeard(a[..1]) + last.Bytes();
    } else {
      assert a[..0] == [];
      assert AttemptsHeard(a) == [] + last.Bytes();
    }
  }

  /** Copies of a frame in wire form, decoded. */
  lemma CopiesDecoded(m: seq<Byte>, twice: bool, rest: seq<Byte>)
    ensures var w := Extend(Sealed(m));
            Reduce((if twice then w + [NAK] else []) + w + rest)
            == RefusedBytes(if twice then Some(m) else None) + Sealed(m) + Reduce(rest)
  {
    hide FrameCrc, Reduce, Extend;
    var w := Extend(Sealed(m));
    ReduceExtendPrefix(Sealed(m), rest);
    if twice {
      assert w + [NAK] + w + rest == w + ([NAK] + (w + rest));
      ReduceExtendPrefix(Sealed(m), [NAK] + (w + rest));
      ReducePlain([NAK], w + rest);
      assert Sealed(m) + ([NAK] + (Sealed(m) + Reduce(rest))) == Sealed(m) + [NAK] + Sealed(m) + Reduce(rest);
    } else {
      assert [] + w + rest == w + rest;
      assert [] + Sealed(m) + Reduce(rest) == Sealed(m) + Reduce(rest);
    }
  }

  /** A response without SYN ends outside an escape, and decodes to as many bytes as it announces. */
  lemma FramedDecoded(bytes: seq<Byte>, rest: seq<Byte>)
    requires Framed(bytes) && NoSyn(bytes)
    ensures Reduce(bytes + rest) == Reduce(bytes) + Reduce(rest)
    ensures |Reduce(bytes)| == Count(bytes[0]) + 2 && Reduce(bytes)[0] == bytes[0]
  {
    hide Units;
    var got, n := bytes[1..], Count(bytes[0]) + 1;
    CompleteWithoutSyn(got, n);
    assert bytes == [bytes[0]] + got;
    SmallCountPlain(bytes[0]);
    ReducePlain([bytes[0]], got);
    UnitsCons(ZERO, []);
    assert got != [];
    assert got[|got| - 1] != EXP by {
      var p := got[..|got| - 1];
      assert got == p + [got[|got| - 1]];
      UnitsSnoc(p, EXP);
    }
    assert bytes[|bytes| - 1] == got[|got| - 1];
    ReduceConcat(bytes, rest, false);
  }

  lemma UnitsSnoc(s: seq<Byte>, x: Byte)
    ensures x == EXP ==> Units(s + [x]) == Units(s)
  {
    if x == EXP {
      ReduceConcat(s, [x], false);
      SynCountConcat(s, [x]);
      assert Reduce(s) + [] == Reduce(s);
    }
  }

  // ---------- Broadcast ----------

  /**
   Parsing the bytes of a broadcast gives its telegram exactly when it was stored in wire form. That is what `parse`
   does; a participant never applies it to a broadcast, which it receives instead.
   */
  lemma BroadcastParsed(t: Tel, x: Exchange)
    requires Sendable(t) && t.kind == BC && Sent(x, t) && Replied(x, t) && Echoed(x, Frame(t))
    ensures var p := Parse(Reduce(Heard(x)));
            Agrees(p, t) <==> WireExact(t)
    ensures WireExact(t) ==>
            var p := Parse(Reduce(Heard(x))); p.master.bytes == t.master.bytes && p.masterCRC == t.masterCRC
  {
    hide Parse, FrameCrc, IsMaster, KindOf, Reduce, Extend, AttemptsHeard, Echoed;
    var m := t.master.Logical();
    AttemptsSpelled(x, t);
    assert Heard(x) == Frame(t);
    if WireExact(t) {
      assert Frame(t) == Extend(Sealed(m));
      ReduceExtend(Sealed(m));
      SealedParsed(m);
      StoredExactly(t);
    } else {
      BroadcastMisparsed(t);
    }
  }

  lemma SealedParsed(m: seq<Byte>)
    requires MasterFrame(m) && KindOf(m[1]) == BC
    ensures var p := Parse(Sealed(m)); p == WithMaster(CLEARED, m) && p.master.Logical() == m
  {
    hide FrameCrc, IsMaster, KindOf, TakeMaster;
    assert Sealed(m) + [] == Sealed(m);
    TakeMasterFrame(CLEARED, m, []);
    RepresentationKeepsFrame(Buffer(m, false));
  }

  lemma StoredExactly(t: Tel)
    requires Sendable(t) && WireExact(t)
    ensures t.master.bytes == Stored(t.master.Logical()).bytes == Extend(t.master.Logical()) && !Escaped(t.masterCRC)
  {
    hide FrameCrc, IsMaster, KindOf, MasterFrame, Reduce, Extend;
    var m := t.master.Logical();
    ExtendConcat(m, [t.masterCRC]);
    ExtendShape([t.masterCRC]);
    OneCode(t.masterCRC);
    var c := Code(t.masterCRC);
    assert t.master.bytes + [t.masterCRC] == Extend(m) + c;
    LastByteDiffers(t.master.bytes, Extend(m), t.masterCRC);
    assert (t.master.bytes + [t.masterCRC])[..|t.master.bytes|] == t.master.bytes;
    assert (Extend(m) + c)[..|Extend(m)|] == Extend(m);
  }

  lemma LastByteDiffers(a: seq<Byte>, b: seq<Byte>, c: Byte)
    ensures Escaped(c) ==> a + [c] != b + Code(c)
  {
    if Escaped(c) {
      var l, r := a + [c], b + Code(c);
      assert l[|l| - 1] == c;
      assert r[|r| - 1] == Code(c)[1];
    }
  }

  lemma OneCode(b: Byte)
    ensures Extend([b]) == Code(b)
  {
    assert [b][1..] == [];
  }

  lemma BroadcastMisparsed(t: Tel)
    requires Sendable(t) && t.kind == BC && !WireExact(t)
    ensures var p := Parse(Reduce(Frame(t))); !(p.IsValid() && p.kind == BC && p.master.Logical() == t.master.Logical())
  {
    hide Parse, FrameCrc, IsMaster, KindOf, Extend;
    var m, s := t.master.Logical(), Reduce(Frame(t));
    var p := Parse(s);
    if p.IsValid() && p.kind == BC && p.master.Logical() == m {
      var m1, m', tail := MasterOnlySound(s);
      MasterOnlyComplete(m1, m', tail);
      RepresentationKeepsFrame(Buffer(m', false));
      assert |s| >= |m| + 1;
      TooShort(t);
      assert false;
    }
  }

  /** A frame that is not stored in wire form comes out short. */
  lemma TooShort(t: Tel)
    requires Sendable(t) && !WireExact(t)
    ensures |Reduce(Frame(t))| < |t.master.Logical()| + 1
  {
    hide FrameCrc, IsMaster, KindOf, MasterFrame, Extend;
    var m, c := t.master.Logical(), t.masterCRC;
    ReduceLength(Frame(t), false);
    if t.master == Buffer(m, false) {
      if Escapes(Frame(t)) == 0 {
        EscapesNone(Frame(t));
        ExtendFixedPoint(Frame(t));
      }
    } else {
      ReduceExtendPrefix(m, [c]);
      ReduceLength([c], false);
      ExtendConcat(m, [c]);
      OneCode(c);
      assert Frame(t) == Extend(m) + [c];
      assert Code(c) == [c] || Escaped(c);
      assert Escapes([c]) == 1;
    }
  }

  // ---------- Master-master ----------

  lemma MasterMasterAgreed(t: Tel, x: Exchange)
    requires Sendable(t) && t.kind == MM && WireExact(t) && Sent(x, t) && Replied(x, t)
    requires Echoed(x, Frame(t)) && Confirmed(x)
    ensures var p := Parse(Reduce(Heard(x)));
            Agrees(p, t) && p.master.bytes == t.master.bytes && p.masterCRC == t.masterCRC && p.slave.bytes == []
  {
    hide Parse, FrameCrc, IsMaster, KindOf, Reduce, Extend, AttemptsHeard, Echoed;
    var m := t.master.Logical();
    var twice := |x.attempts| == 2;
    AttemptsSpelled(x, t);
    assert Heard(x) == AttemptsHeard(x.attempts);
    assert Frame(t) == Extend(Sealed(m));
    CopiesDecoded(m, twice, [ACK]);
    ReducePlain([ACK], []);
    assert [ACK] + [] == [ACK] && Reduce([]) == [] && [ACK] + Reduce([]) == [ACK] by {
      NothingDecoded();
    }
    AckedParsed(if twice then Some(m) else None, m);
    RepresentationKeepsFrame(Buffer(m, false));
    StoredExactly(t);
  }

  lemma AckedParsed(m1: Option<seq<Byte>>, m: seq<Byte>)
    requires Refused(m1) && MasterFrame(m) && KindOf(m[1]) == MM
    ensures Parse(RefusedBytes(m1) + Sealed(m) + [ACK]) == MasterResult(m)
  {
    hide FrameCrc, IsMaster, KindOf, MasterStage, SlaveStage, Stored, RefusedBytes;
    MasterStageComplete(m1, m, []);
    assert RefusedBytes(m1) + Sealed(m) + [ACK] + [] == RefusedBytes(m1) + Sealed(m) + [ACK];
  }

  lemma UnansweredParsed(m: seq<Byte>)
    requires MasterFrame(m) && KindOf(m[1]) == MM
    ensures Parse(Sealed(m)).slaveState == SEQ_ERR_ACK_MISS
  {
    hide FrameCrc, IsMaster, KindOf, TakeMaster, Stored;
    assert Sealed(m) + [] == Sealed(m);
    TakeMasterFrame(CLEARED, m, []);
  }

  lemma MasterMasterMisheard(t: Tel, x: Exchange)
    requires Sendable(t) && t.kind == MM && !WireExact(t) && Sent(x, t) && Replied(x, t)
    requires Echoed(x, Frame(t)) && Confirmed(x) && |x.attempts| == 1
    ensures !Agrees(Parse(Reduce(Heard(x))), t)
  {
    hide Parse, FrameCrc, IsMaster, KindOf, Reduce, Extend, AttemptsHeard, Echoed, WireExact;
    AttemptsSpelled(x, t);
    assert [] + Frame(t) == Frame(t);
    assert Heard(x) == Frame(t) + [ACK];
    var m, s := t.master.Logical(), Reduce(Heard(x));
    LengthsAdd(Frame(t), [ACK]);
    TooShort(t);
    var p := Parse(s);
    if p.IsValid() && p.kind == MM && p.master.Logical() == m {
      var m1, m', tail := MasterOnlySound(s);
      MasterOnlyComplete(m1, m', tail);
      RepresentationKeepsFrame(Buffer(m', false));
      assert m1.None? && tail == [];
      assert s == Sealed(m) by {
        assert [] + Sealed(m) + [] == Sealed(m);
      }
      UnansweredParsed(m);
    }
  }

  lemma NothingDecoded()
    ensures Reduce([]) == []
  {
  }

  // ---------- Master-slave ----------

  /** The decoded master part, and what follows. */
  lemma MasterPartDecoded(t: Tel, x: Exchange)
    requires Sendable(t) && t.kind == MS && WireExact(t) && Sent(x, t) && Echoed(x, Frame(t)) && Confirmed(x)
    ensures var m := t.master.Logical();
            && MasterFrame(m) && KindOf(m[1]) == MS
            && Reduce(Heard(x)) == RefusedBytes(if |x.attempts| == 2 then Some(m) else None) + Sealed(m) + [ACK]
                                   + Reduce(RepliesHeard(x.replies))
  {
    hide FrameCrc, IsMaster, KindOf, Reduce, Extend, AttemptsHeard, Echoed, RepliesHeard;
    var m := t.master.Logical();
    var twice := |x.attempts| == 2;
    var rest := RepliesHeard(x.replies);
    AttemptsSpelled(x, t);
    var w := Frame(t);
    assert w == Extend(Sealed(m));
    var head := if twice then w + [NAK] else [];
    assert Heard(x) == head + w + [ACK] + rest;
    assert head + w + [ACK] + rest == head + w + ([ACK] + rest);
    CopiesDecoded(m, twice, [ACK] + rest);
    ReducePlain([ACK], rest);
    var r := RefusedBytes(if twice then Some(m) else None);
    assert r + Sealed(m) + ([ACK] + Reduce(rest)) == r + Sealed(m) + [ACK] + Reduce(rest);
  }

  /** A correct response without SYN is a sealed slave frame. */
  lemma CorrectFrame(bytes: seq<Byte>)
    requires Framed(bytes) && NoSyn(bytes) && Correct(bytes)
    ensures SlaveFrame(ResponseFrame(bytes)) && Reduce(bytes) == Sealed(ResponseFrame(bytes))
  {
    hide FrameCrc, Reduce, Shortest, SynCount;
    FramedSize(bytes);
  }

  predicate AllNoSyn(r: seq<Reply>) {
    forall i :: 0 <= i < |r| ==> NoSyn(r[i].bytes)
  }

  /** The trace of a transfer with one response is the wire image of a transfer in the sense of the language. */
  lemma FirstTryDecoded(t: Tel, x: Exchange) returns (tr: Transfer)
    requires Sendable(t) && t.kind == MS && WireExact(t) && Sent(x, t) && Replied(x, t) && Echoed(x, Frame(t))
    requires Confirmed(x) && |x.replies| == 1 && Correct(x.replies[0].bytes) && NoSyn(x.replies[0].bytes)
    ensures tr.Valid() && tr.Bytes() == Reduce(Heard(x))
    ensures tr.m == t.master.Logical() && tr.f == ResponseFrame(x.replies[0].bytes)
  {
    hide FrameCrc, IsMaster, KindOf, Reduce, Extend, Framed, Correct, Sent, Echoed, Stored, Heard, Sendable, WireExact,
      ResponseFrame, RepliesHeard, Confirmed;
    var m, bytes := t.master.Logical(), x.replies[0].bytes;
    MasterPartDecoded(t, x);
    CorrectFrame(bytes);
    var f := ResponseFrame(bytes);
    FramedDecoded(bytes, [ACK]);
    OneReply(x.replies, Frame(t), x);
    assert Reduce([ACK]) == [ACK] by {
      ReducePlain([ACK], []);
      NothingDecoded();
      assert [ACK] + [] == [ACK];
    }
    var m1 := if |x.attempts| == 2 then Some(m) else None;
    tr := Transfer(m1, m, None, f, []);
    assert tr.SlaveBytes() == Sealed(f) + [ACK] by {
      assert [] + Sealed(f) + [ACK] + [] == Sealed(f) + [ACK];
    }
  }

  lemma FirstTryAgreed(t: Tel, x: Exchange)
    requires Sendable(t) && t.kind == MS && WireExact(t) && Sent(x, t) && Replied(x, t) && Echoed(x, Frame(t))
    requires Confirmed(x) && |x.replies| == 1 && Correct(x.replies[0].bytes) && NoSyn(x.replies[0].bytes)
    requires SlaveIs(t, x.replies[0].bytes)
    ensures var p := Parse(Reduce(Heard(x)));
            Agrees(p, t) && PublicationOf(p) == PublicationOf(t)
            && p.masterCRC == t.masterCRC && p.slaveCRC == t.slaveCRC
  {
    hide Parse, FrameCrc, IsMaster, KindOf, Reduce, Extend, Framed, Correct, Sent, Echoed, Stored, Heard, Replied,
      Confirmed, WireExact, ResponseFrame;
    var tr := FirstTryDecoded(t, x);
    ParseTransfer(tr);
    StoredExactly(t);
    RepresentationKeepsFrame(Buffer(tr.m, false));
  }

  lemma FirstTryMisheard(t: Tel, x: Exchange)
    requires Sendable(t) && t.kind == MS && !WireExact(t) && Sent(x, t) && Replied(x, t) && Echoed(x, Frame(t))
    requires |x.attempts| == 1 && Confirmed(x) && |x.replies| == 1
    requires Correct(x.replies[0].bytes) && NoSyn(x.replies[0].bytes) && SlaveIs(t, x.replies[0].bytes)
    ensures !Agrees(Parse(Reduce(Heard(x))), t)
  {
    hide Parse, FrameCrc, IsMaster, KindOf, Reduce, Extend, AttemptsHeard, Echoed, WireExact, Framed, Correct,
      ResponseFrame, RepliesHeard, SlaveFrame;
    var bytes := x.replies[0].bytes;
    var m, f, s := t.master.Logical(), ResponseFrame(bytes), Reduce(Heard(x));
    AttemptsSpelled(x, t);
    OneReply(x.replies, Frame(t), x);
    assert [] + Frame(t) == Frame(t);
    assert Heard(x) == Frame(t) + [ACK] + (bytes + [ACK]);
    LengthsAdd(Frame(t) + [ACK], bytes + [ACK]);
    LengthsAdd(Frame(t), [ACK]);
    LengthsAdd(bytes, [ACK]);
    CorrectFrame(bytes);
    TooShort(t);
    assert |s| < |m| + |f| + 4;
    RepresentationKeepsFrame(Buffer(f, false));
    if Agrees(Parse(s), t) {
      var tr := ParsedTransfer(s);
      TransferFrames(tr);
    }
  }

  lemma TransferFrames(tr: Transfer)
    requires tr.Valid()
    ensures Parse(tr.Bytes()).master.Logical() == tr.m && Parse(tr.Bytes()).slave.Logical() == tr.f
    ensures |tr.Bytes()| >= |tr.m| + |tr.f| + 4
  {
    hide Parse, FrameCrc, IsMaster, KindOf;
    ParseTransfer(tr);
    RepresentationKeepsFrame(Buffer(tr.m, false));
    RepresentationKeepsFrame(Buffer(tr.f, false));
  }

  lemma OneReply(r: seq<Reply>, frame: seq<Byte>, x: Exchange)
    requires |r| == 1 && x.replies == r && Echoed(x, frame)
    ensures RepliesHeard(r) == r[0].bytes + [r[0].ack]
  {
    assert r[..0] == [];
    assert RepliesHeard(r) == [] + r[0].bytes + [r[0].echo];
  }

  lemma SecondTryMisheard(t: Tel, x: Exchange)
    requires Sendable(t) && t.kind == MS && WireExact(t) && Sent(x, t) && Replied(x, t) && Echoed(x, Frame(t))
    requires Confirmed(x) && AllNoSyn(x.replies) && |x.replies| == 2
    ensures !Parse(Reduce(Heard(x))).IsValid()
  {
    hide FrameCrc, IsMaster, KindOf, Reduce, Extend, Framed, Correct, Sent, Echoed, Stored,
      MasterStage, TakeSlave, RepliesHeard;
    var m, bytes := t.master.Logical(), x.replies[0].bytes;
    MasterPartDecoded(t, x);
    var rest := FirstReply(x.replies);
    FramedDecoded(bytes, rest);
    var m1 := if |x.attempts| == 2 then Some(m) else None;
    var tail := Reduce(RepliesHeard(x.replies));
    MasterStageComplete(m1, m, tail);
    WrongResponse(MasterResult(m), bytes, Reduce(rest));
    var p := Parse(Reduce(Heard(x)));
    assert p == SlaveStage(MasterResult(m), tail);
    assert p == TakeSlave(MasterResult(m), tail);
    TakeSlaveStates(MasterResult(m), tail);
  }

  lemma FirstReply(r: seq<Reply>) returns (rest: seq<Byte>)
    requires |r| == 2
    ensures RepliesHeard(r) == r[0].bytes + rest
  {
    rest := [r[0].echo] + r[1].bytes + [r[1].echo];
    assert r[..1][..0] == [] && r[..1][0] == r[0];
    assert RepliesHeard(r[..1]) == [] + r[0].bytes + [r[0].echo];
    assert RepliesHeard(r) == RepliesHeard(r[..1]) + r[1].bytes + [r[1].echo];
  }

  /** A refused response spoils the telegram for a listener, whatever follows it. */
  lemma WrongResponse(t: Tel, bytes: seq<Byte>, rest: seq<Byte>)
    requires Framed(bytes) && NoSyn(bytes) && !Correct(bytes)
    ensures TakeSlave(t, Reduce(bytes) + rest).slaveState != SEQ_OK
  {
    hide CrcOf, Reduce, Framed, Correct, CreateSlave, SynCount;
    var r := Reduce(bytes);
    FramedSize(bytes);
    CorrectExactly(t.(slaveState := SEQ_OK), bytes);
    var s := r + rest;
    assert s[0] == r[0] && s[..1 + Count(s[0]) + 1] == r;
  }

  // ---------- Every run ----------

  /** The transfer about to be freed succeeded, and everything sent came back. */
  ghost predicate CleanSuccess(s: Sys, x: Exchange) {
    && Reached(s) && s.pc == Exec(FreeBus) && s.bus.active.Some? && s.bus.log.echoed
    && var m := s.bus.active.value;
       Transcript(s.bus.log, Frame(m.tel), x, []) && Settled(m, x) && Succeeded(x, m.tel)
  }

  /** Every transfer that is about to be freed with result zero, and whose bytes all came back, is one. */
  lemma ZeroIsSuccess(s: Sys) returns (x: Exchange)
    requires Reached(s) && s.pc == Exec(FreeBus) && s.bus.log.echoed
    requires s.bus.active.Some? && s.bus.active.value.state == SEQ_OK
    ensures CleanSuccess(s, x)
  {
    hide Reached, Transcript, Sent, Replied, Succeeded;
    x := Results.TransferResult(s);
  }

  lemma SuccessFacts(s: Sys, x: Exchange)
    requires CleanSuccess(s, x)
    ensures var t := s.bus.active.value.tel;
            && Sendable(t) && t.kind != Undefined && Sent(x, t) && Replied(x, t) && Echoed(x, Frame(t))
            && Trace(s.bus.log) == Heard(x)
            && (t.kind == MS ==>
                 && Confirmed(x) && 1 <= |x.replies| <= 2
                 && Correct(x.replies[|x.replies| - 1].bytes) && SlaveIs(t, x.replies[|x.replies| - 1].bytes))
            && (t.kind != MS ==> x.replies == [])
            && (t.kind == MM ==> Confirmed(x))
  {
    hide Reached, Sendable, Good, Sent, Echoed, Answered, Heard, Correct;
    ReachedInvariant(s);
    assert Sendable(s.bus.active.value.tel) by {
      GoodSendable(s.bus, FreeBus);
    }
    Results.SendableKind(s.bus.active.value.tel);
    assert Heard(x) + [] == Heard(x);
  }

  lemma GoodSendable(b: Bus, s: State)
    requires Good(b, s)
    ensures b.active.Some? ==> Sendable(b.active.value.tel)
  {
    hide Sendable;
  }

  /** The telegram as it is passed on: a master-master telegram has no response. */
  function PublicationToOne(t: Tel): Publication {
    Publication(t.master.bytes, if t.kind == MS then t.slave.bytes else [])
  }

  /**
   After a successful transfer to one participant, with responses that contain no SYN: of a frame that was stored in
   wire form a listener has the sender's telegram exactly when no response had to be repeated, and otherwise has
   nothing valid. When nothing had to be repeated at all, it has the telegram exactly when the frame was stored in wire
   form.
   */
  lemma SenderAndListenerAgree(s: Sys, x: Exchange)
    requires CleanSuccess(s, x) && AllNoSyn(x.replies) && s.bus.active.value.tel.kind != BC
    ensures var t, p := s.bus.active.value.tel, Parse(Reduce(Trace(s.bus.log)));
            && (WireExact(t) ==> (Agrees(p, t) <==> |x.replies| <= 1) && (p.IsValid() <==> |x.replies| <= 1))
            && (|x.attempts| == 1 && |x.replies| <= 1 ==> (Agrees(p, t) <==> WireExact(t)))
    ensures var t, p := s.bus.active.value.tel, Parse(Reduce(Trace(s.bus.log)));
            WireExact(t) && p.IsValid() ==>
              && p.master.bytes == t.master.bytes && p.masterCRC == t.masterCRC
              && PublicationOf(p) == PublicationToOne(t) && (t.kind == MS ==> p.slaveCRC == t.slaveCRC)
  {
    hide Reached, Transcript, Settled, Succeeded, Parse, Reduce, Sendable, WireExact, Sent, Echoed, Heard, Trace,
      SlaveIs, Answered, Correct, Confirmed;
    SuccessFacts(s, x);
    var t := s.bus.active.value.tel;
    if t.kind == MM {
      if WireExact(t) {
        MasterMasterAgreed(t, x);
      } else if |x.attempts| == 1 {
        MasterMasterMisheard(t, x);
      }
    } else if |x.replies| == 1 {
      if WireExact(t) {
        FirstTryAgreed(t, x);
      } else if |x.attempts| == 1 {
        FirstTryMisheard(t, x);
      }
    } else if WireExact(t) {
      SecondTryMisheard(t, x);
    }
  }

  /**
   A listening participant to which the telegram is foreign, and which hears the same bytes and the SYN that frees the
   bus, publishes exactly that telegram.
   */
  lemma ListenerPublishes(s: Sys, x: Exchange, listener: Bus)
    requires CleanSuccess(s, x) && WireExact(s.bus.active.value.tel) && AllNoSyn(x.replies)
    requires s.bus.active.value.tel.kind != BC && |x.replies| <= 1
    requires listener.sequence == EMPTY && Monitoring.Passive(listener)
    requires var w := Trace(s.bus.log) + [SYN];
             Monitoring.Upcoming(listener.device.input, w) && Monitoring.AllForeign(listener.address, w)
    ensures var r := Monitoring.MonitorRun(listener, |Trace(s.bus.log)| + 1);
            && r.Ok? && r.value == MonitorBus
            && r.bus.log.published == listener.log.published + [PublicationToOne(s.bus.active.value.tel)]
  {
    hide Reached, Transcript, Settled, Succeeded, Parse, Reduce, Sendable, WireExact, Sent, Echoed, Heard, Trace,
      SlaveIs, Answered, Correct, Confirmed,
      Monitoring.MonitorRun, Monitoring.Upcoming, Monitoring.AllForeign, Monitoring.Segments, Monitoring.Remnant, NoSyn;
    var w := Trace(s.bus.log);
    SenderAndListenerAgree(s, x);
    SuccessFacts(s, x);
    TraceNoSyn(s.bus.active.value.tel, x);
    Monitoring.CutAtSyn(w, []);
    assert w + ([SYN] + []) == w + [SYN];
    Monitoring.NothingCut();
    Monitoring.AllPublished(listener, w + [SYN]);
    assert w != [] by {
      TraceNonempty(w);
    }
    var p := Parse(Reduce(w));
    assert [w] + [] == [w] && [w][1..] == [];
    assert Monitoring.Publications([w]) == [PublicationOf(p)] + Monitoring.Publications([]);
  }

  lemma TraceNonempty(w: seq<Byte>)
    requires Parse(Reduce(w)).IsValid()
    ensures w != []
  {
    Monitoring.EmptyInvalid();
  }

  lemma NoSynConcat(a: seq<Byte>, b: seq<Byte>)
    requires NoSyn(a) && NoSyn(b)
    ensures NoSyn(a + b)
  {
  }

  lemma TraceNoSyn(t: Tel, x: Exchange)
    requires Sendable(t) && t.kind != BC && WireExact(t) && Sent(x, t) && Replied(x, t)
    requires Echoed(x, Frame(t)) && Confirmed(x)
    requires AllNoSyn(x.replies) && |x.replies| <= 1
    ensures NoSyn(Heard(x))
  {
    hide NoSyn, Sendable, Sent, Extend, Reduce, Framed, Correct, AttemptsHeard, RepliesHeard, Echoed;
    ExtendShape(t.master.Logical() + [t.masterCRC]);
    var f := Frame(t);
    AttemptsSpelled(x, t);
    AckNoSyn(NAK);
    AckNoSyn(ACK);
    NoSynConcat(f, [NAK]);
    assert NoSyn([]) by {
      NothingNoSyn();
    }
    var head := if |x.attempts| == 2 then f + [NAK] else [];
    NoSynConcat(head, f);
    NoSynConcat(head + f, [ACK]);
    RepliesNoSyn(x, f);
    NoSynConcat(head + f + [ACK], RepliesHeard(x.replies));
  }

  lemma RepliesNoSyn(x: Exchange, frame: seq<Byte>)
    requires AllNoSyn(x.replies) && |x.replies| <= 1 && Echoed(x, frame) && Answered(x.replies)
    ensures NoSyn(RepliesHeard(x.replies))
  {
    hide NoSyn, Framed, Correct;
    if x.replies == [] {
      assert NoSyn([]) by {
        NothingNoSyn();
      }
    } else {
      OneReply(x.replies, frame, x);
      var ack := x.replies[0].ack;
      AckNoSyn(ack);
      NoSynConcat(x.replies[0].bytes, [ack]);
    }
  }

  lemma AckNoSyn(b: Byte)
    ensures b == ACK || b == NAK ==> NoSyn([b])
  {
  }

  lemma NothingNoSyn()
    ensures NoSyn([])
  {
  }
}

/**
 Framing of received messages and responses: what the counted read loops consume, and how a received message is
 answered.
 */
module Framing {
  import opened Wrappers
  import opened Bytes
  import opened Escape
  import opened Sequences
  import opened TelegramValues
  import opened Language
  import opened Roundtrip
  import opened BusModel

  function Datas(s: seq<Byte>): (r: seq<Input>)
    ensures |r| == |s|
  {
    seq(|s|, i requires 0 <= i < |s| => Data(s[i]))
  }

  function SynCount(s: seq<Byte>): nat {
    if s == [] then 0 else (if s[0] == SYN then 1 else 0) + SynCount(s[1..])
  }

  /** What a read loop counts: the decoded bytes, and the SYN bytes, which decode to nothing. */
  function Units(s: seq<Byte>): nat {
    |Reduce(s)| + SynCount(s)
  }

  /** No proper prefix of `p` has as many units. */
  predicate Shortest(p: seq<Byte>, r: nat) {
    Units(p) == r && forall k :: 0 <= k < |p| ==> Units(p[..k]) < r
  }

  lemma UnitsCons(x: Byte, s: seq<Byte>)
    ensures Units([]) == 0
    ensures Units([x] + s) == (if x == EXP then 0 else 1) + Units(s)
  {
    var w := [x] + s;
    assert w[1..] == s;
    ReduceLength(w, false);
    ReduceLength(s, false);
  }

  lemma {:induction false} SynCountZero(s: seq<Byte>)
    ensures SynCount(s) == 0 <==> NoSyn(s)
  {
    if s != [] {
      SynCountZero(s[1..]);
      assert s == [s[0]] + s[1..];
    }
  }

  lemma {:induction false} SynCountConcat(a: seq<Byte>, b: seq<Byte>)
    ensures SynCount(a + b) == SynCount(a) + SynCount(b)
  {
    if a == [] {
      assert a + b == b;
    } else {
      assert (a + b)[1..] == a[1..] + b;
      SynCountConcat(a[1..], b);
    }
  }

  lemma {:induction false} EscapesConcat(a: seq<Byte>, b: seq<Byte>)
    ensures Escapes(a + b) == Escapes(a) + Escapes(b)
    ensures Escapes(b) <= |b|
  {
    ReduceLength(b, false);
    if a == [] {
      assert a + b == b;
    } else {
      assert (a + b)[1..] == a[1..] + b;
      EscapesConcat(a[1..], b);
    }
  }

  lemma LengthsAdd(a: seq<Byte>, b: seq<Byte>)
    ensures |Reduce(a + b)| == |Reduce(a)| + |Reduce(b)|
    ensures |Reduce([ACK])| == 1
  {
    ReduceLength(a + b, false);
    ReduceLength(a, false);
    ReduceLength(b, false);
    ReduceLength([ACK], false);
    EscapesConcat(a, b);
  }

  lemma UnitsConcat(a: seq<Byte>, b: seq<Byte>)
    ensures Units(a + b) == Units(a) + Units(b)
  {
    LengthsAdd(a, b);
    SynCountConcat(a, b);
  }

  lemma {:induction false} UnitsAtMost(s: seq<Byte>)
    ensures Units(s) <= |s|
  {
    hide Units;
    UnitsCons(SYN, []);
    if s != [] {
      UnitsAtMost(s[1..]);
      UnitsCons(s[0], s[1..]);
      assert s == [s[0]] + s[1..];
    }
  }

  lemma DatasCons(x: Byte, s: seq<Byte>, rest: seq<Input>)
    ensures Datas([x] + s) + rest == [Data(x)] + (Datas(s) + rest)
  {
  }

  lemma ShortestCons(x: Byte, q: seq<Byte>, r: nat)
    requires r > 0
    ensures Shortest([x] + q, r) <==> Shortest(q, if x == EXP then r else r - 1)
  {
    hide Units;
    var r' := if x == EXP then r else r - 1;
    var p := [x] + q;
    UnitsCons(x, q);
    forall k | 0 <= k < |q|
      ensures Units(p[..k + 1]) < r <==> Units(q[..k]) < r'
    {
      assert p[..k + 1] == [x] + q[..k];
      UnitsCons(x, q[..k]);
    }
    assert p[..0] == [];
    if Shortest(q, r') {
      forall k | 0 <= k < |p|
        ensures Units(p[..k]) < r
      {
        if k > 0 {
          assert Units(q[..k - 1]) < r';
        }
      }
    }
    if Shortest(p, r) {
      forall k | 0 <= k < |q|
        ensures Units(q[..k]) < r'
      {
        assert Units(p[..k + 1]) < r;
      }
    }
  }

  /** Without EXP every byte counts. */
  lemma {:induction false} EveryByteCounts(s: seq<Byte>)
    requires forall i :: 0 <= i < |s| ==> s[i] != EXP
    ensures Shortest(s, |s|)
  {
    hide Units, Shortest;
    if s == [] {
      NothingCounted();
    } else {
      assert s == [s[0]] + s[1..];
      EveryByteCounts(s[1..]);
      ShortestCons(s[0], s[1..], |s|);
    }
  }

  lemma NothingCounted()
    ensures Shortest([], 0)
  {
    UnitsCons(SYN, []);
  }

  lemma TakeCons(x: Byte, s: seq<Input>, r: nat)
    requires r > 0
    ensures var t := Take(s, if x == EXP then r else r - 1);
            Take([Data(x)] + s, r) == t.(got := [x] + t.got)
  {
    assert ([Data(x)] + s)[1..] == s;
  }

  /** A read loop that counts to `r` consumes the shortest prefix with `r` units, and nothing else. */
  lemma {:induction false} TakesShortest(p: seq<Byte>, rest: seq<Input>, r: nat)
    ensures Take(Datas(p) + rest, r) == Taken(p, rest, None) <==> Shortest(p, r)
  {
    if p == [] {
      assert Datas(p) + rest == rest;
      if Take(rest, r).signal.None? && r > 0 {
        assert Take(rest, r).got != [];
      }
    } else if r == 0 {
      UnitsCons(p[0], p[1..]);
      assert p[..0] == [];
    } else {
      hide Shortest, Take, Datas;
      var x, q := p[0], p[1..];
      assert p == [x] + q;
      var r' := if x == EXP then r else r - 1;
      DatasCons(x, q, rest);
      TakeCons(x, Datas(q) + rest, r);
      ShortestCons(x, q, r);
      TakesShortest(q, rest, r');
      var t := Take(Datas(q) + rest, r');
      assert [x] + t.got == p ==> t.got == q by {
        assert ([x] + t.got)[1..] == t.got;
      }
    }
  }

  /** What is consumed was there. */
  lemma {:induction false} TakeShape(input: seq<Input>, r: nat)
    requires Take(input, r).signal.None?
    ensures Datas(Take(input, r).got) + Take(input, r).rest == input
    decreases |input|
  {
    if r == 0 {
      assert Datas([]) + input == input;
    } else {
      hide Datas;
      assert input != [] && input[0].Data?;
      var x, s := input[0].byte, input[1..];
      assert input == [Data(x)] + s;
      hide *;
      TakeCons(x, s, r);
      var r' := if x == EXP then r else r - 1;
      TakeShape(s, r');
      DatasCons(x, Take(s, r').got, Take(s, r').rest);
    }
  }

  /** A frame in wire form is consumed to its last byte. */
  lemma {:induction false} FrameConsumed(d: seq<Byte>, rest: seq<Input>)
    ensures Take(Datas(Extend(d)) + rest, |d|) == Taken(Extend(d), rest, None)
  {
    if d == [] {
      assert Datas([]) + rest == rest;
    } else {
      hide Take, Datas;
      var c, w := Code(d[0]), Extend(d[1..]);
      assert Extend(d) == c + w;
      FrameConsumed(d[1..], rest);
      if |c| == 2 {
        assert c + w == [EXP] + ([c[1]] + w);
        DatasCons(EXP, [c[1]] + w, rest);
        TakeCons(EXP, Datas([c[1]] + w) + rest, |d|);
        DatasCons(c[1], w, rest);
        TakeCons(c[1], Datas(w) + rest, |d|);
      } else {
        DatasCons(c[0], w, rest);
        TakeCons(c[0], Datas(w) + rest, |d|);
      }
    }
  }

  /** As many bytes as were asked for arrive exactly when no SYN was among them. */
  lemma CompleteWithoutSyn(p: seq<Byte>, r: nat)
    requires Shortest(p, r)
    ensures |Reduce(p)| <= r
    ensures |Reduce(p)| == r <==> NoSyn(p)
  {
    SynCountZero(p);
  }

  // ---------- Receiving a message ----------

  /** Counting the data bytes and then the checksum is counting them together. */
  lemma {:induction false} TakeSplit(input: seq<Input>, n: nat)
    ensures var t1 := Take(input, n);
            var t2 := Take(t1.rest, 1);
            Take(input, n + 1) == if t1.signal.Some? then t1 else t2.(got := t1.got + t2.got)
    decreases |input|
  {
    if n == 0 {
      assert [] + Take(input, 1).got == Take(input, 1).got;
    } else if input != [] && input[0].Data? {
      var x, s := input[0].byte, input[1..];
      assert input == [Data(x)] + s;
      TakeSplit(s, if x == EXP then n else n - 1);
      var t1 := Take(s, if x == EXP then n else n - 1);
      var t2 := Take(t1.rest, 1);
      assert [x] + (t1.got + t2.got) == [x] + t1.got + t2.got;
    }
  }

  /** The state after the next bytes were read into the sequence. */
  function Received(b: Bus, s: seq<Byte>): Bus
    requires |s| <= |b.device.input|
  {
    b.(device := b.device.(input := b.device.input[|s|..]), log := b.log.(heard := b.log.heard + s),
       sequence := Push(b.sequence, s))
  }

  lemma ReceivedStep(b: Bus, x: Byte, rest: seq<Input>, k: nat)
    requires b.device.input == [Data(x)] + rest
    ensures var b1 := Received(b, [x]);
            b1.device.input == rest && ReceiveHeader(b, k + 1) == ReceiveHeader(b1, k)
  {
    hide ReceiveHeader;
    HeaderUnfolds(b, k);
    assert b.device.input[1..] == rest;
  }

  lemma HeaderUnfolds(b: Bus, k: nat)
    ensures var r := Read(b);
            ReceiveHeader(b, k + 1) ==
              if r.Raise? then Raise(r.bus, r.signal)
              else ReceiveHeader(r.bus.(sequence := Push(r.bus.sequence, [r.value])), k)
  {
    hide Read;
  }

  lemma ReceivedHeader(b: Bus, h: seq<Byte>, rest: seq<Input>)
    requires |h| == 3 && b.device.input == Datas(h) + rest
    ensures ReceiveHeader(b, 3) == Ok(Received(b, h), ())
  {
    hide ReceiveHeader;
    assert b.device.input == [Data(h[0])] + ([Data(h[1])] + ([Data(h[2])] + rest));
    ReceivedStep(b, h[0], [Data(h[1])] + ([Data(h[2])] + rest), 2);
    var b1 := Received(b, [h[0]]);
    ReceivedStep(b1, h[1], [Data(h[2])] + rest, 1);
    var b2 := Received(b1, [h[1]]);
    ReceivedStep(b2, h[2], rest, 0);
    var b3 := Received(b2, [h[2]]);
    assert ReceiveHeader(b3, 0) == Ok(b3, ()) by {
      HeaderEnds(b3);
    }
    assert [h[0]] + [h[1]] + [h[2]] == h;
    assert b.log.heard + [h[0]] + [h[1]] + [h[2]] == b.log.heard + h;
    assert b.sequence.bytes + [h[0]] + [h[1]] + [h[2]] == b.sequence.bytes + h;
    assert b3.device.input == b.device.input[3..];
    assert b3 == Received(b, h);
  }

  lemma HeaderEnds(b: Bus)
    ensures ReceiveHeader(b, 0) == Ok(b, ())
  {
  }

  lemma ReceiveBytesSplit(b: Bus, n: nat)
    requires b.sequence.extended
    ensures var r := ReceiveBytes(b, n);
            ReceiveBytes(b, n + 1) == if r.Raise? then r else ReceiveBytes(r.bus, 1)
  {
    hide Take;
    TakeSplit(b.device.input, n);
    var t1 := Take(b.device.input, n);
    var t2 := Take(t1.rest, 1);
    assert b.sequence.bytes + t1.got + t2.got == b.sequence.bytes + (t1.got + t2.got);
    assert b.log.heard + t1.got + t2.got == b.log.heard + (t1.got + t2.got);
    assert t1.got == [] ==> t1.got + t2.got == t2.got;
    assert t2.got == [] ==> t1.got + t2.got == t1.got;
  }

  /** The header, then `p` up to and including the checksum, then whatever comes next. */
  predicate Arriving(b: Bus, h: seq<Byte>, p: seq<Byte>, rest: seq<Input>) {
    && |h| == 5 && Count(h[4]) <= MAX_BYTES && Shortest(p, Count(h[4]) + 1)
    && b.sequence == Buffer(h[..2], true) && b.device.input == Datas(h[2..]) + (Datas(p) + rest)
  }

  /** The whole message is in the sequence, and nothing beyond it was read. */
  function Arrived(b: Bus, h: seq<Byte>, p: seq<Byte>, rest: seq<Input>): Bus
    requires Arriving(b, h, p, rest)
  {
    b.(device := b.device.(input := rest), log := b.log.(heard := b.log.heard + (h[2..] + p)),
       sequence := Buffer(h + p, true))
  }

  lemma ReceiveGathers(b: Bus, h: seq<Byte>, p: seq<Byte>, rest: seq<Input>)
    requires Arriving(b, h, p, rest)
    ensures Receive(b) == Answer(Arrived(b, h, p, rest))
  {
    hide ReceiveHeader, ReceiveBytes, Answer, Datas, Shortest, Reset;
    ReceivedHeader(b, h[2..], Datas(p) + rest);
    var b1 := Received(b, h[2..]);
    assert b1.sequence == Buffer(h, true) by {
      assert h[..2] + h[2..] == h;
    }
    var n := Count(h[4]);
    ReceiveBytesSplit(b1, n);
    assert b1.device.input == Datas(p) + rest by {
      assert |Datas(h[2..])| == 3;
    }
    TakesShortest(p, rest, n + 1);
    assert ReceiveBytes(b1, n + 1) == Ok(Arrived(b, h, p, rest), ()) by {
      GatheredBytes(b1, n + 1, p, rest);
      assert b.log.heard + h[2..] + p == b.log.heard + (h[2..] + p);
    }
  }

  lemma GatheredBytes(b: Bus, r: nat, p: seq<Byte>, rest: seq<Input>)
    requires Take(b.device.input, r) == Taken(p, rest, None) && b.sequence.extended
    ensures ReceiveBytes(b, r) ==
            Ok(b.(device := b.device.(input := rest), log := b.log.(heard := b.log.heard + p),
                  sequence := Buffer(b.sequence.bytes + p, true)), ())
  {
    hide Take;
    assert p == [] ==> b.sequence.bytes + p == b.sequence.bytes;
  }

  // ---------- Answering it ----------

  lemma ReducePlain(h: seq<Byte>, p: seq<Byte>)
    requires NoEscaped(h)
    ensures Reduce(h + p) == h + Reduce(p)
  {
    ExtendFixedPoint(h);
    ReduceExtendPrefix(h, p);
  }

  /**
   When a message is acknowledged: its sender is a master and its checksum is right. A SYN among the bytes makes the
   frame come out one byte short, which reads as a frame without a checksum byte, so that one is not compared at all.
   */
  predicate Acceptable(h: seq<Byte>, p: seq<Byte>)
    requires |h| == 5
  {
    && IsMaster(h[0])
    && var s := h + Reduce(p);
       if NoSyn(p) then |s| == 6 + Count(h[4]) && s[5 + Count(h[4])] == FrameCrc(s[..5 + Count(h[4])])
       else SynCount(p) == 1 && Count(h[4]) > 0
  }

  lemma AcceptableExactly(h: seq<Byte>, p: seq<Byte>)
    requires |h| == 5 && NoEscaped(h) && Count(h[4]) <= MAX_BYTES && Shortest(p, Count(h[4]) + 1)
    ensures CreateMaster(CLEARED, Reduce(h + p)).masterState == SEQ_OK <==> Acceptable(h, p)
    ensures |Reduce(h + p)| >= 2 && Reduce(h + p)[..2] == h[..2]
    ensures Acceptable(h, p) ==> CreateMaster(CLEARED, Reduce(h + p)).kind == KindOf(h[1])
  {
    hide Reduce, FrameCrc, CrcOf, IsMaster, KindOf, SynCount, NoSyn;
    ReducePlain(h, p);
    CompleteWithoutSyn(p, Count(h[4]) + 1);
    SynCountZero(p);
    var s := h + Reduce(p);
    assert s[0] == h[0] && s[1] == h[1] && s[4] == h[4];
    FrameCrcOf(s);
  }

  lemma FrameCrcOf(s: seq<Byte>)
    ensures forall k :: 0 <= k <= |s| ==> CrcOf(Buffer(s[..k], false)) == FrameCrc(s[..k])
  {
  }

  /** The acknowledge byte is due and the device takes it. */
  predicate Sends(b: Bus, zz: Byte) {
    zz != BROAD && (b.device.faults == [] || !b.device.faults[0])
  }

  /** An accepted message as the callbacks see it: the frame without its checksum, and no response. */
  function Passed(s: seq<Byte>): Publication {
    if |s| >= 6 && |s| == 6 + Count(s[4]) then Publication(Extend(s[..|s| - 1]), []) else Publication(s, [])
  }

  lemma PassedExactly(s: seq<Byte>)
    ensures var t := CreateMaster(CLEARED, s); t.masterState == SEQ_OK ==> PublicationOf(t) == Passed(s)
  {
    hide CreateMaster, FrameCrc, IsMaster, KindOf, Extend, MasterShape;
    if CreateMaster(CLEARED, s).masterState == SEQ_OK {
      CreatedShape(CLEARED, s);
      ShapedMaster(s);
      SlaveUntouched(s);
      if |s| == 5 + Count(s[4]) {
        CreatedBare(CLEARED, s);
      } else {
        CreatedSealed(CLEARED, s);
      }
    }
  }

  lemma SlaveUntouched(s: seq<Byte>)
    ensures CreateMaster(CLEARED, s).slave == EMPTY
  {
    hide CrcOf, IsMaster, KindOf;
  }

  /** What answering a message does, in terms of the verdict on what it decodes to. */
  predicate AnsweredAs(b: Bus, h: seq<Byte>, p: seq<Byte>, rest: seq<Input>, ok: bool, kind: Kind)
    requires |b.sequence.bytes| >= 2 && |h| == 5
  {
    var r := Receive(b);
    && r.bus.log.written == b.log.written + (if Sends(b, h[1]) then [if ok then ACK else NAK] else [])
    && (r.Ok? ==> r.value == if ok then ProcessMessage else MonitorBus)
    && r.bus.log.published == b.log.published
                              + (if r.Ok? && ok && kind != MS then [Passed(Reduce(h + p))] else [])
    && (r.Ok? && !ok ==> r.bus.sequence == EMPTY)
    && (r.Ok? && ok ==> r.bus.sequence.Logical() == Reduce(h + p))
    && (h[1] == BROAD ==> r.Ok? && r.bus.device.input == rest)
  }

  lemma AnsweredDecoded(b: Bus, h: seq<Byte>, p: seq<Byte>, rest: seq<Input>)
    requires Arriving(b, h, p, rest) && !Escaped(h[0]) && !Escaped(h[1])
    requires var s := Reduce(h + p); |s| >= 2 && s[0] == h[0] && s[1] == h[1]
    ensures var t := CreateMaster(CLEARED, Reduce(h + p)); AnsweredAs(b, h, p, rest, t.masterState == SEQ_OK, t.kind)
  {
    hide Reduce, Shortest, CreateMaster, MasterArgument, Receive, Datas;
    ReceiveGathers(b, h, p, rest);
    var s := Reduce(h + p);
    RebuiltMaster(s);
    MasterArgumentStart(s);
    AnswerEffect(Arrived(b, h, p, rest), h[1]);
  }

  /**
   A message for us is answered with exactly one byte, an acknowledgement or a refusal as it deserves; a broadcast is
   not answered. It is passed on exactly when it is acceptable, and published unless a response is due: the frame
   itself, once. Otherwise nothing of it is kept.
   */
  lemma AnsweredExactly(b: Bus, h: seq<Byte>, p: seq<Byte>, rest: seq<Input>)
    requires Arriving(b, h, p, rest) && NoEscaped(h)
    ensures AnsweredAs(b, h, p, rest, Acceptable(h, p), KindOf(h[1]))
  {
    hide Reduce, Shortest, Acceptable, KindOf, CreateMaster, Receive, Datas;
    AcceptableExactly(h, p);
    var s := Reduce(h + p);
    assert s[0] == h[0] && s[1] == h[1] by {
      assert s[..2][0] == h[..2][0] && s[..2][1] == h[..2][1];
    }
    AnsweredDecoded(b, h, p, rest);
  }

  lemma MasterArgumentStart(s: seq<Byte>)
    requires |s| >= 2 && !Escaped(s[0]) && !Escaped(s[1])
    ensures |MasterArgument(s).bytes| >= 2 && MasterArgument(s).bytes[1] == s[1]
  {
    hide IsMaster;
    assert Extend(s) == [s[0]] + ([s[1]] + Extend(s[1..][1..]));
  }

  lemma AnswerEffect(b: Bus, zz: Byte)
    requires var a := MasterArgument(b.sequence.Logical());
             |a.bytes| >= 2 && a.bytes[1] == zz && a.Logical() == b.sequence.Logical()
    ensures var r := Answer(b);
            var t := CreateMaster(CLEARED, b.sequence.Logical());
            var ok := t.masterState == SEQ_OK;
            && r.bus.log.written == b.log.written + (if Sends(b, zz) then [if ok then ACK else NAK] else [])
            && (r.Ok? ==> r.value == if ok then ProcessMessage else MonitorBus)
            && r.bus.log.published == b.log.published
                 + (if r.Ok? && ok && t.kind != MS then [Passed(b.sequence.Logical())] else [])
            && (r.Ok? && !ok ==> r.bus.sequence == EMPTY)
            && (r.Ok? && ok ==> r.bus.sequence.Logical() == b.sequence.Logical())
            && (zz == BROAD ==> r.Ok? && r.bus.device.input == b.device.input)
  {
    hide Reduce, CreateMaster, MasterArgument, Passed, PublicationOf, WriteRead;
    PassedExactly(b.sequence.Logical());
    assert b.log.published + [] == b.log.published && b.log.written + [] == b.log.written;
    var b1 := b.(sequence := MasterArgument(b.sequence.Logical()));
    AckWritten(b1, ACK);
    AckWritten(b1, NAK);
  }

  lemma AckWritten(b: Bus, ack: Byte)
    ensures WriteRead(b, ack).bus.log.written
            == b.log.written + if b.device.faults == [] || !b.device.faults[0] then [ack] else []
  {
  }

  /** The sequence is changed by the first `createMaster`, but the second one builds the same telegram from it. */
  lemma RebuiltMaster(s: seq<Byte>)
    ensures MasterArgument(s).Logical() == s
    ensures CreateMaster(CLEARED, MasterArgument(s).Logical()) == CreateMaster(CLEARED, s)
  {
    hide CreateMaster, IsMaster;
    ReduceExtend(s);
  }

  /** On a stream without SYN the answer to a frame in wire form is an acknowledgement exactly when it should be. */
  lemma CleanFrameAnswered(b: Bus, m: seq<Byte>, crc: Byte, rest: seq<Input>)
    requires |m| >= 5 && NoEscaped(m[..5]) && |m| == 5 + Count(m[4]) && Count(m[4]) <= MAX_BYTES
    requires b.sequence == Buffer(m[..2], true)
    requires b.device.input == Datas(m[2..5]) + (Datas(Extend(m[5..] + [crc])) + rest)
    requires Sends(b, m[1])
    ensures var ok := IsMaster(m[0]) && crc == FrameCrc(m);
            Receive(b).bus.log.written == b.log.written + [if ok then ACK else NAK]
  {
    hide Reduce, Shortest, NoEscaped, FrameCrc, IsMaster, Receive, Datas, Take, Sends;
    var h, d := m[..5], m[5..] + [crc];
    var p := Extend(d);
    FrameConsumed(d, rest);
    TakesShortest(p, rest, |d|);
    assert h[2..] == m[2..5] && h[..2] == m[..2];
    AnsweredExactly(b, h, p, rest);
    ReduceExtend(d);
    ExtendShape(d);
    var s := h + d;
    assert s[..|m|] == m && s[|m|] == crc;
  }

  /** A frame in wire form that needs no response is published as it is, and is passed on. */
  lemma CleanFramePublished(b: Bus, m: seq<Byte>, rest: seq<Input>)
    requires MasterFrame(m) && NoEscaped(m[..5]) && KindOf(m[1]) != MS && b.sequence == Buffer(m[..2], true)
    requires b.device.input == Datas(m[2..5]) + (Datas(Extend(m[5..] + [FrameCrc(m)])) + rest)
    requires Receive(b).Ok?
    ensures var r := Receive(b);
            && r.value == ProcessMessage && r.bus.sequence.Logical() == Sealed(m)
            && r.bus.log.published == b.log.published + [Publication(Extend(m), [])]
  {
    hide Reduce, Shortest, FrameCrc, IsMaster, Receive, Datas, Take, KindOf, Acceptable, Extend, NoEscaped;
    var h, d := m[..5], m[5..] + [FrameCrc(m)];
    var p := Extend(d);
    FrameConsumed(d, rest);
    TakesShortest(p, rest, |d|);
    assert h[2..] == m[2..5] && h[..2] == m[..2];
    AnsweredExactly(b, h, p, rest);
    ReducePlain(h, p);
    ReduceExtend(d);
    var s := Sealed(m);
    assert h + d == s && s[..|m|] == m && s[4] == m[4];
    CleanAcceptable(m, h, d);
  }

  lemma CleanAcceptable(m: seq<Byte>, h: seq<Byte>, d: seq<Byte>)
    requires MasterFrame(m) && |h| == 5 && h + d == Sealed(m)
    ensures Acceptable(h, Extend(d))
  {
    hide Reduce, FrameCrc, IsMaster, Extend, SynCount;
    ReduceExtend(d);
    ExtendShape(d);
    var s := Sealed(m);
    assert s[..|m|] == m && s[|m|] == FrameCrc(m) && s[0] == m[0] == h[0] && s[4] == m[4] == h[4];
  }

  /** A frame whose checksum byte arrives as SYN is acknowledged without any check. */
  lemma UncheckedWithSyn(b: Bus, rest: seq<Input>)
    requires b.address == 0x03 && b.sequence == Buffer([0x10, 0x03], true)
    requires b.device.input == Datas([0x05, 0x07, 0x01]) + (Datas([0x55, SYN]) + rest)
    requires Sends(b, 0x03)
    ensures Receive(b).bus.log.written == b.log.written + [ACK]
  {
    hide Receive, Datas, Sends;
    var h: seq<Byte>, p: seq<Byte> := [0x10, 0x03, 0x05, 0x07, 0x01], [0x55, SYN];
    assert IsMaster(h[0]);
    UnitsOfTwo(0x55);
    assert h[..2] == [0x10, 0x03] && h[2..] == [0x05, 0x07, 0x01];
    AnsweredExactly(b, h, p, rest);
  }

  lemma UnitsOfTwo(d: Byte)
    requires !Escaped(d)
    ensures Shortest([d, SYN], 2) && SynCount([d, SYN]) == 1 && !NoSyn([d, SYN])
  {
    var p: seq<Byte> := [d, SYN];
    UnitsCons(SYN, []);
    UnitsCons(d, [SYN]);
    assert [SYN] + [] == [SYN] && [d] + [SYN] == p;
    assert p[..0] == [] && p[..1] == [d] + [];
    UnitsCons(d, []);
    assert p[1..] == [SYN] && [SYN][1..] == [];
    assert p[1] == SYN;
  }

  // ---------- Escaped header bytes ----------

  /**
   Five raw bytes whose third and fourth hold an escape. The header is then complete one byte early, and what is read
   as the length byte is the fourth header byte or its second half.
   */
  predicate Shifted(h: seq<Byte>) {
    && |h| == 5 && !Escaped(h[0]) && !Escaped(h[1]) && Count(h[4]) <= MAX_BYTES
    && ((h[2] == EXP && !Escaped(h[3])) || (!Escaped(h[2]) && h[3] == EXP))
  }

  /** The first four header bytes that were meant. */
  function ShiftedStart(h: seq<Byte>): (r: seq<Byte>)
    requires |h| == 5
    ensures |r| == 4
  {
    if h[2] == EXP then [h[0], h[1], Decoded(h[3]), h[4]] else [h[0], h[1], h[2], Decoded(h[4])]
  }

  lemma SmallCountPlain(b: Byte)
    requires Count(b) <= MAX_BYTES
    ensures !Escaped(b)
  {
  }

  lemma ReducePair(b: Byte, rest: seq<Byte>)
    requires !Escaped(b)
    ensures Reduce([EXP, b] + rest) == [Decoded(b)] + Reduce(rest)
    ensures Reduce([b] + rest) == [b] + Reduce(rest)
  {
    var w := [EXP, b] + rest;
    assert w[1..] == [b] + rest && w[1..][1..] == rest;
    assert ReduceFrom(w, false) == ReduceFrom(w[1..], true);
    assert ([b] + rest)[1..] == rest;
  }

  lemma ShiftedDecoded(h: seq<Byte>, p: seq<Byte>)
    requires Shifted(h)
    ensures Reduce(h + p) == ShiftedStart(h) + Reduce(p)
  {
    hide Reduce;
    assert !Escaped(h[4]);
    var a, b := [h[0], h[1]], h[2..] + p;
    assert h + p == a + b;
    ReducePlain(a, b);
    if h[2] == EXP {
      assert b == [EXP, h[3]] + ([h[4]] + p);
      ReducePair(h[3], [h[4]] + p);
      ReducePair(h[4], p);
    } else {
      assert b == [h[2]] + ([EXP, h[4]] + p);
      ReducePair(h[2], [EXP, h[4]] + p);
      ReducePair(h[4], p);
    }
  }

  /**
   When a message with a shifted header is acknowledged: the byte taken for the length happens to be one more than the
   real length, so that everything falls into place; or it equals the real length, and the checksum is left out.
   */
  predicate ShiftedAcceptable(h: seq<Byte>, p: seq<Byte>)
    requires |h| == 5
  {
    var d, n := Reduce(p), Count(h[4]);
    && IsMaster(h[0]) && d != []
    && (|| (n == Count(d[0]) + 1 && |d| == n + 1 && d[n] == FrameCrc(ShiftedStart(h) + d[..n]))
        || (n == Count(d[0]) && n > 0))
  }

  /** A master frame is accepted by its shape, and by its checksum if it has one. */
  lemma CreateMasterExactly(s: seq<Byte>)
    requires |s| >= 6
    ensures var t, n := CreateMaster(CLEARED, s), 5 + Count(s[4]);
            && (t.masterState == SEQ_OK <==>
                 && IsMaster(s[0]) && IsAddressValid(s[1]) && n <= 5 + MAX_BYTES && n <= |s| <= n + 1
                 && (|s| == n + 1 ==> s[n] == FrameCrc(s[..n])))
            && (t.masterState == SEQ_OK ==> t.kind == KindOf(s[1]))
  {
    hide FrameCrc, CrcOf, IsMaster, KindOf, Count, Extend;
    FrameCrcOf(s);
  }

  lemma ShortRefused(s: seq<Byte>)
    requires |s| < 6
    ensures CreateMaster(CLEARED, s).masterState != SEQ_OK
  {
  }

  lemma ShiftedExactly(h: seq<Byte>, p: seq<Byte>)
    requires Shifted(h) && NoSyn(p) && Shortest(p, Count(h[4]) + 1)
    ensures CreateMaster(CLEARED, Reduce(h + p)).masterState == SEQ_OK <==> ShiftedAcceptable(h, p)
    ensures var s := Reduce(h + p); |s| >= 2 && s[0] == h[0] && s[1] == h[1]
    ensures ShiftedAcceptable(h, p) ==> CreateMaster(CLEARED, Reduce(h + p)).kind == KindOf(h[1])
  {
    hide Reduce, FrameCrc, CreateMaster, IsMaster, KindOf, Shortest, Count, Decoded, NoSyn;
    ShiftedDecoded(h, p);
    CompleteWithoutSyn(p, Count(h[4]) + 1);
    var d, n := Reduce(p), Count(h[4]);
    var s := ShiftedStart(h) + d;
    assert |d| == n + 1 && s[4] == d[0] && s[n + 4] == d[n];
    assert s[..n + 4] == ShiftedStart(h) + d[..n];
    if |s| < 6 {
      ShortRefused(s);
    } else {
      CreateMasterExactly(s);
    }
  }

  /** How a message with a shifted header is answered. */
  lemma ShiftedAnswered(b: Bus, h: seq<Byte>, p: seq<Byte>, rest: seq<Input>)
    requires Arriving(b, h, p, rest) && Shifted(h) && NoSyn(p)
    ensures AnsweredAs(b, h, p, rest, ShiftedAcceptable(h, p), KindOf(h[1]))
  {
    hide Reduce, Shortest, ShiftedAcceptable, KindOf, CreateMaster, Receive, Datas, NoSyn;
    ShiftedExactly(h, p);
    AnsweredDecoded(b, h, p, rest);
  }

  /** The byte that is read as the length of a frame in wire form whose third or fourth byte is escaped. */
  function LengthRead(m: seq<Byte>): Byte
    requires |m| >= 5 && (Escaped(m[2]) || Escaped(m[3]))
  {
    if !Escaped(m[2]) then Code(m[3])[1] else if Escaped(m[3]) then EXP else m[3]
  }

  lemma ThreeRead(m: seq<Byte>, crc: Byte)
    requires |m| >= 5 && (Escaped(m[2]) || Escaped(m[3]))
    ensures var w := Extend(m[2..] + [crc]);
            && |w| >= 3 && w[2] == LengthRead(m)
            && (Escaped(m[2]) ==> w[0] == EXP && w[1] == Code(m[2])[1])
            && (!Escaped(m[2]) ==> w[0] == m[2] && w[1] == EXP)
  {
    var x := m[2..] + [crc];
    assert x[0] == m[2] && x[1] == m[3];
    assert x[1..][0] == x[1];
    var y := Extend(x[1..][1..]);
    assert Extend(x[1..]) == Code(x[1]) + y;
    assert Extend(x) == Code(x[0]) + (Code(x[1]) + y);
  }

  /**
   A frame in wire form whose third or fourth byte is escaped: with a small enough length byte it arrives with a
   shifted header, and with a larger one it is given up after three more bytes, which crashes the thread unless a
   message is active.
   */
  lemma EscapedHeader(b: Bus, m: seq<Byte>, crc: Byte, rest: seq<Input>)
    requires |m| >= 5 && !Escaped(m[0]) && !Escaped(m[1]) && (Escaped(m[2]) || Escaped(m[3]))
    requires b.sequence == Buffer(m[..2], true) && b.device.input == Datas(Extend(m[2..] + [crc])) + rest
    ensures var w, r := Extend(m[2..] + [crc]), Receive(b);
            && |w| >= 3
            && (Count(LengthRead(m)) <= MAX_BYTES ==>
                 && Shifted(m[..2] + w[..3])
                 && ShiftedStart(m[..2] + w[..3]) == m[..4])
            && (Count(LengthRead(m)) > MAX_BYTES ==>
                 if b.active.None? then r.Raise? && r.signal == Crash
                 else r.Ok? && r.value == MonitorBus && r.bus.device.input == Datas(w[3..]) + rest
                      && r.bus.log.completed == b.log.completed + [b.active.value.(state := EBUS_ERR_TRANSMIT)])
  {
    hide ReceiveHeader, Extend, Datas, Count, ReceiveBytes, Answer;
    var w := Extend(m[2..] + [crc]);
    ThreeRead(m, crc);
    var h := m[..2] + w[..3];
    if Count(LengthRead(m)) <= MAX_BYTES {
      DecodedCode(m[2]);
      DecodedCode(m[3]);
      SmallCountPlain(LengthRead(m));
      assert h[0] == m[0] && h[1] == m[1] && h[2] == w[0] && h[3] == w[1] && h[4] == w[2];
      assert m[..4] == [m[0], m[1], m[2], m[3]];
    } else {
      DatasSplit(w, 3, rest);
      ReceivedHeader(b, w[..3], Datas(w[3..]) + rest);
      var b1 := Received(b, w[..3]);
      assert b1.sequence.bytes == h && h[4] == w[2];
      assert b1.device.input == Datas(w[3..]) + rest by {
        assert |Datas(w[..3])| == 3;
      }
    }
  }

  lemma DecodedCode(b: Byte)
    ensures Escaped(b) ==> Decoded(Code(b)[1]) == b && !Escaped(Code(b)[1])
  {
  }

  lemma DatasSplit(w: seq<Byte>, n: nat, rest: seq<Input>)
    requires n <= |w|
    ensures Datas(w) + rest == Datas(w[..n]) + (Datas(w[n..]) + rest)
  {
  }
}

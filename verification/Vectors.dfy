/** The telegrams of the test program, byte by byte: what parsing each of them gives. */
module Vectors {
  import opened Wrappers
  import opened Bytes
  import opened Escape
  import opened TelegramValues
  import opened Language
  import opened Agreement
  import opened Witnesses
  import opened Verdicts
  import opened Addresses
  import Crc

  /** The message and the response with their checksums, as the parser sees them. */
  const ASKED: seq<Byte> := [0xff, 0x52, 0xb5, 0x09, 0x03, 0x0d, 0x06, 0x00, 0x43]
  const ANSWERED: seq<Byte> := [0x03, 0xb0, 0xfb, 0xaa, 0xd0]

  /** The telegram of the message and the response. */
  predicate Complete(t: Tel) {
    t.IsValid() && t.kind == MS && t.master.Logical() == MESSAGE && t.slave.Logical() == RESPONSE
  }

  lemma Frames()
    ensures MasterFrame(MESSAGE) && KindOf(MESSAGE[1]) == MS && Sealed(MESSAGE) == ASKED
    ensures SlaveFrame(RESPONSE) && Sealed(RESPONSE) == ANSWERED
  {
    hide FrameCrc, IsMaster;
    MessageChecksum();
    ResponseChecksum();
    PlainMaster();
    NotMaster();
  }

  lemma Spelled(m1: Option<seq<Byte>>, s1: Option<(seq<Byte>, Byte)>)
    requires m1 == None || m1 == Some(MESSAGE)
    requires s1 == None || s1 == Some((RESPONSE, 0x00))
    ensures Complete(Parse(RefusedBytes(m1) + ASKED + [0x00] + (RefusedSlaveBytes(s1) + ANSWERED + [0x00])))
  {
    hide Parse, FrameCrc, IsMaster, KindOf, Reduce;
    Frames();
    var x := Transfer(m1, MESSAGE, s1, RESPONSE, []);
    assert RefusedSlaveBytes(s1) + ANSWERED + [0x00] == x.SlaveBytes();
    TransferFrames(x);
    ParseTransfer(x);
  }

  /** Answered at once, or after a refusal of the message, of the response, or of both. */
  lemma CompleteVectors()
    ensures Complete(Parse(ASKED + [0x00] + ANSWERED + [0x00]))
    ensures Complete(Parse(ASKED + [0xff] + ASKED + [0x00] + ANSWERED + [0x00]))
    ensures Complete(Parse(ASKED + [0x00] + ANSWERED + [0xff, 0x00] + ANSWERED + [0x00]))
    ensures Complete(Parse(ASKED + [0xff] + ASKED + [0x00] + ANSWERED + [0xff, 0x00] + ANSWERED + [0x00]))
  {
    hide Complete, Parse, FrameCrc, MasterFrame, SlaveFrame, KindOf;
    Frames();
    var a, b := ASKED, ANSWERED;
    var m1, s1 := Some(MESSAGE), Some((RESPONSE, 0x00 as Byte));
    assert RefusedBytes(m1) == a + [0xff] && RefusedSlaveBytes(s1) == b + [0xff, 0x00];
    Spelled(None, None);
    Spelled(m1, None);
    Spelled(None, s1);
    Spelled(m1, s1);
    assert [] + a + [0x00] + ([] + b + [0x00]) == a + [0x00] + b + [0x00];
    assert a + [0xff] + a + [0x00] + ([] + b + [0x00]) == a + [0xff] + a + [0x00] + b + [0x00];
    assert [] + a + [0x00] + (b + [0xff, 0x00] + b + [0x00]) == a + [0x00] + b + [0xff, 0x00] + b + [0x00];
    assert a + [0xff] + a + [0x00] + (b + [0xff, 0x00] + b + [0x00])
        == a + [0xff] + a + [0x00] + b + [0xff, 0x00] + b + [0x00];
  }

  /** The first of them as it is on the wire. */
  lemma WireVector()
    ensures var w := ASKED + [0x00, 0x03, 0xb0, 0xfb] + [0xa9, 0x01] + [0xd0, 0x00];
            Reduce(w) == ASKED + [0x00] + ANSWERED + [0x00] && Complete(Parse(Reduce(w)))
  {
    hide Complete, Parse, Reduce, Extend;
    var p, q: seq<Byte> := ASKED + [0x00, 0x03, 0xb0, 0xfb], [0xd0, 0x00];
    CompleteVectors();
    PlainParts();
    PlainThenSyn(p);
    ExtendConcat(p + [SYN], q);
    ExtendFixedPoint(q);
    ReduceExtend(p + [SYN] + q);
    assert p + [SYN] + q == ASKED + [0x00] + ANSWERED + [0x00];
  }

  lemma PlainParts()
    ensures NoEscaped(ASKED + [0x00, 0x03, 0xb0, 0xfb]) && NoEscaped([0xd0, 0x00])
  {
  }

  /** Refused twice: the message, and the response after the message was refused once. */
  lemma RefusedVectors()
    ensures Parse(ASKED + [0xff] + (ASKED + [0xff])).masterState == -9
    ensures Parse(ASKED + [0xff] + ASKED + [0x00] + (ANSWERED + ([0xff, 0x00] + (ANSWERED + [0xff])))).slaveState == -9
  {
    hide Parse, FrameCrc, MasterFrame, SlaveFrame, KindOf, SlaveRetry;
    Frames();
    SecondAnswerReported(MESSAGE, MESSAGE, [0xff]);
    var tail := [0xff, 0x00] + (ANSWERED + [0xff]);
    assert tail[2..] == ANSWERED + [0xff];
    SlaveAnswerReported(Some(MESSAGE), MESSAGE, RESPONSE, tail);
    var t := WithSlave(MasterResult(MESSAGE), RESPONSE).(masterACK := NAK);
    assert RESPONSE + [0xd0] == ANSWERED;
    SecondSlaveReported(t, RESPONSE, 0xd0, [0xff]);
  }

  // ---------- The defect ones ----------

  const SHORT: seq<Byte> :=
    [0x10, 0x7f, 0xc2, 0xb5, 0x10, 0x09, 0x00, 0x02, 0x40, 0x00, 0x00, 0x00, 0x00, 0x00, 0x02, 0x15]
  const QUESTION: seq<Byte> := [0x10, 0x08, 0xb5, 0x11, 0x01, 0x02]

  lemma QuestionSteps()
    ensures Crc.CalcCrc(0x10, 0x00) == 0x10
    ensures Crc.CalcCrc(0x08, 0x10) == 0x3a
    ensures Crc.CalcCrc(0xb5, 0x3a) == 0x57
  {
  }

  lemma MoreSteps()
    ensures Crc.CalcCrc(0x11, 0x57) == 0x1c
    ensures Crc.CalcCrc(0x01, 0x1c) == 0xeb
    ensures Crc.CalcCrc(0x02, 0xeb) == 0x8a
  {
  }

  lemma QuestionChecksum()
    ensures FrameCrc(QUESTION) == 0x8a
  {
    hide Crc.Remainder, Crc.CalcCrc, Extend;
    assert NoEscaped(QUESTION);
    ExtendFixedPoint(QUESTION);
    Crc.RemainderEmpty();
    QuestionSteps();
    MoreSteps();
    OneMore([], 0x10, [0x10]);
    OneMore([0x10], 0x08, [0x10, 0x08]);
    OneMore([0x10, 0x08], 0xb5, [0x10, 0x08, 0xb5]);
    OneMore([0x10, 0x08, 0xb5], 0x11, [0x10, 0x08, 0xb5, 0x11]);
    OneMore([0x10, 0x08, 0xb5, 0x11], 0x01, [0x10, 0x08, 0xb5, 0x11, 0x01]);
    OneMore([0x10, 0x08, 0xb5, 0x11, 0x01], 0x02, QUESTION);
  }

  lemma QuestionFrames()
    ensures MasterFrame(QUESTION) && KindOf(QUESTION[1]) == MS && MasterByBits(0x10)
  {
    PlainMaster();
    IsMasterExactly(0x10);
    SlaveTarget();
    hide IsMaster, MasterByBits;
  }

  lemma SlaveTarget()
    ensures !IsMaster(0x08)
  {
  }

  /** Shorter than announced. */
  lemma ShortVector()
    ensures Parse(SHORT).masterState == -1
  {
    hide Parse, FrameCrc, MasterByBits;
    QuestionFrames();
    MasterPartReported(SHORT);
  }

  /** Without the acknowledge byte of a second response. */
  lemma UnansweredVector()
    ensures var q := QUESTION + [0x8a];
            Parse(q + [0xff] + q + [0x00] + (ANSWERED + ([0xff, 0x00] + ANSWERED))).masterState == -8
  {
    hide Parse, FrameCrc, MasterFrame, SlaveFrame, KindOf, SlaveRetry, MasterByBits;
    Frames();
    QuestionChecksum();
    QuestionFrames();
    var tail := [0xff, 0x00] + ANSWERED;
    assert tail[2..] == ANSWERED && ANSWERED + [] == ANSWERED;
    SlaveAnswerReported(Some(QUESTION), QUESTION, RESPONSE, tail);
    var t := WithSlave(MasterResult(QUESTION), RESPONSE).(masterACK := NAK);
    assert RESPONSE + [0xd0] == ANSWERED && RESPONSE + [0xd0] + [] == ANSWERED;
    SecondSlaveReported(t, RESPONSE, 0xd0, []);
  }
}

/**
 What is reported of byte strings, in numbers: which ones are accepted as frames and how long they may be, and what each
 of the others is refused for, by building a telegram and at every stage of parsing one.
 */
module Verdicts {
  import opened Wrappers
  import opened Bytes
  import opened Sequences
  import opened TelegramValues
  import opened Language
  import opened Addresses

  // ---------- Building ----------

  /** The first thing that is wrong with a master frame whose source, target and length are looked at in this order. */
  function HeaderVerdict(s: seq<Byte>): int {
    if |s| < 6 then -1
    else if !MasterByBits(s[0]) then -6
    else if s[1] == 0xaa || s[1] == 0xa9 then -7
    else if s[4] > 0x10 then -3
    else 0
  }

  /** A master frame is accepted without its checksum, or with the right one; nothing else is. */
  lemma MasterVerdict(t: Tel, s: seq<Byte>)
    ensures var v := CreateMaster(t, s).masterState;
            && (HeaderVerdict(s) != 0 ==> v == HeaderVerdict(s))
            && (HeaderVerdict(s) == 0 ==>
                 var n := s[4] as nat;
                 && n <= 16
                 && (|s| < 5 + n ==> v == -1) && (|s| > 6 + n ==> v == -2)
                 && (|s| == 5 + n ==> v == 0)
                 && (|s| == 6 + n ==> v == if s[5 + n] == FrameCrc(s[..5 + n]) then 0 else -4))
  {
    hide IsMaster, MasterByBits, CrcOf, KindOf;
    SmallLength(s);
    if |s| >= 6 {
      IsMasterExactly(s[0]);
      CutCrc(s, 5 + Count(s[4]));
    }
  }

  lemma CutCrc(s: seq<Byte>, n: nat)
    ensures n <= |s| ==> CrcOf(Buffer(s[..n], false)) == FrameCrc(s[..n])
  {
  }

  lemma SmallLength(s: seq<Byte>)
    ensures |s| > 4 ==> (s[4] > 0x10 <==> Count(s[4]) > 16)
    ensures |s| > 0 ==> (s[0] > 0x10 <==> Count(s[0]) > 16)
  {
    forall b: Byte
      ensures b > 0x10 <==> Count(b) > 16
    {
      LengthLimit(b);
    }
  }

  lemma LengthLimit(b: Byte)
    ensures b > 0x10 <==> Count(b) > 16
  {
  }

  /** The longest frame has 16 data bytes. */
  lemma LongestFrame(t: Tel, s: seq<Byte>)
    requires |s| >= 6 && MasterByBits(s[0]) && s[1] != 0xaa && s[1] != 0xa9
    ensures |s| == 21 && s[4] == 0x10 ==> CreateMaster(t, s).masterState == 0
    ensures |s| == 22 && s[4] == 0x11 ==> CreateMaster(t, s).masterState == -3
  {
    hide CreateMaster, MasterByBits, FrameCrc;
    MasterVerdict(t, s);
  }

  /** The same for a slave frame. */
  lemma SlaveVerdict(t: Tel, s: seq<Byte>)
    ensures var v := CreateSlave(t, s).slaveState;
            && (|s| < 2 ==> v == -1)
            && (|s| >= 2 && s[0] > 0x10 ==> v == -3)
            && (|s| >= 2 && s[0] <= 0x10 ==>
                 var n := s[0] as nat;
                 && n <= 16
                 && (|s| < 1 + n ==> v == -1) && (|s| > 2 + n ==> v == -2)
                 && (|s| == 1 + n ==> v == 0)
                 && (|s| == 2 + n ==> v == if s[1 + n] == FrameCrc(s[..1 + n]) then 0 else -4))
  {
    hide CrcOf;
    SmallLength(s);
    if |s| >= 2 {
      CutCrc(s, 1 + Count(s[0]));
    }
  }

  /** The buffer that was handed over is left in wire form exactly after a frame that came without its checksum. */
  lemma ArgumentLeft(s: seq<Byte>)
    ensures MasterArgument(s).Logical() == s == SlaveArgument(s).Logical()
    ensures MasterArgument(s).extended <==> HeaderVerdict(s) == 0 && |s| == 5 + s[4] as nat
    ensures SlaveArgument(s).extended <==> |s| >= 2 && s[0] <= 0x10 && |s| == 1 + s[0] as nat
  {
    hide IsMaster, MasterByBits;
    SmallLength(s);
    if |s| >= 6 {
      IsMasterExactly(s[0]);
    }
    RepresentationKeepsFrame(Buffer(s, false));
  }

  // ---------- Parsing ----------

  /** The first thing that is wrong with the master frame that `s` starts with. */
  function MasterPart(s: seq<Byte>): int {
    var v := HeaderVerdict(s);
    if v != 0 then v
    else
      var n := 5 + s[4] as nat;
      if |s| < n + 1 then -1 else if s[n] != FrameCrc(s[..n]) then -4 else 0
  }

  lemma MasterPartTaken(t: Tel, s: seq<Byte>)
    ensures TakeMaster(t, s).masterState == MasterPart(s)
    ensures TakeMaster(t, s).slaveState == t.slaveState
  {
    hide IsMaster, MasterByBits, FrameCrc, CrcOf, CreateMaster;
    SmallLength(s);
    TakeMasterStates(t, s);
    if |s| >= 6 {
      IsMasterExactly(s[0]);
      var n := 5 + Count(s[4]);
      if CheckMaster(s) == SEQ_OK {
        var f := s[..n + 1];
        assert f[..n] == s[..n] && f[0] == s[0] && f[1] == s[1] && f[4] == s[4];
        MasterVerdict(t.(masterState := SEQ_OK), f);
      }
    }
  }

  /** A wrong master part is all that is reported, as what is wrong first. */
  lemma MasterPartReported(s: seq<Byte>)
    requires MasterPart(s) != 0
    ensures var t := Parse(s); t.masterState == MasterPart(s) && t.slaveState == 99
  {
    hide TakeMaster, MasterPart;
    MasterPartTaken(CLEARED, s);
  }

  /** After a good master part that must be answered: the answer is missing, or is neither of the two. */
  lemma AnswerReported(m: seq<Byte>, tail: seq<Byte>)
    requires MasterFrame(m) && KindOf(m[1]) != BC
    ensures var t := Parse(Sealed(m) + tail);
            && (tail == [] ==> t.masterState == 0 && t.slaveState == -8)
            && (tail != [] && tail[0] != 0x00 && tail[0] != 0xff ==>
                 t.masterState == 0 && t.slaveState == -5 && t.slaveACK == tail[0])
  {
    hide FrameCrc, IsMaster, KindOf, TakeMaster, Stored;
    TakeMasterFrame(CLEARED, m, tail);
    var s := Sealed(m) + tail;
    assert tail != [] ==> s[|m| + 1] == tail[0];
  }

  /** After a refusal: the second copy is wrong, is not answered, or is refused again, at the end or before it. */
  lemma SecondMasterReported(m: seq<Byte>, tail: seq<Byte>)
    requires MasterFrame(m) && KindOf(m[1]) != BC
    ensures var t := Parse(Sealed(m) + [0xff] + tail);
            && (MasterPart(tail) != 0 ==> t.masterState == MasterPart(tail))
            && (MasterPart(tail) != 0 && MasterPart(tail) != -4 ==> t.master == EMPTY)
  {
    hide FrameCrc, IsMaster, KindOf, TakeMaster, Stored, MasterPart, AckAt, TakeSlaveAck;
    AckedMaster(CLEARED, m, NAK, tail);
    CutKeepsMaster(WithMaster(CLEARED, m).(slaveACK := NAK, master := EMPTY), tail);
    MasterPartTaken(WithMaster(CLEARED, m).(slaveACK := NAK, master := EMPTY), tail);
  }

  lemma CutKeepsMaster(t: Tel, s: seq<Byte>)
    ensures MasterPart(s) != 0 && MasterPart(s) != -4 ==> TakeMaster(t, s).master == t.master
  {
    hide IsMaster, MasterByBits, FrameCrc, CrcOf, CreateMaster;
    SmallLength(s);
    if |s| >= 6 {
      IsMasterExactly(s[0]);
    }
  }

  lemma SecondAnswerReported(m: seq<Byte>, m': seq<Byte>, tail: seq<Byte>)
    requires MasterFrame(m) && KindOf(m[1]) != BC && MasterFrame(m')
    ensures var t := Parse(Sealed(m) + [0xff] + (Sealed(m') + tail));
            && (tail == [] ==> t.slaveState == -8)
            && (tail != [] && tail[0] != 0x00 && tail[0] != 0xff ==> t.slaveState == -5 && t.slaveACK == tail[0])
            && (tail != [] && tail[0] == 0xff ==> t.masterState == if |tail| > 1 then -2 else -9)
  {
    hide FrameCrc, IsMaster, KindOf, TakeMaster, Stored, MasterStage;
    AfterRefusal(m, Sealed(m') + tail);
    var u := WithMaster(CLEARED, m).(slaveACK := NAK);
    TakeMasterFrame(u.(master := EMPTY), m', tail);
    var s := Sealed(m') + tail;
    assert tail != [] ==> s[|m'| + 1] == tail[0];
  }

  lemma AfterRefusal(m: seq<Byte>, rest: seq<Byte>)
    requires MasterFrame(m) && KindOf(m[1]) != BC
    ensures MasterStage(Sealed(m) + [0xff] + rest) == MasterRetry(WithMaster(CLEARED, m).(slaveACK := NAK), rest)
  {
    hide FrameCrc, IsMaster, KindOf, TakeMaster, Stored, AckAt, TakeSlaveAck, MasterRetry;
    AckedMaster(CLEARED, m, NAK, rest);
  }

  /** The first thing that is wrong with the slave frame that `s` starts with. */
  function SlavePart(s: seq<Byte>): int {
    if |s| < 2 then -1
    else if s[0] > 0x10 then -3
    else
      var n := 1 + s[0] as nat;
      if |s| < n + 1 then -1 else if s[n] != FrameCrc(s[..n]) then -4 else 0
  }

  lemma SlavePartTaken(t: Tel, s: seq<Byte>)
    ensures TakeSlave(t, s).slaveState == SlavePart(s)
  {
    hide FrameCrc, CrcOf, CreateSlave;
    SmallLength(s);
    if |s| >= 2 && CheckSlave(s) == SEQ_OK {
      var n := 1 + Count(s[0]);
      var f := s[..n + 1];
      assert f[..n] == s[..n] && f[0] == s[0];
      SlaveVerdict(t.(slaveState := SEQ_OK), f);
    }
  }

  /** The bytes after an acknowledged master frame of a master-slave telegram. */
  lemma SlavePartReported(m1: Option<seq<Byte>>, m: seq<Byte>, s: seq<Byte>)
    requires Refused(m1) && MasterFrame(m) && KindOf(m[1]) == MS
    ensures var t := Parse(RefusedBytes(m1) + Sealed(m) + [0x00] + s);
            && t == SlaveStage(MasterResult(m), s)
            && (SlavePart(s) != 0 ==> t.masterState == 0 && t.slaveState == SlavePart(s))
  {
    hide FrameCrc, IsMaster, KindOf, TakeSlave, Stored, SlavePart, MasterStage, RefusedBytes;
    MasterStageComplete(m1, m, s);
    SlavePartTaken(MasterResult(m), s);
    TakeSlaveStates(MasterResult(m), s);
  }

  /** After a good slave part: the answer is missing, wrong, or refuses it; then a second copy is due after one byte. */
  lemma SlaveAnswerReported(m1: Option<seq<Byte>>, m: seq<Byte>, f: seq<Byte>, tail: seq<Byte>)
    requires Refused(m1) && MasterFrame(m) && KindOf(m[1]) == MS && SlaveFrame(f)
    ensures var t := Parse(RefusedBytes(m1) + Sealed(m) + [0x00] + (Sealed(f) + tail));
            && (tail == [] ==> t.masterState == -8 && t.slaveState == 0)
            && (tail != [] && tail[0] != 0x00 && tail[0] != 0xff ==>
                 t.masterState == -5 && t.slaveState == 0 && t.masterACK == tail[0])
            && (tail != [] && tail[0] == 0xff && |tail| < 2 ==> t.masterState == 0 && t.slaveState == -1)
            && (tail != [] && tail[0] == 0xff && |tail| >= 2 ==>
                 t == SlaveRetry(WithSlave(MasterResult(m), f).(masterACK := NAK), tail[2..]))
  {
    hide FrameCrc, IsMaster, KindOf, SlavePart, SlaveRetry, SlaveStage, Parse, SlaveFrame, RefusedBytes;
    SlavePartReported(m1, m, Sealed(f) + tail);
    SlaveAnswered(MasterResult(m), f, tail);
  }

  lemma SlaveAnswered(t0: Tel, f: seq<Byte>, tail: seq<Byte>)
    requires SlaveFrame(f)
    ensures var t := SlaveStage(t0, Sealed(f) + tail);
            && (tail == [] ==> t.masterState == -8 && t.slaveState == 0)
            && (tail != [] && tail[0] != 0x00 && tail[0] != 0xff ==>
                 t.masterState == -5 && t.slaveState == 0 && t.masterACK == tail[0])
            && (tail != [] && tail[0] == 0xff && |tail| < 2 ==> t.masterState == t0.masterState && t.slaveState == -1)
            && (tail != [] && tail[0] == 0xff && |tail| >= 2 ==>
                 t == SlaveRetry(WithSlave(t0, f).(masterACK := NAK), tail[2..]))
  {
    hide FrameCrc, TakeSlave, Stored, SlaveRetry;
    var s := Sealed(f) + tail;
    TakeSlaveFrame(t0, f, tail);
    assert tail != [] ==> s[|f| + 1] == tail[0];
    assert |tail| >= 2 ==> s[|f| + 3..] == tail[2..];
  }

  /** The second copy is too short or too long as announced, not answered, wrong, or refused again. */
  lemma SecondSlaveReported(t: Tel, f: seq<Byte>, c: Byte, tail: seq<Byte>)
    requires SlaveFrame(f)
    ensures var u, v := SlaveRetry(t, f + [c] + tail), if c == FrameCrc(f) then 0 else -4;
            && (tail == [] ==> u.masterState == -8 && u.slaveState == v)
            && (tail != [] && tail[0] != 0x00 && tail[0] != 0xff ==>
                 u.masterState == -5 && u.slaveState == v && u.masterACK == tail[0])
            && (tail != [] && (tail[0] == 0x00 || tail[0] == 0xff) && |tail| > 1 ==>
                 u.slaveState == -2 && u.slave == EMPTY)
            && (tail == [0xff] ==> u.slaveState == -9)
            && (tail == [0x00] ==> u.slaveState == v)
  {
    hide FrameCrc, TakeSlave, CheckSlave, SlaveFrame;
    var s := f + [c] + tail;
    SecondTaken(t.(slave := EMPTY, slaveState := SEQ_OK), f, c, tail);
    assert tail != [] ==> s[|f| + 1] == tail[0];
  }

  lemma SecondTaken(t: Tel, f: seq<Byte>, c: Byte, tail: seq<Byte>)
    requires SlaveFrame(f)
    ensures var s := f + [c] + tail;
            var u := TakeSlave(t, s);
            && CheckSlave(s) == SEQ_OK && u.slaveState == (if c == FrameCrc(f) then 0 else -4)
            && u.slaveNN == |f| - 1 && u.masterState == t.masterState && |f| >= 1
  {
    hide FrameCrc, CrcOf, CreateSlave;
    var s := f + [c] + tail;
    assert s[0] == f[0] && s[..|f| + 1] == f + [c] && (f + [c])[..|f|] == f;
    SmallLength(s);
    SlaveVerdict(t.(slaveState := SEQ_OK), f + [c]);
    SlaveSized(t.(slaveState := SEQ_OK), f + [c]);
  }

  /** A second copy that is shorter or longer than it may be is reported as that. */
  lemma SecondSlaveCut(t: Tel, s: seq<Byte>)
    requires SlavePart(s) != 0 && SlavePart(s) != -4
    ensures SlaveRetry(t, s).slaveState == SlavePart(s) && SlaveRetry(t, s).slave == EMPTY
  {
    hide FrameCrc, TakeSlave, TakeMasterAck, AckAt;
    SmallLength(s);
  }

  lemma SlaveSized(t: Tel, s: seq<Byte>)
    requires |s| >= 2 && s[0] <= 0x10 && |s| == 2 + Count(s[0])
    ensures CreateSlave(t, s).slaveNN == Count(s[0]) && CreateSlave(t, s).masterState == t.masterState
  {
    hide CrcOf;
    SmallLength(s);
  }
}

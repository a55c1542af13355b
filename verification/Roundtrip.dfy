/**
 Consequences of the shape of `Parse`: what is accepted besides master-slave telegrams, what a refused first copy
 changes, and that a telegram built by `CreateMaster` and `CreateSlave` is read back from the wire.
 */
module Roundtrip {
  import opened Wrappers
  import opened Bytes
  import opened Escape
  import opened Sequences
  import opened TelegramValues
  import opened Language

  // ---------- Broadcast and master-master telegrams ----------

  /**
   Everything after the last master frame. Only a second refusal spoils it, or a refusal of a first copy that is no
   broadcast.
   */
  predicate MasterOnly(m1: Option<seq<Byte>>, m: seq<Byte>, tail: seq<Byte>) {
    && Refused(m1) && MasterFrame(m) && KindOf(m[1]) != MS
    && (StartsWithNak(tail) ==> m1.None? && KindOf(m[1]) == BC)
  }

  lemma AfterMaster(t: Tel, m: seq<Byte>, tail: seq<Byte>)
    requires MasterFrame(m)
    ensures var s := Sealed(m) + tail;
            && TakeMaster(t, s) == WithMaster(t, m)
            && TakeSlaveAck(WithMaster(t, m), s).kind == KindOf(m[1])
            && TakeSlaveAck(WithMaster(t, m), s).masterState == SEQ_OK
            && TakeSlaveAck(WithMaster(t, m), s).masterCRC == FrameCrc(m)
            && (AckAt(s, 5 + (|m| - 5) + 1) <==> tail != [] && (tail[0] == ACK || tail[0] == NAK))
            && (tail != [] ==>
                 TakeSlaveAck(WithMaster(t, m), s).slaveACK == tail[0] && s[5 + (|m| - 5) + 2..] == tail[1..])
  {
    hide FrameCrc, IsMaster, KindOf, TakeMaster, Stored;
    TakeMasterFrame(t, m, tail);
  }

  predicate StartsWithNak(tail: seq<Byte>) {
    tail != [] && tail[0] == NAK
  }

  predicate EndsWith(t: Tel, m: seq<Byte>)
    requires MasterFrame(m)
  {
    t.kind == KindOf(m[1]) && t.masterState == SEQ_OK && t.master == Stored(m) && t.masterCRC == FrameCrc(m)
  }

  lemma RetryComplete(u: Tel, m: seq<Byte>, tail: seq<Byte>)
    requires MasterFrame(m) && !StartsWithNak(tail)
    ensures EndsWith(MasterRetry(u, Sealed(m) + tail).tel, m)
  {
    hide FrameCrc, IsMaster, KindOf, TakeMaster, AckAt, Stored;
    AfterMaster(u.(master := EMPTY), m, tail);
  }

  lemma FirstComplete(m: seq<Byte>, tail: seq<Byte>)
    requires MasterFrame(m) && (StartsWithNak(tail) ==> KindOf(m[1]) == BC)
    ensures EndsWith(MasterStage(Sealed(m) + tail).tel, m)
  {
    hide FrameCrc, IsMaster, KindOf, TakeMaster, AckAt, Stored;
    AfterMaster(CLEARED, m, tail);
  }

  lemma MasterOnlyComplete(m1: Option<seq<Byte>>, m: seq<Byte>, tail: seq<Byte>)
    requires MasterOnly(m1, m, tail)
    ensures EndsWith(Parse(RefusedBytes(m1) + Sealed(m) + tail), m)
  {
    hide FrameCrc, IsMaster, KindOf, TakeMaster, TakeSlaveAck, AckAt, Stored, MasterRetry, SlaveStage;
    var s := Sealed(m) + tail;
    if m1.Some? {
      assert RefusedBytes(m1) + Sealed(m) + tail == Sealed(m1.value) + [NAK] + s;
      AckedMaster(CLEARED, m1.value, NAK, s);
      RetryComplete(WithMaster(CLEARED, m1.value).(slaveACK := NAK), m, tail);
    } else {
      assert RefusedBytes(m1) + Sealed(m) + tail == s;
      FirstComplete(m, tail);
    }
  }

  lemma ParseMasterOnly(s: seq<Byte>)
    requires Parse(s).kind != MS && Parse(s).masterState == SEQ_OK
    ensures MasterStage(s).tel == Parse(s)
  {
    hide MasterStage, SlaveStage;
    MasterStageStates(s);
    if MasterStage(s).Acknowledged? {
      SlaveStageStates(MasterStage(s).tel, MasterStage(s).rest);
    }
  }

  lemma MasterOnlySound(s: seq<Byte>) returns (m1: Option<seq<Byte>>, m: seq<Byte>, tail: seq<Byte>)
    requires Parse(s).kind != MS && Parse(s).masterState == SEQ_OK
    ensures MasterOnly(m1, m, tail) && s == RefusedBytes(m1) + Sealed(m) + tail
  {
    hide Parse, FrameCrc, IsMaster, KindOf, TakeMaster, TakeSlaveAck, AckAt, Stored, MasterRetry;
    ParseMasterOnly(s);
    assert TakeMaster(CLEARED, s).masterState == SEQ_OK;
    m1 := None;
    m, tail := TakeMasterSound(CLEARED, s);
    AfterMaster(CLEARED, m, tail);
    if KindOf(m[1]) != BC && StartsWithNak(tail) {
      m1 := Some(m);
      m, tail := MasterRetrySound(TakeSlaveAck(TakeMaster(CLEARED, s), s), tail[1..]);
    }
    assert s == RefusedBytes(m1) + Sealed(m) + tail;
  }

  lemma MasterRetrySound(u: Tel, s: seq<Byte>) returns (m: seq<Byte>, tail: seq<Byte>)
    requires MasterRetry(u, s).tel.masterState == SEQ_OK
    ensures MasterFrame(m) && s == Sealed(m) + tail && !StartsWithNak(tail)
    ensures MasterRetry(u, s).tel.kind == KindOf(m[1])
  {
    hide FrameCrc, IsMaster, KindOf, TakeMaster, AckAt, Stored;
    m, tail := TakeMasterSound(u.(master := EMPTY), s);
    AfterMaster(u.(master := EMPTY), m, tail);
  }

  /** The exact language of the other valid telegrams. A missing or wrong acknowledge byte does not invalidate them. */
  lemma MasterOnlyLanguage(s: seq<Byte>)
    ensures Parse(s).kind != MS && Parse(s).IsValid()
        <==> exists m1, m, tail :: MasterOnly(m1, m, tail) && s == RefusedBytes(m1) + Sealed(m) + tail
  {
    hide Parse, RefusedBytes, MasterOnly;
    if Parse(s).kind != MS && Parse(s).IsValid() {
      var m1, m, tail := MasterOnlySound(s);
    }
    if exists m1, m, tail :: MasterOnly(m1, m, tail) && s == RefusedBytes(m1) + Sealed(m) + tail {
      var m1, m, tail :| MasterOnly(m1, m, tail) && s == RefusedBytes(m1) + Sealed(m) + tail;
      MasterOnlyComplete(m1, m, tail);
      MasterOnlyKind(m1, m, tail);
    }
  }

  lemma MasterOnlyKind(m1: Option<seq<Byte>>, m: seq<Byte>, tail: seq<Byte>)
    requires MasterOnly(m1, m, tail)
    ensures MasterFrame(m) && KindOf(m[1]) != MS
  {
  }

  // ---------- A refused first copy changes nothing ----------

  /** What was parsed before does not influence how a master frame is taken, except for the acknowledge byte. */
  lemma TakeMasterFresh(u: Tel, s: seq<Byte>)
    requires u.(slaveACK := ZERO) == CLEARED.(kind := u.kind, masterNN := u.masterNN, masterCRC := u.masterCRC,
                                               masterState := u.masterState)
    ensures var a, b := TakeMaster(u, s), TakeMaster(CLEARED, s);
            && a.masterState == b.masterState && a.slaveState == b.slaveState
            && (a.masterState == SEQ_OK ==> a == b.(slaveACK := u.slaveACK))
  {
    hide CrcOf, IsMaster, KindOf;
  }

  /** The master frame that `s` starts with is answered by something other than a refusal, and is no broadcast. */
  predicate NotRefused(s: seq<Byte>) {
    var t := TakeMaster(CLEARED, s);
    t.masterState == SEQ_OK ==>
      t.kind != BC && (AckAt(s, 5 + t.masterNN + 1) ==> s[5 + t.masterNN + 1] == ACK)
  }

  lemma RetryStage(u: Tel, rest: seq<Byte>)
    requires u.(slaveACK := ZERO) == CLEARED.(kind := u.kind, masterNN := u.masterNN, masterCRC := u.masterCRC,
                                               master := u.master, masterState := u.masterState)
    requires NotRefused(rest)
    ensures var a, b := MasterRetry(u, rest), MasterStage(rest);
            && (a.Acknowledged? || b.Acknowledged? ==> a == b)
            && a.tel.masterState == b.tel.masterState && a.tel.slaveState == b.tel.slaveState
            && (b.tel.masterState == SEQ_OK ==> a.tel == b.tel.(slaveACK := a.tel.slaveACK))
  {
    hide TakeMaster;
    TakeMasterFresh(u.(master := EMPTY), rest);
  }

  /**
   A refused first copy is transparent: the second copy alone gives the same verdicts and the same telegram. Only
   the acknowledge byte can differ, and only when it is missing after the second copy, where the refusal stays.
   */
  lemma RetryTransparent(m: seq<Byte>, rest: seq<Byte>)
    requires MasterFrame(m) && KindOf(m[1]) != BC && NotRefused(rest)
    ensures var a, b := Parse(Sealed(m) + [NAK] + rest), Parse(rest);
            && a.masterState == b.masterState && a.slaveState == b.slaveState
            && (a.IsValid() <==> b.IsValid())
            && (b.IsValid() ==> a.(slaveACK := b.slaveACK) == b)
            && (b.IsValid() && b.kind == MS ==> a == b)
  {
    hide FrameCrc, IsMaster, KindOf, TakeMaster, TakeSlaveAck, AckAt, Stored, NotRefused, SlaveStage, MasterRetry;
    AckedMaster(CLEARED, m, NAK, rest);
    var u := WithMaster(CLEARED, m).(slaveACK := NAK);
    RetryStage(u, rest);
    assert MasterStage(Sealed(m) + [NAK] + rest) == MasterRetry(u, rest);
    MasterStageStates(rest);
    MasterRetryStates(u, rest);
    if MasterStage(rest).Acknowledged? {
      SlaveStageStates(MasterStage(rest).tel, MasterStage(rest).rest);
    }
  }

  /** The difference is real: without an answer to the second copy the stale refusal is what is left. */
  lemma RetryLeavesRefusal(m: seq<Byte>)
    requires MasterFrame(m) && KindOf(m[1]) == MM
    ensures Parse(Sealed(m) + [NAK] + Sealed(m)).IsValid() && Parse(Sealed(m)).IsValid()
    ensures Parse(Sealed(m) + [NAK] + Sealed(m)).slaveACK == NAK && Parse(Sealed(m)).slaveACK == ZERO
  {
    hide FrameCrc, IsMaster, KindOf, TakeMaster, Stored;
    var s := Sealed(m);
    assert s + [] == s;
    AckedMaster(CLEARED, m, NAK, s);
    AfterMaster(CLEARED, m, []);
    AfterMaster(WithMaster(CLEARED, m).(slaveACK := NAK, master := EMPTY), m, []);
  }

  // ---------- Building and reading back ----------

  lemma StoredKeepsFrame(f: seq<Byte>)
    ensures Stored(f).Logical() == f
  {
    RepresentationKeepsFrame(Buffer(f, false));
  }

  /** `b` holds the frame `f`, in one representation or the other. */
  predicate Holds(b: Buffer, f: seq<Byte>) {
    b.Logical() == f && (b == Buffer(f, false) || b == Stored(f))
  }

  lemma ShapedMaster(s: seq<Byte>)
    requires MasterShape(s) == SEQ_OK
    ensures var n := 5 + Count(s[4]);
            && n <= |s| <= n + 1 && MasterFrame(s[..n]) && s[..n][1] == s[1]
            && s == if |s| == n then s[..n] else s[..n] + [s[n]]
  {
    hide IsMaster;
  }

  lemma CreatedMaster(t: Tel, s: seq<Byte>) returns (m: seq<Byte>)
    requires CreateMaster(t, s).masterState == SEQ_OK
    ensures var r := CreateMaster(t, s);
            && MasterFrame(m) && (s == m || s == Sealed(m)) && (r.master == Buffer(m, false) || r.master == Stored(m))
            && r.kind == KindOf(m[1]) && r.masterCRC == FrameCrc(m)
  {
    hide Count, CrcOf, IsMaster, KindOf, MasterShape, MasterFrame, Stored, CreateMaster;
    CreatedShape(t, s);
    ShapedMaster(s);
    m := s[..5 + Count(s[4])];
    if |s| == |m| {
      CreatedBare(t, s);
    } else {
      CreatedSealed(t, s);
      assert s == Sealed(m);
    }
  }

  lemma CreatedShape(t: Tel, s: seq<Byte>)
    requires CreateMaster(t, s).masterState == SEQ_OK
    ensures MasterShape(s) == SEQ_OK && CreateMaster(t, s).kind == KindOf(s[1])
  {
    hide Count, CrcOf, IsMaster, KindOf, MasterShape;
  }

  lemma CreatedBare(t: Tel, s: seq<Byte>)
    requires MasterShape(s) == SEQ_OK && |s| == 5 + Count(s[4])
    ensures CreateMaster(t, s).master == Buffer(s, false) && CreateMaster(t, s).masterCRC == FrameCrc(s)
  {
    hide Count, CrcOf, IsMaster, KindOf, MasterShape, Extend;
  }

  lemma CreatedSealed(t: Tel, s: seq<Byte>)
    requires MasterShape(s) == SEQ_OK && |s| == 5 + Count(s[4]) + 1 && CreateMaster(t, s).masterState == SEQ_OK
    ensures var n := 5 + Count(s[4]);
            && CreateMaster(t, s).master == Stored(s[..n]) && CreateMaster(t, s).masterCRC == s[n] == FrameCrc(s[..n])
  {
    hide Count, CrcOf, IsMaster, KindOf, MasterShape, Extend;
  }

  /** An accepted master holds a frame, in whichever representation, and the checksum of that frame. */
  lemma AcceptedMaster(t: Tel, s: seq<Byte>)
    requires CreateMaster(t, s).masterState == SEQ_OK
    ensures var r := CreateMaster(t, s);
            var m := r.master.Logical();
            && MasterFrame(m) && Holds(r.master, m) && (s == m || s == Sealed(m))
            && r.kind == KindOf(m[1]) && r.masterCRC == FrameCrc(m)
  {
    hide CreateMaster, FrameCrc, IsMaster, KindOf, MasterFrame;
    var m := CreatedMaster(t, s);
    StoredKeepsFrame(m);
  }

  lemma AcceptedSlave(t: Tel, s: seq<Byte>)
    requires CreateSlave(t, s).slaveState == SEQ_OK
    ensures var r := CreateSlave(t, s);
            var f := r.slave.Logical();
            && SlaveFrame(f) && Holds(r.slave, f) && (s == f || s == Sealed(f))
            && r.slaveCRC == FrameCrc(f)
  {
    hide CrcOf, Extend;
    var f := s[..1 + Count(s[0])];
    StoredKeepsFrame(f);
    if s != f {
      assert s == Sealed(f);
      assert CreateSlave(t, s).slave == Stored(f);
    }
  }

  /** The frames, checksums and acknowledge bytes of a completed telegram in the order they are heard. */
  function Spelled(t: Tel): seq<Byte> {
    var m := t.master.Logical() + [t.masterCRC];
    if t.kind == BC then m
    else if t.kind == MM then m + [ACK]
    else m + [ACK] + t.slave.Logical() + [t.slaveCRC] + [ACK]
  }

  predicate SameTelegram(a: Tel, b: Tel) {
    && a.kind == b.kind
    && a.master.Logical() == b.master.Logical() && a.masterCRC == b.masterCRC
    && (a.kind != BC ==> a.slaveACK == ACK)
    && (a.kind == MS ==>
      a.slave.Logical() == b.slave.Logical() && a.slaveCRC == b.slaveCRC && a.masterACK == ACK)
  }

  /** A telegram built from accepted frames is read back from its wire form as the same valid telegram. */
  lemma BuildThenParse(s: seq<Byte>, f: seq<Byte>)
    requires CreateMaster(CLEARED, s).masterState == SEQ_OK
    requires CreateMaster(CLEARED, s).kind == MS ==> CreateSlave(CLEARED, f).slaveState == SEQ_OK
    ensures var t := CreateSlave(CreateMaster(CLEARED, s), f);
            var p := Parse(Reduce(Extend(Spelled(t))));
            p.IsValid() && SameTelegram(p, t)
  {
    hide CrcOf, IsMaster, KindOf, CreateMaster, CreateSlave, Parse, FrameCrc, SameTelegram, Spelled;
    var t0 := CreateMaster(CLEARED, s);
    var t := CreateSlave(t0, f);
    SlaveKeepsMaster(t0, f);
    ReduceExtend(Spelled(t));
    AcceptedMaster(CLEARED, s);
    if t.kind == MS {
      AcceptedSlave(t0, f);
      ParseSpelledTransfer(t);
    } else {
      ParseSpelledMaster(t);
    }
  }

  lemma ParseSpelledTransfer(t: Tel)
    requires MasterFrame(t.master.Logical()) && t.masterCRC == FrameCrc(t.master.Logical())
    requires t.kind == KindOf(t.master.Logical()[1]) == MS
    requires SlaveFrame(t.slave.Logical()) && t.slaveCRC == FrameCrc(t.slave.Logical())
    ensures Parse(Spelled(t)).IsValid() && SameTelegram(Parse(Spelled(t)), t)
  {
    hide IsMaster, KindOf, Parse, Stored, FrameCrc;
    var m, f := t.master.Logical(), t.slave.Logical();
    StoredKeepsFrame(m);
    StoredKeepsFrame(f);
    var x := Transfer(None, m, None, f, []);
    assert Spelled(t) == x.Bytes();
    ParseTransfer(x);
  }

  lemma ParseSpelledMaster(t: Tel)
    requires MasterFrame(t.master.Logical()) && t.masterCRC == FrameCrc(t.master.Logical())
    requires t.kind == KindOf(t.master.Logical()[1]) != MS
    ensures Parse(Spelled(t)).IsValid() && SameTelegram(Parse(Spelled(t)), t)
  {
    hide IsMaster, Parse, Stored, FrameCrc;
    var m := t.master.Logical();
    StoredKeepsFrame(m);
    ParseMasterFrame(m);
  }

  lemma SlaveKeepsMaster(t: Tel, f: seq<Byte>)
    ensures var r := CreateSlave(t, f);
            && r.kind == t.kind && r.master == t.master && r.masterCRC == t.masterCRC && r.masterState == t.masterState
            && (r.slaveState == SEQ_OK <==> CreateSlave(CLEARED, f).slaveState == SEQ_OK)
  {
    hide CrcOf;
  }

  lemma ParseMasterFrame(m: seq<Byte>)
    requires MasterFrame(m) && KindOf(m[1]) != MS
    ensures KindOf(m[1]) == BC ==> Parse(Sealed(m)) == WithMaster(CLEARED, m)
    ensures KindOf(m[1]) == MM ==> Parse(Sealed(m) + [ACK]) == MasterResult(m)
  {
    hide FrameCrc, IsMaster, TakeMaster, TakeSlaveAck, AckAt, Stored;
    assert Sealed(m) + [] == Sealed(m);
    TakeMasterFrame(CLEARED, m, []);
    assert Sealed(m) + [ACK] + [] == Sealed(m) + [ACK];
    AckedMaster(CLEARED, m, ACK, []);
  }
}

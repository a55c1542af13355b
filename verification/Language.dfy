/**
 The language of master-slave telegrams. A transfer is written down as the frames it is made of; `Parse` accepts
 a byte string as a valid master-slave telegram exactly when it spells out a transfer, and returns its frames.
 */
module Language {
  import opened Wrappers
  import opened Bytes
  import opened Crc
  import opened Sequences
  import opened TelegramValues

  // ---------- Frames ----------

  predicate MasterFrame(m: seq<Byte>) {
    |m| >= 5 && IsMaster(m[0]) && IsAddressValid(m[1]) && Count(m[4]) <= MAX_BYTES && |m| == 5 + Count(m[4])
  }

  predicate SlaveFrame(f: seq<Byte>) {
    |f| >= 1 && Count(f[0]) <= MAX_BYTES && |f| == 1 + Count(f[0])
  }

  function FrameCrc(f: seq<Byte>): Byte {
    CrcOf(Buffer(f, false))
  }

  function Sealed(f: seq<Byte>): (s: seq<Byte>)
    ensures |s| == |f| + 1
  {
    f + [FrameCrc(f)]
  }

  /** How a frame that arrived with its checksum is stored. */
  function Stored(f: seq<Byte>): Buffer {
    Buffer(f, false).Extended()
  }

  function WithMaster(t: Tel, m: seq<Byte>): Tel
    requires MasterFrame(m)
  {
    t.(kind := KindOf(m[1]), master := Stored(m), masterNN := |m| - 5, masterCRC := FrameCrc(m), masterState := SEQ_OK)
  }

  function WithSlave(t: Tel, f: seq<Byte>): Tel
    requires SlaveFrame(f)
  {
    t.(slave := Stored(f), slaveNN := |f| - 1, slaveCRC := FrameCrc(f), slaveState := SEQ_OK)
  }

  lemma TakeMasterFrame(t: Tel, m: seq<Byte>, rest: seq<Byte>)
    requires MasterFrame(m)
    ensures TakeMaster(t, Sealed(m) + rest) == WithMaster(t, m)
  {
    hide Remainder, IsMaster;
    var s := Sealed(m) + rest;
    assert s[..|m| + 1] == Sealed(m) && Sealed(m)[..|m|] == m;
    assert s[0] == m[0] && s[1] == m[1] && s[4] == m[4];
  }

  lemma TakeMasterSound(t: Tel, s: seq<Byte>) returns (m: seq<Byte>, rest: seq<Byte>)
    requires TakeMaster(t, s).masterState == SEQ_OK
    ensures MasterFrame(m) && s == Sealed(m) + rest
  {
    hide Remainder, IsMaster;
    var n := 5 + Count(s[4]);
    m, rest := s[..n], s[n + 1..];
    assert s[..n + 1][..n] == m;
    assert s == m + [s[n]] + rest;
  }

  lemma TakeSlaveFrame(t: Tel, f: seq<Byte>, rest: seq<Byte>)
    requires SlaveFrame(f)
    ensures TakeSlave(t, Sealed(f) + rest) == WithSlave(t, f)
  {
    hide Remainder;
    var s := Sealed(f) + rest;
    assert s[..|f| + 1] == Sealed(f) && Sealed(f)[..|f|] == f;
    assert s[0] == f[0];
  }

  lemma TakeSlaveSound(t: Tel, s: seq<Byte>) returns (f: seq<Byte>, rest: seq<Byte>)
    requires TakeSlave(t, s).slaveState == SEQ_OK
    ensures SlaveFrame(f) && s == Sealed(f) + rest
  {
    hide Remainder;
    var n := 1 + Count(s[0]);
    f, rest := s[..n], s[n + 1..];
    assert s[..n + 1][..n] == f;
    assert s == f + [s[n]] + rest;
  }

  // ---------- The master part ----------

  /** A copy of the master frame that was refused, or nothing. */
  predicate Refused(m1: Option<seq<Byte>>) {
    m1.Some? ==> MasterFrame(m1.value) && KindOf(m1.value[1]) != BC
  }

  function RefusedBytes(m1: Option<seq<Byte>>): seq<Byte> {
    if m1.Some? then Sealed(m1.value) + [NAK] else []
  }

  function MasterResult(m: seq<Byte>): Tel
    requires MasterFrame(m)
  {
    WithMaster(CLEARED, m).(slaveACK := ACK)
  }

  lemma AckedMaster(t: Tel, m: seq<Byte>, ack: Byte, rest: seq<Byte>)
    requires MasterFrame(m) && (ack == ACK || ack == NAK)
    ensures var s := Sealed(m) + [ack] + rest;
            && TakeMaster(t, s) == WithMaster(t, m)
            && AckAt(s, 5 + (|m| - 5) + 1)
            && TakeSlaveAck(WithMaster(t, m), s) == WithMaster(t, m).(slaveACK := ack)
            && s[5 + (|m| - 5) + 2..] == rest
  {
    hide FrameCrc, IsMaster, KindOf, TakeMaster, Stored;
    var s := Sealed(m) + [ack] + rest;
    assert s == Sealed(m) + ([ack] + rest);
    TakeMasterFrame(t, m, [ack] + rest);
  }

  lemma MasterStageComplete(m1: Option<seq<Byte>>, m: seq<Byte>, rest: seq<Byte>)
    requires Refused(m1) && MasterFrame(m) && (m1.None? ==> KindOf(m[1]) != BC)
    ensures MasterStage(RefusedBytes(m1) + Sealed(m) + [ACK] + rest) == Acknowledged(MasterResult(m), rest)
  {
    hide FrameCrc, IsMaster, KindOf, TakeMaster, TakeSlaveAck, AckAt, Stored;
    var s := Sealed(m) + [ACK] + rest;
    if m1.Some? {
      assert RefusedBytes(m1) + Sealed(m) + [ACK] + rest == Sealed(m1.value) + [NAK] + s;
      AckedMaster(CLEARED, m1.value, NAK, s);
      MasterRetryComplete(WithMaster(CLEARED, m1.value).(slaveACK := NAK), m, rest);
    } else {
      assert RefusedBytes(m1) + Sealed(m) + [ACK] + rest == s;
      AckedMaster(CLEARED, m, ACK, rest);
    }
  }

  lemma MasterRetryComplete(u: Tel, m: seq<Byte>, rest: seq<Byte>)
    requires MasterFrame(m)
    ensures MasterRetry(u, Sealed(m) + [ACK] + rest) == Acknowledged(WithMaster(u, m).(slaveACK := ACK), rest)
  {
    hide FrameCrc, IsMaster, KindOf, TakeMaster, TakeSlaveAck, AckAt, Stored;
    AckedMaster(u.(master := EMPTY), m, ACK, rest);
  }

  lemma AckedMasterSound(t: Tel, s: seq<Byte>) returns (m: seq<Byte>, ack: Byte, rest: seq<Byte>)
    requires TakeMaster(t, s).masterState == SEQ_OK && AckAt(s, 5 + TakeMaster(t, s).masterNN + 1)
    ensures MasterFrame(m) && (ack == ACK || ack == NAK) && s == Sealed(m) + [ack] + rest
  {
    hide Remainder, IsMaster;
    var tail;
    m, tail := TakeMasterSound(t, s);
    TakeMasterFrame(t, m, tail);
    ack, rest := tail[0], tail[1..];
    assert s[|m| + 1] == tail[0];
    assert s == Sealed(m) + [ack] + rest;
  }

  lemma RetryAcknowledged(u: Tel, s: seq<Byte>) returns (m: seq<Byte>, rest: seq<Byte>)
    requires MasterRetry(u, s).Acknowledged?
    ensures MasterFrame(m) && s == Sealed(m) + [ACK] + rest
  {
    hide FrameCrc, IsMaster, KindOf, TakeMaster, TakeSlaveAck, AckAt, Stored;
    var ack;
    m, ack, rest := AckedMasterSound(u.(master := EMPTY), s);
    AckedMaster(u.(master := EMPTY), m, ack, rest);
  }

  /** What the first frame was answered with decides how the stage goes on. */
  lemma StageContinues(s: seq<Byte>) returns (m: seq<Byte>, ack: Byte, rest: seq<Byte>)
    requires MasterStage(s).Acknowledged?
    ensures MasterFrame(m) && KindOf(m[1]) != BC && (ack == ACK || ack == NAK) && s == Sealed(m) + [ack] + rest
    ensures ack == NAK ==> MasterRetry(WithMaster(CLEARED, m).(slaveACK := NAK), rest).Acknowledged?
  {
    hide FrameCrc, IsMaster, KindOf, TakeMaster, AckAt, Stored, MasterRetry, Sealed;
    m, ack, rest := AckedMasterSound(CLEARED, s);
    AckedMaster(CLEARED, m, ack, rest);
  }

  lemma MasterStageSound(s: seq<Byte>) returns (m1: Option<seq<Byte>>, m: seq<Byte>, rest: seq<Byte>)
    requires MasterStage(s).Acknowledged?
    ensures Refused(m1) && MasterFrame(m) && (m1.None? ==> KindOf(m[1]) != BC)
    ensures s == RefusedBytes(m1) + Sealed(m) + [ACK] + rest
    ensures MasterStage(s) == Acknowledged(MasterResult(m), rest)
  {
    hide MasterFrame, KindOf, Sealed, MasterStage, MasterRetry, WithMaster;
    var ack;
    m, ack, rest := StageContinues(s);
    m1 := None;
    if ack == NAK {
      m1 := Some(m);
      m, rest := RetryAcknowledged(WithMaster(CLEARED, m).(slaveACK := NAK), rest);
    }
    assert s == RefusedBytes(m1) + Sealed(m) + [ACK] + rest;
    MasterStageComplete(m1, m, rest);
  }

  // ---------- The slave part ----------

  /** A copy of the slave frame that was refused, and the one byte that is skipped after it; or nothing. */
  predicate RefusedSlave(s1: Option<(seq<Byte>, Byte)>) {
    s1.Some? ==> SlaveFrame(s1.value.0)
  }

  function RefusedSlaveBytes(s1: Option<(seq<Byte>, Byte)>): seq<Byte> {
    if s1.Some? then Sealed(s1.value.0) + [NAK, s1.value.1] else []
  }

  lemma AckedSlave(t: Tel, f: seq<Byte>, ack: Byte, rest: seq<Byte>)
    requires SlaveFrame(f) && (ack == ACK || ack == NAK)
    ensures var s := Sealed(f) + [ack] + rest;
            && CheckSlave(s) == SEQ_OK
            && TakeSlave(t, s) == WithSlave(t, f)
            && |s| == 1 + (|f| - 1) + 2 + |rest|
            && AckAt(s, 1 + (|f| - 1) + 1)
            && TakeMasterAck(WithSlave(t, f), s) == WithSlave(t, f).(masterACK := ack)
            && s[1 + (|f| - 1) + 2..] == rest
  {
    hide FrameCrc, TakeSlave, Stored;
    var s := Sealed(f) + [ack] + rest;
    assert s == Sealed(f) + ([ack] + rest);
    TakeSlaveFrame(t, f, [ack] + rest);
    assert s[0] == f[0];
  }

  lemma AckedSlaveSound(t: Tel, s: seq<Byte>) returns (f: seq<Byte>, ack: Byte, rest: seq<Byte>)
    requires TakeSlave(t, s).slaveState == SEQ_OK && AckAt(s, 1 + TakeSlave(t, s).slaveNN + 1)
    ensures SlaveFrame(f) && (ack == ACK || ack == NAK) && s == Sealed(f) + [ack] + rest
  {
    hide FrameCrc, TakeSlave, Stored;
    var tail;
    f, tail := TakeSlaveSound(t, s);
    TakeSlaveFrame(t, f, tail);
    ack, rest := tail[0], tail[1..];
    assert s[|f| + 1] == tail[0];
    assert s == Sealed(f) + [ack] + rest;
  }

  lemma SlaveRetryComplete(t: Tel, f: seq<Byte>)
    requires SlaveFrame(f)
    ensures SlaveRetry(t, Sealed(f) + [ACK]) == WithSlave(t, f).(masterACK := ACK)
  {
    hide FrameCrc, CheckSlave, TakeSlave, TakeMasterAck, AckAt, Stored;
    var s := Sealed(f) + [ACK];
    assert s + [] == s;
    AckedSlave(t.(slave := EMPTY, slaveState := SEQ_OK), f, ACK, []);
  }

  lemma SlaveStageComplete(t: Tel, s1: Option<(seq<Byte>, Byte)>, f: seq<Byte>, tail: seq<Byte>)
    requires RefusedSlave(s1) && SlaveFrame(f) && (s1.Some? ==> tail == [])
    ensures SlaveStage(t, RefusedSlaveBytes(s1) + Sealed(f) + [ACK] + tail) == WithSlave(t, f).(masterACK := ACK)
  {
    hide FrameCrc, CheckSlave, TakeSlave, TakeMasterAck, AckAt, Stored;
    var all := RefusedSlaveBytes(s1) + Sealed(f) + [ACK] + tail;
    if s1.Some? {
      var g, b := s1.value.0, s1.value.1;
      var s := Sealed(f) + [ACK];
      assert all == Sealed(g) + [NAK] + ([b] + s);
      AckedSlave(t, g, NAK, [b] + s);
      assert all[1 + (|g| - 1) + 3..] == s;
      SlaveRetryComplete(WithSlave(t, g).(masterACK := NAK), f);
    } else {
      assert all == Sealed(f) + [ACK] + tail;
      AckedSlave(t, f, ACK, tail);
    }
  }

  lemma SlaveRetrySound(t: Tel, s: seq<Byte>) returns (f: seq<Byte>)
    requires t.masterState == SEQ_OK
    requires SlaveRetry(t, s).masterState == SEQ_OK && SlaveRetry(t, s).slaveState == SEQ_OK
    ensures SlaveFrame(f) && s == Sealed(f) + [ACK]
  {
    hide FrameCrc, TakeSlave, Stored;
    var t1 := t.(slave := EMPTY, slaveState := SEQ_OK);
    var ack, rest;
    f, ack, rest := AckedSlaveSound(t1, s);
    AckedSlave(t1, f, ack, rest);
  }

  lemma SlaveAckNeeded(t: Tel, s: seq<Byte>)
    requires t.masterState == SEQ_OK && TakeSlave(t, s).slaveState == SEQ_OK
    requires SlaveStage(t, s).masterState == SEQ_OK
    ensures AckAt(s, 1 + TakeSlave(t, s).slaveNN + 1)
  {
    hide TakeSlave, SlaveRetry;
  }

  /** What the first response was answered with decides how the stage goes on. */
  lemma SlaveStageContinues(t: Tel, s: seq<Byte>) returns (f: seq<Byte>, ack: Byte, rest: seq<Byte>)
    requires t.masterState == SEQ_OK
    requires SlaveStage(t, s).masterState == SEQ_OK && SlaveStage(t, s).slaveState == SEQ_OK
    ensures SlaveFrame(f) && (ack == ACK || ack == NAK) && s == Sealed(f) + [ack] + rest
    ensures ack == NAK ==> rest != [] && SlaveStage(t, s) == SlaveRetry(WithSlave(t, f).(masterACK := NAK), rest[1..])
  {
    hide FrameCrc, CheckSlave, TakeSlave, Stored, SlaveRetry, AckAt, Sealed;
    assert AckAt(s, 1 + TakeSlave(t, s).slaveNN + 1) by {
      TakeSlaveStates(t, s);
      SlaveAckNeeded(t, s);
    }
    f, ack, rest := AckedSlaveSound(t, s);
    AckedSlave(t, f, ack, rest);
    if ack == NAK {
      assert rest != [] && s[1 + (|f| - 1) + 3..] == rest[1..];
    }
  }

  lemma SlaveStageSound(t: Tel, s: seq<Byte>)
      returns (s1: Option<(seq<Byte>, Byte)>, f: seq<Byte>, tail: seq<Byte>)
    requires t.masterState == SEQ_OK
    requires SlaveStage(t, s).masterState == SEQ_OK && SlaveStage(t, s).slaveState == SEQ_OK
    ensures RefusedSlave(s1) && SlaveFrame(f) && (s1.Some? ==> tail == [])
    ensures s == RefusedSlaveBytes(s1) + Sealed(f) + [ACK] + tail
  {
    hide SlaveFrame, Sealed, SlaveStage, SlaveRetry, Stored, FrameCrc;
    var ack;
    f, ack, tail := SlaveStageContinues(t, s);
    s1 := None;
    if ack == NAK {
      s1 := Some((f, tail[0]));
      var s2 := tail[1..];
      f := SlaveRetrySound(WithSlave(t, f).(masterACK := NAK), s2);
      assert tail == [tail[0]] + s2;
      tail := [];
    }
    assert s == RefusedSlaveBytes(s1) + Sealed(f) + [ACK] + tail;
  }

  // ---------- Master-slave telegrams ----------

  /**
   A master-slave transfer: the master frame, perhaps after a refused copy, acknowledged; the slave frame, perhaps
   after a refused copy, acknowledged; and whatever else was heard.
   */
  datatype Transfer = Transfer(
    m1: Option<seq<Byte>>, m: seq<Byte>, s1: Option<(seq<Byte>, Byte)>, f: seq<Byte>, tail: seq<Byte>)
  {
    predicate Valid() {
      && Refused(m1) && MasterFrame(m) && KindOf(m[1]) == MS
      && RefusedSlave(s1) && SlaveFrame(f)
      && (s1.Some? ==> tail == [])
    }

    function MasterBytes(): seq<Byte> {
      RefusedBytes(m1) + Sealed(m) + [ACK]
    }

    function SlaveBytes(): seq<Byte> {
      RefusedSlaveBytes(s1) + Sealed(f) + [ACK] + tail
    }

    function Bytes(): seq<Byte> {
      MasterBytes() + SlaveBytes()
    }
  }

  function TransferTelegram(m: seq<Byte>, f: seq<Byte>): Tel
    requires MasterFrame(m) && SlaveFrame(f)
  {
    WithSlave(MasterResult(m), f).(masterACK := ACK)
  }

  lemma ParseTransfer(x: Transfer)
    requires x.Valid()
    ensures Parse(x.Bytes()) == TransferTelegram(x.m, x.f)
  {
    hide FrameCrc, IsMaster, KindOf, MasterStage, SlaveStage, Stored;
    MasterStageComplete(x.m1, x.m, x.SlaveBytes());
    SlaveStageComplete(MasterResult(x.m), x.s1, x.f, x.tail);
    assert x.SlaveBytes() == RefusedSlaveBytes(x.s1) + Sealed(x.f) + [ACK] + x.tail;
  }

  lemma ParsedTransfer(s: seq<Byte>) returns (x: Transfer)
    requires Parse(s).kind == MS && Parse(s).IsValid()
    ensures x.Valid() && s == x.Bytes()
  {
    hide FrameCrc, IsMaster, KindOf, Stored, SlaveStage, MasterStage;
    ValidStates(s);
    var m1, m, rest := MasterStageSound(s);
    var s1, f, tail := SlaveStageSound(MasterResult(m), rest);
    x := Transfer(m1, m, s1, f, tail);
    assert rest == x.SlaveBytes();
    assert s == x.Bytes();
    SlaveStageStates(MasterResult(m), rest);
  }

  lemma TakeMasterStates(t: Tel, s: seq<Byte>)
    ensures SEQ_ERR_INVALID <= TakeMaster(t, s).masterState <= SEQ_OK && TakeMaster(t, s).slaveState == t.slaveState
  {
    hide CrcOf, IsMaster, KindOf;
  }

  lemma TakeSlaveStates(t: Tel, s: seq<Byte>)
    ensures TakeSlave(t, s).slaveState <= SEQ_OK && CheckSlave(s) <= SEQ_OK
    ensures TakeSlave(t, s).masterState == t.masterState && TakeSlave(t, s).kind == t.kind
  {
    hide CrcOf;
  }

  lemma MasterRetryStates(t: Tel, s: seq<Byte>)
    requires t.slaveState == SEQ_EMPTY
    ensures var u := MasterRetry(t, s);
            && SEQ_ERR_INVALID <= u.tel.masterState <= SEQ_OK
            && (u.tel.slaveState < SEQ_OK || u.tel.slaveState == SEQ_EMPTY)
            && (u.Acknowledged? ==> u.tel.masterState == SEQ_OK)
  {
    hide TakeMaster;
    TakeMasterStates(t.(master := EMPTY), s);
  }

  lemma MasterStageStates(s: seq<Byte>)
    ensures var u := MasterStage(s);
            && SEQ_ERR_INVALID <= u.tel.masterState <= SEQ_OK
            && (u.tel.slaveState < SEQ_OK || u.tel.slaveState == SEQ_EMPTY)
            && (u.Acknowledged? ==> u.tel.masterState == SEQ_OK)
  {
    hide TakeMaster, MasterRetry;
    TakeMasterStates(CLEARED, s);
    var u := TakeSlaveAck(TakeMaster(CLEARED, s), s);
    if u.slaveState == SEQ_EMPTY && 5 + u.masterNN + 2 <= |s| {
      MasterRetryStates(u, s[5 + u.masterNN + 2..]);
    }
  }

  lemma SlaveRetryStates(t: Tel, s: seq<Byte>)
    requires t.masterState == SEQ_OK
    ensures SlaveRetry(t, s).masterState <= SEQ_OK && SlaveRetry(t, s).slaveState <= SEQ_OK
    ensures SlaveRetry(t, s).kind == t.kind
  {
    hide TakeSlave;
    TakeSlaveStates(t.(slave := EMPTY, slaveState := CheckSlave(s)), s);
  }

  lemma TakeMasterAckStates(t: Tel, s: seq<Byte>)
    ensures var u := TakeMasterAck(t, s);
            && (t.masterState <= SEQ_OK ==> u.masterState <= SEQ_OK)
            && (AckAt(s, 1 + t.slaveNN + 1) ==> u.masterState == t.masterState)
            && u.slaveState == t.slaveState && u.kind == t.kind && u.slaveNN == t.slaveNN
  {
  }

  lemma SlaveStageStates(t: Tel, s: seq<Byte>)
    requires t.masterState == SEQ_OK
    ensures SlaveStage(t, s).masterState <= SEQ_OK && SlaveStage(t, s).slaveState <= SEQ_OK
    ensures SlaveStage(t, s).kind == t.kind
  {
    hide TakeSlave, SlaveRetry, TakeMasterAck, AckAt, CheckSlave;
    TakeSlaveStates(t, s);
    TakeMasterAckStates(TakeSlave(t, s), s);
    var u := TakeMasterAck(TakeSlave(t, s), s);
    if u.masterState == SEQ_OK && 1 + u.slaveNN + 3 <= |s| {
      SlaveRetryStates(u, s[1 + u.slaveNN + 3..]);
    }
  }

  /** Verdicts are zero, negative, or ninety-nine, so their sum is zero only when both are. */
  lemma ValidStates(s: seq<Byte>)
    requires Parse(s).kind == MS && Parse(s).IsValid()
    ensures Parse(s).masterState == SEQ_OK && Parse(s).slaveState == SEQ_OK && MasterStage(s).Acknowledged?
  {
    hide MasterStage, SlaveStage;
    MasterStageStates(s);
    if MasterStage(s).Acknowledged? {
      SlaveStageStates(MasterStage(s).tel, MasterStage(s).rest);
    }
  }

  /** The exact language: valid master-slave telegrams are the transfers. */
  lemma MasterSlaveLanguage(s: seq<Byte>)
    ensures Parse(s).kind == MS && Parse(s).IsValid() <==> exists x: Transfer :: x.Valid() && s == x.Bytes()
  {
    hide Parse;
    if Parse(s).kind == MS && Parse(s).IsValid() {
      var x := ParsedTransfer(s);
    }
    if exists x: Transfer :: x.Valid() && s == x.Bytes() {
      var x: Transfer :| x.Valid() && s == x.Bytes();
      ParseTransfer(x);
    }
  }

  /** A byte string spells out at most one pair of frames. */
  lemma TransferUnique(x: Transfer, y: Transfer)
    requires x.Valid() && y.Valid() && x.Bytes() == y.Bytes()
    ensures x.m == y.m && x.f == y.f
  {
    hide Parse, FrameCrc, IsMaster, KindOf;
    ParseTransfer(x);
    ParseTransfer(y);
    RepresentationKeepsFrame(Buffer(x.m, false));
    RepresentationKeepsFrame(Buffer(y.m, false));
    RepresentationKeepsFrame(Buffer(x.f, false));
    RepresentationKeepsFrame(Buffer(y.f, false));
  }
}

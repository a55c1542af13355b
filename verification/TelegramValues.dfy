/**
 A telegram: the master frame, the slave frame, the acknowledge bytes and the verdicts on both frames. `Tel` is
 its value; the functions specify the operations of the class on a reduced byte string.
 */
module TelegramValues {
  import opened Bytes
  import opened Sequences

  // Verdicts on a frame
  const SEQ_EMPTY := 99
  const SEQ_OK := 0
  const SEQ_ERR_SHORT := -1
  const SEQ_ERR_LONG := -2
  const SEQ_ERR_NN := -3
  const SEQ_ERR_CRC := -4
  const SEQ_ERR_ACK := -5
  const SEQ_ERR_QQ := -6
  const SEQ_ERR_ZZ := -7
  const SEQ_ERR_ACK_MISS := -8
  const SEQ_ERR_INVALID := -9

  datatype Kind = Undefined | BC | MM | MS

  datatype Tel = Tel(
    kind: Kind,
    master: Buffer, masterNN: nat, masterCRC: Byte, masterState: int, slaveACK: Byte,
    slave: Buffer, slaveNN: nat, slaveCRC: Byte, slaveState: int, masterACK: Byte)
  {
    predicate IsValid() {
      if kind != MS then masterState == SEQ_OK else masterState + slaveState == SEQ_OK
    }
  }

  const CLEARED := Tel(Undefined, EMPTY, 0, ZERO, SEQ_EMPTY, ZERO, EMPTY, 0, ZERO, SEQ_EMPTY, ZERO)

  // ---------- Addresses ----------

  predicate MasterNibble(n: Byte) {
    n == 0x0 || n == 0x1 || n == 0x3 || n == 0x7 || n == 0xf
  }

  predicate IsMaster(b: Byte) {
    MasterNibble((b & 0xf0) >> 4) && MasterNibble(b & 0x0f)
  }

  predicate IsSlave(b: Byte) {
    !IsMaster(b) && b != SYN && b != EXP
  }

  /** The slave address that goes with an address; the sum wraps at the byte width. */
  function SlaveAddress(address: Byte): Byte {
    if IsSlave(address) then address else address + 5
  }

  predicate IsAddressValid(b: Byte) {
    b != SYN && b != EXP
  }

  function KindOf(target: Byte): Kind {
    if target == BROAD then BC else if IsMaster(target) then MM else MS
  }

  // ---------- Frames ----------

  function CheckMaster(s: seq<Byte>): int {
    if |s| < 6 then SEQ_ERR_SHORT
    else if !IsMaster(s[0]) then SEQ_ERR_QQ
    else if !IsAddressValid(s[1]) then SEQ_ERR_ZZ
    else if Count(s[4]) > MAX_BYTES then SEQ_ERR_NN
    else if |s| < 5 + Count(s[4]) + 1 then SEQ_ERR_SHORT
    else SEQ_OK
  }

  function CheckSlave(s: seq<Byte>): int {
    if |s| < 2 then SEQ_ERR_SHORT
    else if Count(s[0]) > MAX_BYTES then SEQ_ERR_NN
    else if |s| < 1 + Count(s[0]) + 1 then SEQ_ERR_SHORT
    else SEQ_OK
  }

  /** What keeps `s` from being a master frame with or without its checksum byte. */
  function MasterShape(s: seq<Byte>): int {
    if |s| < 6 then SEQ_ERR_SHORT
    else if !IsMaster(s[0]) then SEQ_ERR_QQ
    else if !IsAddressValid(s[1]) then SEQ_ERR_ZZ
    else if Count(s[4]) > MAX_BYTES then SEQ_ERR_NN
    else if |s| < 5 + Count(s[4]) then SEQ_ERR_SHORT
    else if |s| > 5 + Count(s[4]) + 1 then SEQ_ERR_LONG
    else SEQ_OK
  }

  function SlaveShape(s: seq<Byte>): int {
    if |s| < 2 then SEQ_ERR_SHORT
    else if Count(s[0]) > MAX_BYTES then SEQ_ERR_NN
    else if |s| < 1 + Count(s[0]) then SEQ_ERR_SHORT
    else if |s| > 1 + Count(s[0]) + 1 then SEQ_ERR_LONG
    else SEQ_OK
  }

  /** A frame without a checksum byte gets one and stays reduced; one with a checksum byte is checked and extended. */
  function CreateMaster(t: Tel, s: seq<Byte>): Tel {
    var shape := MasterShape(s);
    if shape != SEQ_OK then t.(masterState := shape)
    else
      var n := Count(s[4]);
      var t' := t.(kind := KindOf(s[1]), masterNN := n);
      if |s| == 5 + n then
        var frame := Buffer(s, false);
        t'.(master := frame, masterCRC := CrcOf(frame), masterState := SEQ_OK)
      else
        var frame := Buffer(s[..5 + n], false);
        t'.(master := frame.Extended(), masterCRC := s[5 + n],
            masterState := if CrcOf(frame) == s[5 + n] then SEQ_OK else SEQ_ERR_CRC)
  }

  function CreateSlave(t: Tel, s: seq<Byte>): Tel {
    var shape := SlaveShape(s);
    if shape != SEQ_OK then t.(slaveState := shape)
    else
      var n := Count(s[0]);
      var t' := t.(slaveNN := n);
      if |s| == 1 + n then
        var frame := Buffer(s, false);
        t'.(slave := frame, slaveCRC := CrcOf(frame), slaveState := SEQ_OK)
      else
        var frame := Buffer(s[..1 + n], false);
        t'.(slave := frame.Extended(), slaveCRC := s[1 + n],
            slaveState := if CrcOf(frame) == s[1 + n] then SEQ_OK else SEQ_ERR_CRC)
  }

  /** The buffer handed to `CreateMaster` afterwards: computing a checksum leaves it extended. */
  function MasterArgument(s: seq<Byte>): Buffer {
    var b := Buffer(s, false);
    if MasterShape(s) == SEQ_OK && |s| == 5 + Count(s[4]) then b.Extended() else b
  }

  function SlaveArgument(s: seq<Byte>): Buffer {
    var b := Buffer(s, false);
    if SlaveShape(s) == SEQ_OK && |s| == 1 + Count(s[0]) then b.Extended() else b
  }

  // ---------- Parsing ----------

  /** Takes the master frame and its checksum off the front of `s`. */
  function TakeMaster(t: Tel, s: seq<Byte>): Tel {
    var t0 := t.(masterState := CheckMaster(s));
    if t0.masterState != SEQ_OK then t0 else CreateMaster(t0, s[..5 + Count(s[4]) + 1])
  }

  function TakeSlave(t: Tel, s: seq<Byte>): Tel {
    var t0 := t.(slaveState := CheckSlave(s));
    if t0.slaveState != SEQ_OK then t0 else CreateSlave(t0, s[..1 + Count(s[0]) + 1])
  }

  predicate AckAt(s: seq<Byte>, i: nat) {
    i < |s| && (s[i] == ACK || s[i] == NAK)
  }

  /** Reads the acknowledge byte that answers the master frame. */
  function TakeSlaveAck(t: Tel, s: seq<Byte>): Tel {
    var i := 5 + t.masterNN + 1;
    if |s| <= i then t.(slaveState := SEQ_ERR_ACK_MISS)
    else
      var u := t.(slaveACK := s[i]);
      if AckAt(s, i) then u else u.(slaveState := SEQ_ERR_ACK)
  }

  /** Reads the acknowledge byte that answers the slave frame. */
  function TakeMasterAck(t: Tel, s: seq<Byte>): Tel {
    var i := 1 + t.slaveNN + 1;
    if |s| <= i then t.(masterState := SEQ_ERR_ACK_MISS)
    else
      var u := t.(masterACK := s[i]);
      if AckAt(s, i) then u else u.(masterState := SEQ_ERR_ACK)
  }

  /** Either the verdict is final, or the master frame was acknowledged and `rest` follows. */
  datatype Stage = Final(tel: Tel) | Acknowledged(tel: Tel, rest: seq<Byte>)

  function MasterStage(s: seq<Byte>): Stage {
    var t := TakeMaster(CLEARED, s);
    if t.masterState != SEQ_OK || t.kind == BC then Final(t)
    else
      var u := TakeSlaveAck(t, s);
      if !AckAt(s, 5 + t.masterNN + 1) then Final(u)
      else if u.slaveACK == NAK then MasterRetry(u, s[5 + t.masterNN + 2..])
      else Acknowledged(u, s[5 + t.masterNN + 2..])
  }

  /** The second copy of the master frame, after a negative acknowledge. */
  function MasterRetry(t0: Tel, s: seq<Byte>): Stage {
    var t := TakeMaster(t0.(master := EMPTY), s);
    if t.masterState != SEQ_OK then Final(t)
    else
      var u := TakeSlaveAck(t, s);
      if !AckAt(s, 5 + t.masterNN + 1) then Final(u)
      else if u.slaveACK == NAK then
        Final(u.(masterState := if |s| > 5 + t.masterNN + 2 then SEQ_ERR_LONG else SEQ_ERR_INVALID))
      else Acknowledged(u, s[5 + t.masterNN + 2..])
  }

  function SlaveStage(t0: Tel, s: seq<Byte>): Tel {
    var t := TakeSlave(t0, s);
    if t.slaveState != SEQ_OK then t
    else
      var u := TakeMasterAck(t, s);
      if !AckAt(s, 1 + t.slaveNN + 1) || u.masterACK == ACK then u
      else if |s| < 1 + t.slaveNN + 3 then u.(slaveState := SEQ_ERR_SHORT)
      else SlaveRetry(u, s[1 + t.slaveNN + 3..])
  }

  /** The second copy of the slave frame, after a negative acknowledge and one more byte. */
  function SlaveRetry(t0: Tel, s: seq<Byte>): Tel {
    var t := t0.(slave := EMPTY, slaveState := CheckSlave(s));
    if t.slaveState != SEQ_OK then t
    else
      var t1 := TakeSlave(t, s);
      var u := TakeMasterAck(t1, s);
      if !AckAt(s, 1 + t1.slaveNN + 1) then u
      else if |s| > 1 + t1.slaveNN + 2 then u.(slaveState := SEQ_ERR_LONG, slave := EMPTY)
      else if u.masterACK == NAK then u.(slaveState := SEQ_ERR_INVALID)
      else u
  }

  function Parse(s: seq<Byte>): Tel {
    match MasterStage(s)
    case Final(t) => t
    case Acknowledged(t, rest) => if t.kind == MS then SlaveStage(t, rest) else t
  }
}

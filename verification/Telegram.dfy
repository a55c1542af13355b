/** The telegram object: its operations change it in place and are proved against the functions on its value. */
module Telegrams {
  import opened Bytes
  import opened Sequences
  import opened TelegramValues

  class Telegram {
    var kind: Kind
    const master: Sequence
    var masterNN: nat
    var masterCRC: Byte
    var masterState: int
    var slaveACK: Byte
    const slave: Sequence
    var slaveNN: nat
    var slaveCRC: Byte
    var slaveState: int
    var masterACK: Byte

    predicate Valid() {
      master != slave
    }

    function View(): Tel
      reads this, master, slave
    {
      Tel(kind, master.View(), masterNN, masterCRC, masterState, slaveACK,
          slave.View(), slaveNN, slaveCRC, slaveState, masterACK)
    }

    constructor ()
      ensures Valid() && fresh(master) && fresh(slave)
      ensures View() == CLEARED
    {
      kind := Undefined;
      master := new Sequence();
      masterNN, masterCRC, masterState, slaveACK := 0, ZERO, SEQ_EMPTY, ZERO;
      slave := new Sequence();
      slaveNN, slaveCRC, slaveState, masterACK := 0, ZERO, SEQ_EMPTY, ZERO;
    }

    constructor Of(t: Tel)
      ensures Valid() && fresh(master) && fresh(slave)
      ensures View() == t
    {
      kind := t.kind;
      master := new Sequence.Of(t.master);
      masterNN, masterCRC, masterState, slaveACK := t.masterNN, t.masterCRC, t.masterState, t.slaveACK;
      slave := new Sequence.Of(t.slave);
      slaveNN, slaveCRC, slaveState, masterACK := t.slaveNN, t.slaveCRC, t.slaveState, t.masterACK;
    }

    method Clear()
      requires Valid()
      modifies this, master, slave
      ensures View() == CLEARED
    {
      kind := Undefined;
      master.Clear();
      masterNN, masterCRC, masterACK, masterState := 0, ZERO, ZERO, SEQ_EMPTY;
      slave.Clear();
      slaveNN, slaveCRC, slaveACK, slaveState := 0, ZERO, ZERO, SEQ_EMPTY;
    }

    method SetKind(target: Byte)
      modifies this`kind
      ensures kind == KindOf(target)
    {
      if target == BROAD {
        kind := BC;
      } else if IsMaster(target) {
        kind := MM;
      } else {
        kind := MS;
      }
    }

    method CreateMaster(seq0: Sequence)
      requires Valid() && seq0 != master && seq0 != slave
      modifies this, master, seq0
      ensures View() == TelegramValues.CreateMaster(old(View()), old(seq0.View()).Logical())
      ensures seq0.View() == MasterArgument(old(seq0.View()).Logical())
    {
      masterState := SEQ_OK;
      seq0.ToReduced();
      if seq0.Size() < 6 {
        masterState := SEQ_ERR_SHORT;
        return;
      }
      if !IsMaster(seq0.At(0)) {
        masterState := SEQ_ERR_QQ;
        return;
      }
      if !IsAddressValid(seq0.At(1)) {
        masterState := SEQ_ERR_ZZ;
        return;
      }
      if Count(seq0.At(4)) > MAX_BYTES {
        masterState := SEQ_ERR_NN;
        return;
      }
      if seq0.Size() < 5 + Count(seq0.At(4)) {
        masterState := SEQ_ERR_SHORT;
        return;
      }
      if seq0.Size() > 5 + Count(seq0.At(4)) + 1 {
        masterState := SEQ_ERR_LONG;
        return;
      }
      StoreMaster(seq0);
    }

    /** The second half of `CreateMaster`: the frame has the right shape and is stored with its checksum. */
    method StoreMaster(seq0: Sequence)
      requires Valid() && seq0 != master && seq0 != slave
      requires !seq0.extended && MasterShape(seq0.bytes) == SEQ_OK && masterState == SEQ_OK
      modifies this, master, seq0
      ensures View() == TelegramValues.CreateMaster(old(View()), old(seq0.bytes))
      ensures seq0.View() == MasterArgument(old(seq0.bytes))
    {
      hide CrcOf, KindOf, IsMaster, Count;
      SetKind(seq0.At(1));
      ghost var frame0 := Buffer(seq0.bytes[..5 + Count(seq0.bytes[4])], false);
      masterNN := Count(seq0.At(4));
      if seq0.Size() == 5 + masterNN {
        assert seq0.View() == frame0;
        master.CopyFrom(seq0);
        masterCRC := seq0.Crc();
      } else {
        var frame := new Sequence.Sub(seq0, 0, 5 + masterNN);
        assert frame.View() == frame0;
        master.CopyFrom(frame);
        masterCRC := seq0.At(5 + masterNN);
        var crc := master.Crc();
        if crc != masterCRC {
          masterState := SEQ_ERR_CRC;
        }
      }
    }

    method CreateSlave(seq0: Sequence)
      requires Valid() && seq0 != master && seq0 != slave
      modifies this, slave, seq0
      ensures View() == TelegramValues.CreateSlave(old(View()), old(seq0.View()).Logical())
      ensures seq0.View() == SlaveArgument(old(seq0.View()).Logical())
    {
      slaveState := SEQ_OK;
      seq0.ToReduced();
      if seq0.Size() < 2 {
        slaveState := SEQ_ERR_SHORT;
        return;
      }
      if Count(seq0.At(0)) > MAX_BYTES {
        slaveState := SEQ_ERR_NN;
        return;
      }
      if seq0.Size() < 1 + Count(seq0.At(0)) {
        slaveState := SEQ_ERR_SHORT;
        return;
      }
      if seq0.Size() > 1 + Count(seq0.At(0)) + 1 {
        slaveState := SEQ_ERR_LONG;
        return;
      }
      StoreSlave(seq0);
    }

    /** The second half of `CreateSlave`. */
    method StoreSlave(seq0: Sequence)
      requires Valid() && seq0 != master && seq0 != slave
      requires !seq0.extended && SlaveShape(seq0.bytes) == SEQ_OK && slaveState == SEQ_OK
      modifies this, slave, seq0
      ensures View() == TelegramValues.CreateSlave(old(View()), old(seq0.bytes))
      ensures seq0.View() == SlaveArgument(old(seq0.bytes))
    {
      hide CrcOf, Count;
      ghost var frame0 := Buffer(seq0.bytes[..1 + Count(seq0.bytes[0])], false);
      slaveNN := Count(seq0.At(0));
      if seq0.Size() == 1 + slaveNN {
        assert seq0.View() == frame0;
        slave.CopyFrom(seq0);
        slaveCRC := seq0.Crc();
      } else {
        var frame := new Sequence.Sub(seq0, 0, 1 + slaveNN);
        assert frame.View() == frame0;
        slave.CopyFrom(frame);
        slaveCRC := seq0.At(1 + slaveNN);
        var crc := slave.Crc();
        if crc != slaveCRC {
          slaveState := SEQ_ERR_CRC;
        }
      }
    }

    /** Builds the master frame of a message to send; the checksum is computed unless the message brings it along. */
    method CreateMasterFrom(src: Byte, vec: seq<Byte>)
      requires Valid()
      modifies this, master
      ensures View() == TelegramValues.CreateMaster(old(View()), [src] + vec)
    {
      var s := new Sequence();
      s.PushBack(src, false);
      var i := 0;
      while i < |vec|
        invariant 0 <= i <= |vec|
        invariant s.View() == Buffer([src] + vec[..i], false)
        invariant View() == old(View())
      {
        s.PushBack(vec[i], false);
        i := i + 1;
      }
      assert vec[..i] == vec;
      CreateMaster(s);
    }

    method CreateSlaveFrom(vec: seq<Byte>)
      requires Valid()
      modifies this, slave
      ensures View() == TelegramValues.CreateSlave(old(View()), vec)
    {
      var s := new Sequence();
      var i := 0;
      while i < |vec|
        invariant 0 <= i <= |vec|
        invariant s.View() == Buffer(vec[..i], false)
        invariant View() == old(View())
      {
        s.PushBack(vec[i], false);
        i := i + 1;
      }
      assert vec[..i] == vec;
      CreateSlave(s);
    }

    /**
     Decodes what was heard between two SYN bytes. The work is divided at the frames and acknowledge bytes of a
     telegram: the master frame, its second copy, the slave frame and its second copy.
     */
    method Parse(seq0: Sequence)
      requires Valid() && seq0 != master && seq0 != slave
      modifies this, master, slave, seq0
      ensures View() == TelegramValues.Parse(old(seq0.View()).Logical())
      ensures seq0.View() == old(seq0.View()).Reduced()
    {
      hide MasterStage, SlaveStage;
      Clear();
      seq0.ToReduced();
      var more, offset := ParseMaster(seq0);
      if more && kind == MS {
        var seq2 := new Sequence.Sub(seq0, offset, 0);
        ParseSlave(seq2);
      }
    }

    method TakeMaster(seq0: Sequence)
      requires Valid() && seq0 != master && seq0 != slave && !seq0.extended
      modifies this, master
      ensures View() == TelegramValues.TakeMaster(old(View()), seq0.bytes)
      ensures masterState == SEQ_OK ==> 5 + masterNN + 1 <= |seq0.bytes|
    {
      masterState := CheckMaster(seq0.bytes);
      if masterState != SEQ_OK {
        return;
      }
      var frame := new Sequence.Sub(seq0, 0, 5 + Count(seq0.At(4)) + 1);
      CreateMaster(frame);
    }

    method TakeSlave(seq0: Sequence, offset: nat)
      requires Valid() && seq0 != master && seq0 != slave && !seq0.extended && offset <= |seq0.bytes|
      modifies this, slave
      ensures View() == TelegramValues.TakeSlave(old(View()), seq0.bytes[offset..])
      ensures slaveState == SEQ_OK ==> offset + 1 + slaveNN + 1 <= |seq0.bytes|
    {
      slaveState := CheckSlave(seq0.bytes[offset..]);
      if slaveState != SEQ_OK {
        return;
      }
      var frame := new Sequence.Sub(seq0, offset, 1 + Count(seq0.At(offset)) + 1);
      assert frame.bytes == seq0.bytes[offset..][..1 + Count(seq0.bytes[offset..][0]) + 1];
      CreateSlave(frame);
    }

    method TakeSlaveAck(seq0: Sequence) returns (ok: bool)
      requires Valid() && seq0 != master && seq0 != slave
      modifies this`slaveACK, this`slaveState
      ensures View() == TelegramValues.TakeSlaveAck(old(View()), seq0.bytes)
      ensures ok == AckAt(seq0.bytes, 5 + masterNN + 1)
    {
      ok := false;
      if seq0.Size() <= 5 + masterNN + 1 {
        slaveState := SEQ_ERR_ACK_MISS;
        return;
      }
      slaveACK := seq0.At(5 + masterNN + 1);
      if slaveACK != ACK && slaveACK != NAK {
        slaveState := SEQ_ERR_ACK;
        return;
      }
      ok := true;
    }

    method TakeMasterAck(seq0: Sequence) returns (ok: bool)
      requires Valid() && seq0 != master && seq0 != slave
      modifies this`masterACK, this`masterState
      ensures View() == TelegramValues.TakeMasterAck(old(View()), seq0.bytes)
      ensures ok == AckAt(seq0.bytes, 1 + slaveNN + 1)
    {
      ok := false;
      if seq0.Size() <= 1 + slaveNN + 1 {
        masterState := SEQ_ERR_ACK_MISS;
        return;
      }
      masterACK := seq0.At(1 + slaveNN + 1);
      if masterACK != ACK && masterACK != NAK {
        masterState := SEQ_ERR_ACK;
        return;
      }
      ok := true;
    }

    method ParseMaster(seq0: Sequence) returns (more: bool, offset: nat)
      requires Valid() && seq0 != master && seq0 != slave
      requires View() == CLEARED && !seq0.extended
      modifies this, master
      ensures View() == MasterStage(seq0.bytes).tel
      ensures more <==> MasterStage(seq0.bytes).Acknowledged?
      ensures more ==> offset <= |seq0.bytes| && MasterStage(seq0.bytes).rest == seq0.bytes[offset..]
    {
      hide TelegramValues.TakeMaster, TelegramValues.MasterRetry;
      more, offset := false, 0;
      TakeMaster(seq0);
      if masterState != SEQ_OK || kind == BC {
        return;
      }
      var ok := TakeSlaveAck(seq0);
      if !ok {
        return;
      }
      offset := 5 + masterNN + 2;
      more := true;
      if slaveACK == NAK {
        var tmp := new Sequence.Sub(seq0, offset, 0);
        var offset2;
        more, offset2 := ParseMasterRetry(tmp);
        if more {
          assert seq0.bytes[offset..][offset2..] == seq0.bytes[offset + offset2..];
        }
        offset := offset + offset2;
      }
    }

    method ParseMasterRetry(tmp: Sequence) returns (more: bool, offset: nat)
      requires Valid() && tmp != master && tmp != slave && !tmp.extended
      modifies this, master
      ensures View() == MasterRetry(old(View()), tmp.bytes).tel
      ensures more <==> MasterRetry(old(View()), tmp.bytes).Acknowledged?
      ensures more ==> offset <= |tmp.bytes| && MasterRetry(old(View()), tmp.bytes).rest == tmp.bytes[offset..]
    {
      hide TelegramValues.TakeMaster;
      more, offset := false, 0;
      master.Clear();
      TakeMaster(tmp);
      if masterState != SEQ_OK {
        return;
      }
      var ok := TakeSlaveAck(tmp);
      if !ok {
        return;
      }
      if slaveACK == NAK {
        if tmp.Size() > 5 + masterNN + 2 {
          masterState := SEQ_ERR_LONG;
        } else {
          masterState := SEQ_ERR_INVALID;
        }
        return;
      }
      more, offset := true, 5 + masterNN + 2;
    }

    method ParseSlave(seq2: Sequence)
      requires Valid() && seq2 != master && seq2 != slave && !seq2.extended
      modifies this, slave
      ensures View() == SlaveStage(old(View()), seq2.bytes)
    {
      hide TelegramValues.CreateSlave;
      assert seq2.bytes[0..] == seq2.bytes;
      TakeSlave(seq2, 0);
      if slaveState != SEQ_OK {
        return;
      }
      var ok := TakeMasterAck(seq2);
      if !ok {
        return;
      }
      if masterACK == NAK {
        if seq2.Size() < 1 + slaveNN + 3 {
          slaveState := SEQ_ERR_SHORT;
          return;
        }
        ParseSlaveRetry(seq2, 1 + slaveNN + 3);
      }
    }

    method ParseSlaveRetry(seq2: Sequence, offset: nat)
      requires Valid() && seq2 != master && seq2 != slave && !seq2.extended && offset <= |seq2.bytes|
      modifies this, slave
      ensures View() == SlaveRetry(old(View()), seq2.bytes[offset..])
    {
      hide TelegramValues.CreateSlave;
      slave.Clear();
      var tmp := new Sequence.Sub(seq2, offset, 0);
      slaveState := CheckSlave(tmp.bytes);
      if slaveState != SEQ_OK {
        return;
      }
      TakeSlave(seq2, offset);
      var ok := TakeMasterAck(tmp);
      if !ok {
        return;
      }
      if tmp.Size() > 1 + slaveNN + 2 {
        slaveState := SEQ_ERR_LONG;
        slave.Clear();
        return;
      }
      if masterACK == NAK {
        slaveState := SEQ_ERR_INVALID;
      }
    }
  }
}

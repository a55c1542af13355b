/** Addresses, spelled out: which ones are masters, their slave addresses, and the kind of telegram to each. */
module Addresses {
  import opened Bytes
  import opened TelegramValues

  /** Only ones, from the low end on. */
  predicate Ones(n: Byte) {
    n & (n + 1) == 0
  }

  /** Both halves of a master address consist of ones from the low end on. */
  predicate MasterByBits(b: Byte) {
    Ones(b >> 4) && Ones(b & 0x0f)
  }

  lemma NibbleExactly(n: Byte)
    ensures n <= 0x0f ==> (MasterNibble(n) <==> Ones(n))
  {
  }

  lemma IsMasterExactly(b: Byte)
    ensures IsMaster(b) <==> MasterByBits(b)
  {
    hide MasterNibble, Ones;
    HalvesOf(b);
    NibbleExactly(b >> 4);
    NibbleExactly(b & 0x0f);
  }

  lemma HalvesOf(b: Byte)
    ensures (b & 0xf0) >> 4 == b >> 4 && b >> 4 <= 0x0f && b & 0x0f <= 0x0f
  {
  }

  // The master addresses, by their first half
  const LOW: seq<Byte> := [0x00, 0x01, 0x03, 0x07, 0x0f]
  const TENS: seq<Byte> := [0x10, 0x11, 0x13, 0x17, 0x1f]
  const THIRTIES: seq<Byte> := [0x30, 0x31, 0x33, 0x37, 0x3f]
  const SEVENTIES: seq<Byte> := [0x70, 0x71, 0x73, 0x77, 0x7f]
  const HIGH: seq<Byte> := [0xf0, 0xf1, 0xf3, 0xf7, 0xff]

  lemma RowsExactly(b: Byte)
    ensures b in LOW <==> b >> 4 == 0x0 && Ones(b & 0x0f)
    ensures b in TENS <==> b >> 4 == 0x1 && Ones(b & 0x0f)
    ensures b in THIRTIES <==> b >> 4 == 0x3 && Ones(b & 0x0f)
    ensures b in SEVENTIES <==> b >> 4 == 0x7 && Ones(b & 0x0f)
    ensures b in HIGH <==> b >> 4 == 0xf && Ones(b & 0x0f)
  {
  }

  /** There are 25 of them. */
  lemma MasterAddresses(b: Byte)
    ensures IsMaster(b) <==> b in LOW + TENS + THIRTIES + SEVENTIES + HIGH
    ensures |LOW| == |TENS| == |THIRTIES| == |SEVENTIES| == |HIGH| == 5
  {
    hide IsMaster, Ones;
    IsMasterExactly(b);
    RowsExactly(b);
    OnesExactly(b >> 4);
    HalvesOf(b);
  }

  lemma OnesExactly(n: Byte)
    ensures n <= 0x0f ==> (Ones(n) <==> n == 0x0 || n == 0x1 || n == 0x3 || n == 0x7 || n == 0xf)
  {
  }

  /** A master's slave address is five higher, and is no master, no framing byte and not the broadcast address. */
  lemma SlaveOfMaster(b: Byte)
    requires IsMaster(b)
    ensures var z := SlaveAddress(b); z == b + 5 && IsSlave(z) && z != 0xaa && z != 0xa9 && z != 0xfe
  {
    assert b & 0x0f != 0x04 && b & 0x0f != 0x05;
  }

  /** No master and no framing byte. */
  predicate SlaveByBits(b: Byte) {
    !MasterByBits(b) && b != 0xaa && b != 0xa9
  }

  /** Whatever the address, its slave address can be one: the address itself, or else the one five higher. */
  lemma SlaveAddressExactly(b: Byte)
    ensures SlaveByBits(SlaveAddress(b)) && SlaveAddress(b) == if SlaveByBits(b) then b else b + 5
  {
    hide IsMaster, MasterByBits;
    IsMasterExactly(b);
    IsMasterExactly(b + 5);
    if IsMaster(b) {
      SlaveOfMaster(b);
    }
    FramingPlusFive();
  }

  lemma FramingPlusFive()
    ensures !IsMaster(0xaf) && !IsMaster(0xae) && 0xaa + 5 == 0xaf as Byte && 0xa9 + 5 == 0xae as Byte
  {
  }

  /** The kind of a telegram by its target address. */
  lemma KindExactly(target: Byte)
    ensures KindOf(target) == if target == 0xfe then BC else if MasterByBits(target) then MM else MS
  {
    IsMasterExactly(target);
    hide IsMaster, MasterByBits;
  }
}

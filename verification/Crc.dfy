/**
 The checksum by bitwise long division over GF(2), most significant bit first, with the divisor
 x^8 + x^7 + x^4 + x^3 + x + 1, and the proof that one table lookup is eight division steps.
 Bit strings and the division register are sequences of booleans.
 */
module Crc {
  import opened Bytes
  import opened CrcTable

  // ---------- Bit strings ----------

  function ByteBits(b: Byte): (r: seq<bool>)
    ensures |r| == 8
  {
    seq(8, i requires 0 <= i < 8 => Bit(b, Mask(i)))
  }

  function Mask(i: nat): Byte
    requires i < 8
  {
    match i
    case 0 => 0x80 case 1 => 0x40 case 2 => 0x20 case 3 => 0x10
    case 4 => 0x08 case 5 => 0x04 case 6 => 0x02 case _ => 0x01
  }

  predicate Bit(b: Byte, mask: Byte) {
    b & mask != 0
  }

  function Weight(bit: bool, w: Byte): Byte {
    if bit then w else 0
  }

  function BitsByte(r: seq<bool>): Byte
    requires |r| == 8
  {
    Weight(r[0], 0x80) | Weight(r[1], 0x40) | Weight(r[2], 0x20) | Weight(r[3], 0x10)
    | Weight(r[4], 0x08) | Weight(r[5], 0x04) | Weight(r[6], 0x02) | Weight(r[7], 0x01)
  }

  function Bits(s: seq<Byte>): (r: seq<bool>)
    ensures |r| == 8 * |s|
  {
    if s == [] then [] else ByteBits(s[0]) + Bits(s[1..])
  }

  function Xor(a: seq<bool>, b: seq<bool>): (r: seq<bool>)
    requires |a| == |b|
    ensures |r| == |a|
  {
    seq(|a|, i requires 0 <= i < |a| => a[i] != b[i])
  }

  function Zeros(n: nat): (r: seq<bool>)
    ensures |r| == n
  {
    seq(n, _ => false)
  }

  // ---------- Long division ----------

  /** The divisor without its leading coefficient. */
  const DIVISOR: seq<bool> := [true, false, false, true, true, false, true, true]

  /** Bring down one bit; subtract the divisor when the coefficient shifted out was set. */
  function BringDown(r: seq<bool>, bit: bool): (r': seq<bool>)
    requires |r| == 8
    ensures |r'| == 8
  {
    seq(8, i requires 0 <= i < 8 => (if i < 7 then r[i + 1] else bit) != (r[0] && DIVISOR[i]))
  }

  function Divide(bits: seq<bool>, r: seq<bool>): (r': seq<bool>)
    requires |r| == 8
    ensures |r'| == 8
  {
    if bits == [] then r else Divide(bits[1..], BringDown(r, bits[0]))
  }

  function Remainder(s: seq<Byte>): Byte {
    BitsByte(Divide(Bits(s), Zeros(8)))
  }

  lemma {:induction false} DivideConcat(a: seq<bool>, b: seq<bool>, r: seq<bool>)
    requires |r| == 8
    ensures Divide(a + b, r) == Divide(b, Divide(a, r))
  {
    if a == [] {
      assert a + b == b;
    } else {
      assert (a + b)[1..] == a[1..] + b;
      DivideConcat(a[1..], b, BringDown(r, a[0]));
    }
  }

  /** Long division is linear over GF(2). */
  lemma {:induction false} DivideLinear(a: seq<bool>, b: seq<bool>, r: seq<bool>, s: seq<bool>)
    requires |a| == |b| && |r| == |s| == 8
    ensures Divide(Xor(a, b), Xor(r, s)) == Xor(Divide(a, r), Divide(b, s))
  {
    if a != [] {
      assert Xor(a, b)[1..] == Xor(a[1..], b[1..]);
      assert BringDown(Xor(r, s), a[0] != b[0]) == Xor(BringDown(r, a[0]), BringDown(s, b[0]));
      DivideLinear(a[1..], b[1..], BringDown(r, a[0]), BringDown(s, b[0]));
    }
  }

  lemma {:induction false} BitsConcat(a: seq<Byte>, b: seq<Byte>)
    ensures Bits(a + b) == Bits(a) + Bits(b)
  {
    if a == [] {
      assert a + b == b;
    } else {
      assert (a + b)[1..] == a[1..] + b;
      BitsConcat(a[1..], b);
    }
  }

  lemma ByteBitsXor(a: Byte, b: Byte)
    ensures ByteBits(a ^ b) == Xor(ByteBits(a), ByteBits(b))
  {
    forall i | 0 <= i < 8
      ensures ByteBits(a ^ b)[i] == Xor(ByteBits(a), ByteBits(b))[i]
    {
      BitXor(a, b, i);
    }
  }

  lemma BitXor(a: Byte, b: Byte, i: nat)
    requires i < 8
    ensures Bit(a ^ b, Mask(i)) == (Bit(a, Mask(i)) != Bit(b, Mask(i)))
  {
    var m := Mask(i);
    assert (a ^ b) & m == (a & m) ^ (b & m);
    assert a & m == 0 || a & m == m;
    assert b & m == 0 || b & m == m;
  }

  lemma BitsByteInverse(b: Byte)
    ensures BitsByte(ByteBits(b)) == b
  {
  }

  lemma ByteBitsInverse(r: seq<bool>)
    requires |r| == 8
    ensures ByteBits(BitsByte(r)) == r
  {
  }

  /** Fewer than nine bits are shorter than the divisor, so they are their own remainder. */
  lemma {:induction false} DivideShort(w: seq<bool>, p: seq<bool>)
    requires |p| + |w| <= 8
    ensures Divide(w, Zeros(8 - |p|) + p) == Zeros(8 - |p| - |w|) + p + w
  {
    if w != [] {
      var p' := p + [w[0]];
      assert BringDown(Zeros(8 - |p|) + p, w[0]) == Zeros(7 - |p|) + p';
      DivideShort(w[1..], p');
      assert p' + w[1..] == p + w;
    } else {
      assert p + w == p;
    }
  }

  // ---------- The table-driven step ----------

  function CalcCrc(byte: Byte, init: Byte): Byte {
    Table(init) ^ byte
  }

  function ShiftReduce(r: Byte): Byte {
    (r << 1) ^ (if r & 0x80 != 0 then 0x9b else 0)
  }

  function Times256(r: Byte): Byte {
    ShiftReduce(ShiftReduce(ShiftReduce(ShiftReduce(ShiftReduce(ShiftReduce(ShiftReduce(ShiftReduce(r))))))))
  }

  lemma TableQuarter0(i: Byte)
    requires i >> 6 == 0
    ensures Table(i) == Times256(i)
  {
    if i >> 4 == 0 {} else if i >> 4 == 1 {} else if i >> 4 == 2 {} else {}
  }

  lemma TableQuarter1(i: Byte)
    requires i >> 6 == 1
    ensures Table(i) == Times256(i)
  {
    if i >> 4 == 4 {} else if i >> 4 == 5 {} else if i >> 4 == 6 {} else {}
  }

  lemma TableQuarter2(i: Byte)
    requires i >> 6 == 2
    ensures Table(i) == Times256(i)
  {
    if i >> 4 == 8 {} else if i >> 4 == 9 {} else if i >> 4 == 10 {} else {}
  }

  lemma TableQuarter3(i: Byte)
    requires i >> 6 == 3
    ensures Table(i) == Times256(i)
  {
    if i >> 4 == 12 {} else if i >> 4 == 13 {} else if i >> 4 == 14 {} else {}
  }

  lemma TableEntry(i: Byte)
    ensures Table(i) == Times256(i)
  {
    if i >> 6 == 0 {
      TableQuarter0(i);
    } else if i >> 6 == 1 {
      TableQuarter1(i);
    } else if i >> 6 == 2 {
      TableQuarter2(i);
    } else {
      TableQuarter3(i);
    }
  }

  lemma ShiftReduceStep(r: Byte)
    ensures ByteBits(ShiftReduce(r)) == BringDown(ByteBits(r), false)
  {
    forall i | 0 <= i < 8
      ensures ByteBits(ShiftReduce(r))[i] == BringDown(ByteBits(r), false)[i]
    {
      ShiftReduceBit(r, i);
    }
  }

  lemma ShiftReduceBit(r: Byte, i: nat)
    requires i < 8
    ensures Bit(ShiftReduce(r), Mask(i)) == ((i < 7 && Bit(r, Mask(i + 1))) != (Bit(r, 0x80) && DIVISOR[i]))
  {
    if Bit(r, 0x80) {
      match i
      case 0 => case 1 => case 2 => case 3 => case 4 => case 5 => case 6 => case _ =>
    } else {
      match i
      case 0 => case 1 => case 2 => case 3 => case 4 => case 5 => case 6 => case _ =>
    }
  }

  lemma DivideEightZeros(r: Byte)
    ensures Divide(Zeros(8), ByteBits(r)) == ByteBits(Times256(r))
  {
    var r1 := ShiftReduce(r);
    var r2 := ShiftReduce(r1);
    var r3 := ShiftReduce(r2);
    var r4 := ShiftReduce(r3);
    var r5 := ShiftReduce(r4);
    var r6 := ShiftReduce(r5);
    var r7 := ShiftReduce(r6);
    DivideZero(r, 7);
    DivideZero(r1, 6);
    DivideZero(r2, 5);
    DivideZero(r3, 4);
    DivideZero(r4, 3);
    DivideZero(r5, 2);
    DivideZero(r6, 1);
    DivideZero(r7, 0);
  }

  lemma DivideZero(r: Byte, n: nat)
    ensures Divide(Zeros(n + 1), ByteBits(r)) == Divide(Zeros(n), ByteBits(ShiftReduce(r)))
  {
    assert Zeros(n + 1)[1..] == Zeros(n);
    ShiftReduceStep(r);
  }

  /** A byte `t` that stands for eight more zero bits of `init` absorbs the next byte by exclusive or. */
  lemma AbsorbByte(t: Byte, b: Byte, init: Byte)
    requires ByteBits(t) == Divide(Zeros(8), ByteBits(init))
    ensures ByteBits(t ^ b) == Divide(ByteBits(b), ByteBits(init))
  {
    var z := Zeros(8);
    DivideLinear(z, ByteBits(b), ByteBits(init), z);
    assert Xor(z, ByteBits(b)) == ByteBits(b) && Xor(ByteBits(init), z) == ByteBits(init);
    DivideShort(ByteBits(b), []);
    assert z + [] == z && Zeros(0) + [] + ByteBits(b) == ByteBits(b);
    ByteBitsXor(t, b);
  }

  /** One table lookup is eight steps of long division. */
  lemma CalcCrcDivides(b: Byte, init: Byte)
    ensures ByteBits(CalcCrc(b, init)) == Divide(ByteBits(b), ByteBits(init))
  {
    TableEntry(init);
    DivideEightZeros(init);
    AbsorbByte(Table(init), b, init);
  }

  lemma RemainderEmpty()
    ensures Remainder([]) == ZERO
  {
  }

  lemma RemainderSnoc(s: seq<Byte>, b: Byte)
    ensures Remainder(s + [b]) == CalcCrc(b, Remainder(s))
  {
    BitsConcat(s, [b]);
    assert Bits([b]) == ByteBits(b);
    DivideConcat(Bits(s), ByteBits(b), Zeros(8));
    ByteBitsInverse(Divide(Bits(s), Zeros(8)));
    CalcCrcDivides(b, Remainder(s));
    BitsByteInverse(CalcCrc(b, Remainder(s)));
  }
}

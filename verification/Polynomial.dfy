/**
 The algebra behind the checksum. A polynomial over GF(2) is the set of the exponents whose coefficient is one,
 addition is the symmetric difference, and the checksum of a message is its one and only remainder of degree
 below eight. Error detection follows from linearity.
 */
module Polynomial {
  import opened Bytes
  import opened Crc

  type Poly = set<nat>

  predicate At(p: Poly, e: int) {
    e >= 0 && e in p
  }

  function Add(p: Poly, q: Poly): Poly {
    (p - q) + (q - p)
  }

  function Shift(p: Poly, k: nat): (r: Poly)
    ensures forall e: int {:trigger At(r, e)} :: At(r, e) <==> At(p, e - k)
  {
    var r: Poly := set e | e in p :: e + k;
    assert forall e: int {:trigger At(r, e)} :: At(p, e - k) ==> At(r, e) by {
      forall e: int | At(p, e - k)
        ensures At(r, e)
      {
        var d: nat := e - k;
        assert d in p && e == d + k;
      }
    }
    r
  }

  /** The product with x^8 + x^7 + x^4 + x^3 + x + 1. */
  function TimesDivisor(q: Poly): Poly {
    Add(Add(Add(q, Shift(q, 1)), Add(Shift(q, 3), Shift(q, 4))), Add(Shift(q, 7), Shift(q, 8)))
  }

  /** The polynomial of a bit string, most significant bit first. */
  function Of(bits: seq<bool>): Poly {
    set e: nat | e < |bits| && Coefficient(bits, e)
  }

  predicate Coefficient(bits: seq<bool>, e: int) {
    0 <= e < |bits| && bits[|bits| - 1 - e]
  }

  ghost predicate IsRemainder(message: Poly, r: Poly) {
    exists q: Poly :: message == Add(TimesDivisor(q), r)
  }

  // ---------- The remainder exists ----------

  predicate Odd6(a: bool, b: bool, c: bool, d: bool, e: bool, f: bool) {
    ((a != b) != (c != d)) != (e != f)
  }

  lemma TimesDivisorAt(q: Poly, e: int)
    ensures At(TimesDivisor(q), e)
        <==> Odd6(At(q, e), At(q, e - 1), At(q, e - 3), At(q, e - 4), At(q, e - 7), At(q, e - 8))
  {
    AddAt(q, Shift(q, 1), e);
    AddAt(Shift(q, 3), Shift(q, 4), e);
    AddAt(Shift(q, 7), Shift(q, 8), e);
    AddAt(Add(q, Shift(q, 1)), Add(Shift(q, 3), Shift(q, 4)), e);
    AddAt(Add(Add(q, Shift(q, 1)), Add(Shift(q, 3), Shift(q, 4))), Add(Shift(q, 7), Shift(q, 8)), e);
  }

  lemma AddAt(p: Poly, q: Poly, e: int)
    ensures At(Add(p, q), e) <==> (At(p, e) != At(q, e))
  {
  }

  lemma AddAssociative(p: Poly, q: Poly, r: Poly)
    ensures Add(p, Add(q, r)) == Add(Add(p, q), r)
  {
  }

  lemma AddExchange(p: Poly, a: Poly, q: Poly, b: Poly)
    requires Add(p, a) == Add(q, b)
    ensures Add(p, q) == Add(a, b)
  {
    forall e: int
      ensures At(Add(p, q), e) == At(Add(a, b), e)
    {
      AddAt(p, a, e);
      AddAt(q, b, e);
      AddAt(p, q, e);
      AddAt(a, b, e);
    }
    SamePoly(Add(p, q), Add(a, b));
  }

  lemma SamePoly(p: Poly, q: Poly)
    requires forall e: int :: At(p, e) == At(q, e)
    ensures p == q
  {
    forall e: nat
      ensures e in p <==> e in q
    {
      assert At(p, e) == At(q, e);
    }
  }

  lemma TimesDivisorLinear(p: Poly, q: Poly)
    ensures TimesDivisor(Add(p, q)) == Add(TimesDivisor(p), TimesDivisor(q))
  {
    var l, r := TimesDivisor(Add(p, q)), Add(TimesDivisor(p), TimesDivisor(q));
    forall e: int
      ensures At(l, e) == At(r, e)
    {
      TimesDivisorAt(Add(p, q), e);
      TimesDivisorAt(p, e);
      TimesDivisorAt(q, e);
      AddAt(TimesDivisor(p), TimesDivisor(q), e);
      AddAt(p, q, e);
      AddAt(p, q, e - 1);
      AddAt(p, q, e - 3);
      AddAt(p, q, e - 4);
      AddAt(p, q, e - 7);
      AddAt(p, q, e - 8);
    }
    SamePoly(l, r);
  }

  lemma OfAt(bits: seq<bool>, e: int)
    ensures At(Of(bits), e) <==> Coefficient(bits, e)
  {
  }

  lemma StepCoefficient(r: seq<bool>, b: bool, d: int)
    requires |r| == 8 && 0 <= d <= 8
    ensures (r + [b])[8 - d]
        <==> ((r[0] && Odd6(d == 0, d == 1, d == 3, d == 4, d == 7, d == 8)) != (d < 8 && BringDown(r, b)[7 - d]))
  {
    if d == 0 {} else if d == 1 {} else if d == 2 {} else if d == 3 {} else if d == 4 {}
    else if d == 5 {} else if d == 6 {} else if d == 7 {} else {}
  }

  lemma SplitCoefficient(a: seq<bool>, t: seq<bool>, e: int)
    ensures Coefficient(a + t, e) <==> if e < |t| then Coefficient(t, e) else Coefficient(a, e - |t|)
  {
  }

  /** One division step subtracts the divisor, shifted, or nothing. */
  lemma StepSubtracts(r: seq<bool>, b: bool, t: seq<bool>)
    requires |r| == 8
    ensures Of(r + [b] + t) == Add(TimesDivisor(if r[0] then {|t|} else {}), Of(BringDown(r, b) + t))
  {
    var q: Poly := if r[0] then {|t|} else {};
    var w, v := r + [b] + t, BringDown(r, b) + t;
    forall e: int
      ensures At(Of(w), e) == At(Add(TimesDivisor(q), Of(v)), e)
    {
      TimesDivisorAt(q, e);
      AddAt(TimesDivisor(q), Of(v), e);
      OfAt(w, e);
      OfAt(v, e);
      SplitCoefficient(r + [b], t, e);
      SplitCoefficient(BringDown(r, b), t, e);
      if 0 <= e - |t| <= 8 {
        StepCoefficient(r, b, e - |t|);
      }
    }
    SamePoly(Of(w), Add(TimesDivisor(q), Of(v)));
  }

  lemma {:induction false} DivideIsRemainder(bits: seq<bool>, r: seq<bool>)
    requires |r| == 8
    ensures IsRemainder(Of(r + bits), Of(Divide(bits, r)))
  {
    if bits == [] {
      assert r + bits == r;
      NoMultiple();
      assert Of(r) == Add(TimesDivisor({}), Of(r));
    } else {
      var b, t := bits[0], bits[1..];
      assert r + bits == r + [b] + t;
      StepSubtracts(r, b, t);
      DivideIsRemainder(t, BringDown(r, b));
      var q :| Of(BringDown(r, b) + t) == Add(TimesDivisor(q), Of(Divide(t, BringDown(r, b))));
      var q0: Poly := if r[0] then {|t|} else {};
      TimesDivisorLinear(q0, q);
      AddAssociative(TimesDivisor(q0), TimesDivisor(q), Of(Divide(bits, r)));
      assert Of(r + bits) == Add(TimesDivisor(Add(q0, q)), Of(Divide(bits, r)));
    }
  }

  lemma NoMultiple()
    ensures TimesDivisor({}) == {}
  {
    forall e: int
      ensures At(TimesDivisor({}), e) == At({}, e)
    {
      TimesDivisorAt({}, e);
    }
    SamePoly(TimesDivisor({}), {});
  }

  // ---------- The remainder is unique ----------

  lemma {:induction false} Degree(p: Poly) returns (m: nat)
    requires p != {}
    ensures m in p && forall e :: e in p ==> e <= m
  {
    var x :| x in p;
    if p == {x} {
      m := x;
    } else {
      var m' := Degree(p - {x});
      m := if x > m' then x else m';
      forall e | e in p
        ensures e <= m
      {
        assert e == x || e in p - {x};
      }
    }
  }

  /** A multiple of the divisor other than zero has degree at least eight. */
  lemma LargeMultiple(q: Poly) returns (e: nat)
    requires q != {}
    ensures e >= 8 && e in TimesDivisor(q)
  {
    var m := Degree(q);
    e := m + 8;
    TimesDivisorAt(q, e);
    assert At(TimesDivisor(q), e);
  }

  lemma OfInjective(a: seq<bool>, b: seq<bool>)
    requires |a| == |b| && Of(a) == Of(b)
    ensures a == b
  {
    forall i | 0 <= i < |a|
      ensures a[i] == b[i]
    {
      var e: nat := |a| - 1 - i;
      assert e in Of(a) <==> a[|a| - 1 - e];
      assert e in Of(b) <==> b[|b| - 1 - e];
    }
  }

  lemma RemainderUnique(message: Poly, a: seq<bool>, b: seq<bool>)
    requires |a| == |b| == 8
    requires IsRemainder(message, Of(a)) && IsRemainder(message, Of(b))
    ensures a == b
  {
    var p :| message == Add(TimesDivisor(p), Of(a));
    var q :| message == Add(TimesDivisor(q), Of(b));
    TimesDivisorLinear(p, q);
    AddExchange(TimesDivisor(p), Of(a), TimesDivisor(q), Of(b));
    if Add(p, q) != {} {
      var e := LargeMultiple(Add(p, q));
    }
    NoMultiple();
    assert Of(a) == Of(b);
    OfInjective(a, b);
  }

  /** The checksum is the remainder of the whole message, and nothing else is. */
  lemma CrcIsRemainder(s: seq<Byte>, c: Byte)
    ensures Remainder(s) == c <==> IsRemainder(Of(Bits(s)), Of(ByteBits(c)))
  {
    var z := Zeros(8);
    var d := Divide(Bits(s), z);
    DivideIsRemainder(Bits(s), z);
    LeadingZeros(Bits(s));
    ByteBitsInverse(d);
    BitsByteInverse(c);
    if IsRemainder(Of(Bits(s)), Of(ByteBits(c))) {
      RemainderUnique(Of(Bits(s)), d, ByteBits(c));
    }
  }

  lemma LeadingZeros(bits: seq<bool>)
    ensures Of(Zeros(8) + bits) == Of(bits)
  {
    var w := Zeros(8) + bits;
    forall e: nat
      ensures e in Of(w) <==> e in Of(bits)
    {
      if e < |bits| {
        assert w[|w| - 1 - e] == bits[|bits| - 1 - e];
      } else if e < |w| {
        assert w[|w| - 1 - e] == Zeros(8)[|w| - 1 - e];
      }
    }
  }

  // ---------- Error detection ----------

  /** Whether an odd number of bits is set. */
  predicate Odd(bits: seq<bool>) {
    if bits == [] then false else bits[0] != Odd(bits[1..])
  }

  lemma {:induction false} OddConcat(a: seq<bool>, b: seq<bool>)
    ensures Odd(a + b) == (Odd(a) != Odd(b))
  {
    if a == [] {
      assert a + b == b;
    } else {
      assert (a + b)[1..] == a[1..] + b;
      OddConcat(a[1..], b);
    }
  }

  lemma {:induction false} OddXor(a: seq<bool>, b: seq<bool>)
    requires |a| == |b|
    ensures Odd(Xor(a, b)) == (Odd(a) != Odd(b))
  {
    if a != [] {
      assert Xor(a, b)[1..] == Xor(a[1..], b[1..]);
      OddXor(a[1..], b[1..]);
    }
  }

  lemma OddByte(r: seq<bool>)
    requires |r| == 8
    ensures Odd(r) == (((r[0] != r[1]) != (r[2] != r[3])) != ((r[4] != r[5]) != (r[6] != r[7])))
  {
    assert r[1..][1..] == r[2..];
    assert r[2..][1..] == r[3..];
    assert r[3..][1..] == r[4..];
    assert r[4..][1..] == r[5..];
    assert r[5..][1..] == r[6..];
    assert r[6..][1..] == r[7..];
    assert r[7..][1..] == [];
    assert Odd(r[4..]) == ((r[4] != r[5]) != (r[6] != r[7])) by {
      assert Odd(r[7..]) == r[7];
      assert Odd(r[6..]) == (r[6] != r[7]);
    }
    assert Odd(r[2..]) == ((r[2] != r[3]) != Odd(r[4..]));
  }

  /** The divisor has an even number of terms, so division preserves bit parity. */
  lemma {:induction false} DivideParity(bits: seq<bool>, r: seq<bool>)
    requires |r| == 8
    ensures Odd(Divide(bits, r)) == (Odd(bits) != Odd(r))
  {
    if bits != [] {
      var r' := BringDown(r, bits[0]);
      DivideParity(bits[1..], r');
      OddByte(r);
      OddByte(r');
    }
  }

  /** The difference of two messages that carry their right checksums divides to the difference of the checksums. */
  lemma DifferenceDivides(s: seq<Byte>, s': seq<Byte>)
    requires |s| == |s'|
    ensures Divide(Xor(Bits(s), Bits(s')), Zeros(8)) == Xor(ByteBits(Remainder(s)), ByteBits(Remainder(s')))
  {
    var z := Zeros(8);
    assert Xor(z, z) == z;
    DivideLinear(Bits(s), Bits(s'), z, z);
    ByteBitsInverse(Divide(Bits(s), z));
    ByteBitsInverse(Divide(Bits(s'), z));
  }

  /** Every odd number of flipped bits in a message and its checksum is detected, at every length. */
  lemma OddErrorDetected(s: seq<Byte>, c: Byte, s': seq<Byte>, c': Byte)
    requires |s| == |s'| && Remainder(s) == c
    requires Odd(Xor(Bits(s + [c]), Bits(s' + [c'])))
    ensures Remainder(s') != c'
  {
    var e, f := Xor(Bits(s), Bits(s')), Xor(ByteBits(c), ByteBits(c'));
    CodewordDifference(s, c, s', c');
    OddConcat(e, f);
    if Remainder(s') == c' {
      DifferenceDivides(s, s');
      DivideParity(e, Zeros(8));
      OddByte(Zeros(8));
      assert false;
    }
  }

  lemma CodewordDifference(s: seq<Byte>, c: Byte, s': seq<Byte>, c': Byte)
    requires |s| == |s'|
    ensures Xor(Bits(s + [c]), Bits(s' + [c'])) == Xor(Bits(s), Bits(s')) + Xor(ByteBits(c), ByteBits(c'))
  {
    BitsConcat(s, [c]);
    BitsConcat(s', [c']);
    assert Bits([c]) == ByteBits(c) && Bits([c']) == ByteBits(c');
  }

  /** All the bits that are set lie in the eight positions from `p`. */
  predicate Burst(bits: seq<bool>, p: int) {
    forall i :: 0 <= i < |bits| && bits[i] ==> p <= i < p + 8
  }

  lemma {:induction false} DivideZeros(n: nat, r: seq<bool>)
    requires |r| == 8
    ensures Divide(Zeros(n), r) == Zeros(8) <==> r == Zeros(8)
  {
    if n > 0 {
      var r' := BringDown(r, false);
      assert Zeros(n)[1..] == Zeros(n - 1);
      DivideZeros(n - 1, r');
      StepInjective(r);
    }
  }

  /** Multiplication by x is injective modulo the divisor. */
  lemma StepInjective(r: seq<bool>)
    requires |r| == 8
    ensures BringDown(r, false) == Zeros(8) <==> r == Zeros(8)
  {
    var r' := BringDown(r, false);
    if r' == Zeros(8) {
      assert r'[7] == r[0];
      forall i | 0 <= i < 8
        ensures r[i] == Zeros(8)[i]
      {
        if i > 0 {
          assert r'[i - 1] == r[i];
        }
      }
    }
  }

  lemma DivideBurst(a: seq<bool>, w: seq<bool>, t: seq<bool>)
    requires |w| <= 8 && a == Zeros(|a|)
    ensures Divide(a + w + t, Zeros(8)) == Divide(t, Zeros(8 - |w|) + w)
  {
    var z := Zeros(8);
    DivideConcat(a + w, t, z);
    DivideConcat(a, w, z);
    DivideZeros(|a|, z);
    DivideShort(w, []);
    assert z + [] == z;
    assert Zeros(8 - |w|) + [] + w == Zeros(8 - |w|) + w;
  }

  lemma TailOfZeros(w: seq<bool>)
    requires |w| <= 8 && Zeros(8 - |w|) + w == Zeros(8)
    ensures w == Zeros(|w|)
  {
    assert w == (Zeros(8 - |w|) + w)[8 - |w|..];
    assert Zeros(|w|) == Zeros(8)[8 - |w|..];
  }

  /** A burst of at most eight bits that divides to zero is zero. */
  lemma BurstRemainder(a: seq<bool>, w: seq<bool>, t: seq<bool>)
    requires |w| <= 8 && a == Zeros(|a|) && t == Zeros(|t|)
    requires Divide(a + w + t, Zeros(8)) == Zeros(8)
    ensures w == Zeros(|w|)
  {
    hide Divide, Zeros;
    DivideBurst(a, w, t);
    DivideZeros(|t|, Zeros(8 - |w|) + w);
    TailOfZeros(w);
  }

  /** Every change confined to eight consecutive bits of a message and its checksum is detected, at every length. */
  lemma BurstDetected(s: seq<Byte>, c: Byte, s': seq<Byte>, c': Byte, p: nat)
    requires |s| == |s'| && Remainder(s) == c
    requires s + [c] != s' + [c']
    requires Burst(Xor(Bits(s + [c]), Bits(s' + [c'])), p)
    ensures Remainder(s') != c'
  {
    if Remainder(s') == c' {
      var e, f := Xor(Bits(s), Bits(s')), Xor(ByteBits(c), ByteBits(c'));
      CodewordDifference(s, c, s', c');
      DifferenceDivides(s, s');
      assert Burst(e + f, p);
      assert Divide(e, Zeros(8)) == f;
      UndetectedBurst(e, f, p);
      BitsInjective(s, s');
      ByteBitsInjective(c, c');
      assert false;
    }
  }

  lemma UndetectedBurst(e: seq<bool>, f: seq<bool>, p: nat)
    requires |f| == 8 && Burst(e + f, p) && Divide(e, Zeros(8)) == f
    ensures e == Zeros(|e|) && f == Zeros(8)
  {
    BurstPart(e, f, p);
    var a, w, t := BurstWindow(e, p);
    if p + 8 <= |e| {
      BurstRemainder(a, w, t);
    } else {
      StraddlingBurst(a, w, t, f);
    }
    ZeroParts(a, w, t);
  }

  lemma BurstWindow(e: seq<bool>, p: nat) returns (a: seq<bool>, w: seq<bool>, t: seq<bool>)
    requires Burst(e, p)
    ensures e == a + w + t && a == Zeros(|a|) && t == Zeros(|t|)
    ensures |w| == if p + 8 <= |e| then 8 else if p <= |e| then |e| - p else 0
    ensures p + 8 > |e| ==> t == []
  {
    var lo := if p < |e| then p else |e|;
    var hi := if p + 8 < |e| then p + 8 else |e|;
    a, w, t := e[..lo], e[lo..hi], e[hi..];
  }

  lemma ZeroParts(a: seq<bool>, w: seq<bool>, t: seq<bool>)
    requires a == Zeros(|a|) && w == Zeros(|w|) && t == Zeros(|t|)
    ensures a + w + t == Zeros(|a + w + t|)
  {
  }

  lemma BurstPart(e: seq<bool>, f: seq<bool>, p: nat)
    requires |f| == 8 && Burst(e + f, p)
    ensures Burst(e, p)
    ensures forall i :: 0 <= i < 8 && f[i] ==> p <= |e| + i < p + 8
    ensures p + 8 <= |e| ==> f == Zeros(8)
  {
    forall i | 0 <= i < |e| && e[i]
      ensures p <= i < p + 8
    {
      assert (e + f)[i];
    }
    forall i | 0 <= i < 8 && f[i]
      ensures p <= |e| + i < p + 8
    {
      assert (e + f)[|e| + i];
    }
  }

  lemma StraddlingBurst(a: seq<bool>, w: seq<bool>, t: seq<bool>, f: seq<bool>)
    requires |w| <= 8 && |f| == 8 && a == Zeros(|a|) && t == []
    requires Divide(a + w + t, Zeros(8)) == f
    requires forall i :: 8 - |w| <= i < 8 ==> !f[i]
    ensures w == Zeros(|w|) && f == Zeros(8)
  {
    DivideBurst(a, w, t);
    assert f == Zeros(8 - |w|) + w;
    forall i | 0 <= i < |w|
      ensures w[i] == Zeros(|w|)[i]
    {
      assert f[8 - |w| + i] == w[i];
    }
  }

  lemma {:induction false} BitsInjective(s: seq<Byte>, s': seq<Byte>)
    requires |s| == |s'| && Xor(Bits(s), Bits(s')) == Zeros(8 * |s|)
    ensures s == s'
  {
    if s != [] {
      var e := Xor(Bits(s), Bits(s'));
      assert Bits(s)[..8] == ByteBits(s[0]) && Bits(s')[..8] == ByteBits(s'[0]);
      assert Xor(ByteBits(s[0]), ByteBits(s'[0])) == e[..8] == Zeros(8);
      ByteBitsInjective(s[0], s'[0]);
      assert Xor(Bits(s[1..]), Bits(s'[1..])) == e[8..] == Zeros(8 * |s[1..]|);
      BitsInjective(s[1..], s'[1..]);
    }
  }

  lemma ByteBitsInjective(a: Byte, b: Byte)
    requires Xor(ByteBits(a), ByteBits(b)) == Zeros(8)
    ensures a == b
  {
    assert ByteBits(a) == ByteBits(b) by {
      forall i | 0 <= i < 8
        ensures ByteBits(a)[i] == ByteBits(b)[i]
      {
        assert Xor(ByteBits(a), ByteBits(b))[i] == Zeros(8)[i];
      }
    }
    BitsByteInverse(a);
    BitsByteInverse(b);
  }

  /** In particular, a change confined to one byte of the message is detected. */
  lemma ByteErrorDetected(s: seq<Byte>, k: nat, b: Byte)
    requires k < |s| && b != s[k]
    ensures Remainder(s[k := b]) != Remainder(s)
  {
    var s', c := s[k := b], Remainder(s);
    var x, x' := s + [c], s' + [c];
    assert x == s[..k] + [s[k]] + (s[k + 1..] + [c]);
    assert x' == s[..k] + [b] + (s[k + 1..] + [c]);
    SurroundedBits(s[..k], s[k], s[k + 1..] + [c]);
    SurroundedBits(s[..k], b, s[k + 1..] + [c]);
    assert x[k] != x'[k];
    BurstDetected(s, c, s', c, 8 * k);
  }

  lemma SurroundedBits(a: seq<Byte>, b: Byte, t: seq<Byte>)
    ensures Bits(a + [b] + t) == Bits(a) + ByteBits(b) + Bits(t)
  {
    BitsConcat(a + [b], t);
    BitsConcat(a, [b]);
    assert Bits([b]) == ByteBits(b);
  }
}

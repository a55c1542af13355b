/**
 The escape coding of the wire: SYN travels as EXP 01 and EXP as EXP 00. `Extend` and `Reduce` are the
 specifications of the two in-place conversions of the byte buffer; the lemmas relate them to each other.
 */
module Escape {
  import opened Bytes

  function Code(b: Byte): (r: seq<Byte>)
    ensures 1 <= |r| <= 2
  {
    if b == SYN then [EXP, SYNEXP] else if b == EXP then [EXP, EXPEXP] else [b]
  }

  function Extend(s: seq<Byte>): seq<Byte> {
    if s == [] then [] else Code(s[0]) + Extend(s[1..])
  }

  /** The byte decoded from the one that follows an escape. */
  function Decoded(b: Byte): Byte {
    if b == SYNEXP then SYN else EXP
  }

  /** What is decoded from `s` when the byte before it was an escape (`esc`) or was not. */
  function ReduceFrom(s: seq<Byte>, esc: bool): seq<Byte> {
    if s == [] then []
    else if Escaped(s[0]) then ReduceFrom(s[1..], true)
    else if esc then [Decoded(s[0])] + ReduceFrom(s[1..], false)
    else [s[0]] + ReduceFrom(s[1..], false)
  }

  function Reduce(s: seq<Byte>): seq<Byte> {
    ReduceFrom(s, false)
  }

  /** The escape flag left behind after reading `s`. */
  function Pending(s: seq<Byte>, esc: bool): bool {
    if s == [] then esc else Escaped(s[|s| - 1])
  }

  /** No SYN, and every EXP is followed by 00 or 01: the wire images of byte strings. */
  predicate WellFormed(s: seq<Byte>) {
    NoSyn(s) && forall i :: 0 <= i < |s| && s[i] == EXP ==> i + 1 < |s| && (s[i + 1] == SYNEXP || s[i + 1] == EXPEXP)
  }

  /** Number of SYN and EXP bytes. */
  function Escapes(s: seq<Byte>): nat {
    if s == [] then 0 else (if Escaped(s[0]) then 1 else 0) + Escapes(s[1..])
  }

  lemma {:induction false} ExtendConcat(a: seq<Byte>, b: seq<Byte>)
    ensures Extend(a + b) == Extend(a) + Extend(b)
  {
    if a == [] {
      assert a + b == b;
    } else {
      assert (a + b)[1..] == a[1..] + b;
      ExtendConcat(a[1..], b);
    }
  }

  lemma ExtendSnoc(s: seq<Byte>, b: Byte)
    ensures Extend(s + [b]) == Extend(s) + Code(b)
  {
    ExtendConcat(s, [b]);
    assert [b][1..] == [];
  }

  lemma {:induction false} ReduceConcat(a: seq<Byte>, b: seq<Byte>, esc: bool)
    ensures ReduceFrom(a + b, esc) == ReduceFrom(a, esc) + ReduceFrom(b, Pending(a, esc))
  {
    if a == [] {
      assert a + b == b;
    } else {
      assert (a + b)[1..] == a[1..] + b;
      var esc' := Escaped(a[0]);
      ReduceConcat(a[1..], b, esc');
    }
  }

  lemma ReduceCode(b: Byte, rest: seq<Byte>)
    ensures Reduce(Code(b) + rest) == [b] + Reduce(rest)
  {
    var w := Code(b) + rest;
    if Escaped(b) {
      assert w[1..] == [Code(b)[1]] + rest;
      assert w[1..][1..] == rest;
      assert ReduceFrom(w, false) == ReduceFrom(w[1..], true);
      assert ReduceFrom(w[1..], true) == [Decoded(Code(b)[1])] + ReduceFrom(rest, false);
    } else {
      assert w[1..] == rest;
    }
  }

  /** Decoding undoes encoding, whatever follows on the wire. */
  lemma {:induction false} ReduceExtendPrefix(s: seq<Byte>, rest: seq<Byte>)
    ensures Reduce(Extend(s) + rest) == s + Reduce(rest)
  {
    if s == [] {
      assert Extend(s) + rest == rest;
      assert s + Reduce(rest) == Reduce(rest);
    } else {
      var tail := Extend(s[1..]) + rest;
      assert Extend(s) + rest == Code(s[0]) + tail;
      ReduceExtendPrefix(s[1..], rest);
      ReduceCode(s[0], tail);
      assert s + Reduce(rest) == [s[0]] + (s[1..] + Reduce(rest));
    }
  }

  lemma ReduceExtend(s: seq<Byte>)
    ensures Reduce(Extend(s)) == s
  {
    ReduceExtendPrefix(s, []);
    assert Extend(s) + [] == Extend(s) && s + [] == s;
  }

  lemma ExtendInjective(a: seq<Byte>, b: seq<Byte>)
    requires Extend(a) == Extend(b)
    ensures a == b
  {
    ReduceExtend(a);
    ReduceExtend(b);
  }

  /** The wire image has no SYN, one extra byte for each SYN or EXP, and never ends inside an escape. */
  lemma {:induction false} ExtendShape(s: seq<Byte>)
    ensures WellFormed(Extend(s))
    ensures |Extend(s)| == |s| + Escapes(s)
    ensures !Pending(Extend(s), false)
  {
    if s != [] {
      ExtendShape(s[1..]);
      var c, t := Code(s[0]), Extend(s[1..]);
      assert Extend(s) == c + t;
      forall i | 0 <= i < |c + t|
        ensures (c + t)[i] != SYN
        ensures (c + t)[i] == EXP ==> i + 1 < |c + t| && ((c + t)[i + 1] == SYNEXP || (c + t)[i + 1] == EXPEXP)
      {
        if i >= |c| {
          assert (c + t)[i] == t[i - |c|];
          assert t[i - |c|] == EXP ==> (c + t)[i + 1] == t[i - |c| + 1];
        }
      }
    }
  }

  /** Encoding leaves exactly the strings without SYN and EXP unchanged. */
  lemma {:induction false} ExtendFixedPoint(s: seq<Byte>)
    ensures Extend(s) == s <==> NoEscaped(s)
  {
    if s != [] {
      ExtendFixedPoint(s[1..]);
      if NoEscaped(s) {
        assert NoEscaped(s[1..]);
        assert s == [s[0]] + s[1..];
      } else {
        ExtendShape(s);
        EscapesNone(s);
      }
    }
  }

  lemma {:induction false} EscapesNone(s: seq<Byte>)
    ensures Escapes(s) == 0 <==> NoEscaped(s)
  {
    if s != [] {
      EscapesNone(s[1..]);
      assert NoEscaped(s) <==> !Escaped(s[0]) && NoEscaped(s[1..]) by {
        assert s == [s[0]] + s[1..];
      }
    }
  }

  /** Encoding undoes decoding exactly on the wire images. */
  lemma {:induction false} ExtendReduce(s: seq<Byte>)
    ensures Extend(Reduce(s)) == s <==> WellFormed(s)
  {
    if WellFormed(s) {
      ExtendReduceWellFormed(s);
    } else {
      ExtendShape(Reduce(s));
    }
  }

  lemma {:induction false} ExtendReduceWellFormed(s: seq<Byte>)
    requires WellFormed(s)
    ensures Extend(Reduce(s)) == s
  {
    if s == [] {
    } else if s[0] == EXP {
      var c, t := s[..2], s[2..];
      assert s == c + t && WellFormed(t);
      ExtendReduceWellFormed(t);
      var b := Decoded(s[1]);
      assert Code(b) == c;
      ReduceCode(b, t);
    } else {
      assert WellFormed(s[1..]);
      ExtendReduceWellFormed(s[1..]);
      assert Reduce(s) == [s[0]] + Reduce(s[1..]);
      assert s == [s[0]] + s[1..];
    }
  }

  /** Decoding drops one byte for each SYN or EXP, and nothing else. */
  lemma {:induction false} ReduceLength(s: seq<Byte>, esc: bool)
    ensures |ReduceFrom(s, esc)| + Escapes(s) == |s|
  {
    if s != [] {
      ReduceLength(s[1..], Escaped(s[0]));
    }
  }

  /** The escape codes in numbers. */
  lemma CodesExactly(b: Byte)
    ensures Extend([b]) == if b == 0xaa then [0xa9, 0x01] else if b == 0xa9 then [0xa9, 0x00] else [b]
    ensures Reduce([0xa9, b]) == if b == 0x01 then [0xaa] else if b == 0xaa || b == 0xa9 then [] else [0xa9]
  {
    assert [b][1..] == [] && [0xa9 as Byte, b][1..] == [b];
    assert b == 0xaa || b == 0xa9 || Code(b) == [b];
    var w := [0xa9 as Byte, b];
    assert ReduceFrom(w, false) == ReduceFrom(w[1..], true);
    assert [b] + [] == [b] && ReduceFrom([b], true) == if Escaped(b) then [] else [Decoded(b)];
  }
}

/**
 What the counterpart gets. Frames and responses are sent as they are stored, without expanding them, and the
 counterpart counts bytes and decodes what it counted. Here is the exact condition under which that gives the frame
 that was meant: for a broadcast at every participant, for a message at the addressed one, and for a response at the
 participant that asked.
 */
module Receiving {
  import opened Wrappers
  import opened Bytes
  import opened Escape
  import opened Sequences
  import opened TelegramValues
  import opened Language
  import opened Roundtrip
  import opened BusModel
  import opened Machine
  import opened Runs
  import opened Framing
  import opened Transfers
  import opened Monitoring
  import opened Cooperation
  import opened Agreement
  import Delivery
  import Responses

  // ---------- Counting past the end ----------

  lemma {:induction false} EscapesOnly(s: seq<Byte>, esc: bool)
    requires Units(s) == 0
    ensures ReduceFrom(s, esc) == []
  {
    ReduceLength(s, esc);
    ReduceLength(s, false);
  }

  lemma SynsCons(n: nat)
    requires n > 0
    ensures Syns(n) == [SYN] + Syns(n - 1)
  {
  }

  lemma {:induction false} SynsDecode(n: nat, esc: bool)
    ensures ReduceFrom(Syns(n), esc) == []
    decreases n
  {
    if n > 0 {
      SynsCons(n);
      assert Syns(n)[1..] == Syns(n - 1);
      SynsDecode(n - 1, true);
    }
  }

  lemma {:induction false} SynsShortest(n: nat)
    ensures Shortest(Syns(n), n)
    decreases n
  {
    if n > 0 {
      SynsCons(n);
      SynsShortest(n - 1);
      ShortestCons(SYN, Syns(n - 1), n);
    } else {
      UnitsCons(SYN, []);
    }
  }

  /**
   A loop that counts beyond the end of `g` takes SYN bytes instead, which decode to nothing: what it took decodes to
   what `g` decodes to.
   */
  lemma {:induction false} Silenced(g: seq<Byte>, r: nat, k: nat) returns (p: seq<Byte>, tail: seq<Byte>)
    requires Units(g) <= r <= Units(g) + k
    ensures p + tail == g + Syns(k) && Shortest(p, r)
    ensures forall esc :: ReduceFrom(p, esc) == ReduceFrom(g, esc)
    ensures r > Units(g) ==> tail == Syns(k - (r - Units(g)))
    decreases |g|
  {
    hide Shortest, Units;
    if g == [] {
      UnitsCons(SYN, []);
      p, tail := Syns(r), Syns(k - r);
      SynsShortest(r);
      SynsDecode(r, false);
      SynsDecode(r, true);
      assert Syns(r) + Syns(k - r) == [] + Syns(k);
    } else if r == 0 {
      p, tail := [], g + Syns(k);
      EscapesOnly(g, false);
      EscapesOnly(g, true);
      NothingCounted();
    } else {
      var x, g' := g[0], g[1..];
      assert g == [x] + g';
      UnitsCons(x, g');
      var p';
      p', tail := Silenced(g', if x == EXP then r else r - 1, k);
      p := [x] + p';
      ShortestCons(x, p', r);
      assert p + tail == [x] + (p' + tail) && g + Syns(k) == [x] + (g' + Syns(k));
      assert p[1..] == p';
    }
  }

  /** A loop that counts to fewer units takes a part. */
  lemma {:induction false} Cut(g: seq<Byte>, r: nat) returns (p: seq<Byte>, tail: seq<Byte>)
    requires r <= Units(g)
    ensures g == p + tail && Shortest(p, r)
    decreases |g|
  {
    hide Shortest, Units;
    if r == 0 {
      p, tail := [], g;
      NothingCounted();
    } else {
      assert g != [] by {
        UnitsCons(SYN, []);
      }
      var x, g' := g[0], g[1..];
      assert g == [x] + g';
      UnitsCons(x, g');
      var p';
      p', tail := Cut(g', if x == EXP then r else r - 1);
      p := [x] + p';
      ShortestCons(x, p', r);
      assert g == [x] + (p' + tail) == p + tail;
    }
  }

  /** A loop that counts to more units than there are bytes ends with the exception of the read that fails. */
  lemma {:induction false} RunsOut(g: seq<Byte>, r: nat, rest: seq<Input>)
    requires Units(g) < r && (rest == [] || !rest[0].Data?)
    ensures Take(Datas(g) + rest, r).signal.Some?
    decreases |g|
  {
    if g == [] {
      assert Datas(g) + rest == rest;
    } else {
      hide Take, Units, Datas;
      var x, g' := g[0], g[1..];
      assert g == [x] + g';
      UnitsCons(x, g');
      DatasCons(x, g', rest);
      TakeCons(x, Datas(g') + rest, r);
      RunsOut(g', if x == EXP then r else r - 1, rest);
    }
  }

  // ---------- Frames that survive unexpanded ----------

  /** The only SYN or EXP is followed by nothing, or by copies of a byte that stands for it after an escape. */
  predicate Mends(f: seq<Byte>, i: nat)
    requires i < |f|
  {
    && Escaped(f[i]) && NoEscaped(f[..i]) && NoEscaped(f[i + 1..])
    && forall j :: i < j < |f| ==> f[j] == f[|f| - 1] && Decoded(f[j]) == f[i]
  }

  predicate Mended(f: seq<Byte>) {
    exists i :: 0 <= i < |f| && Mends(f, i)
  }

  lemma {:induction false} OnlyEscape(f: seq<Byte>) returns (i: nat)
    requires Escapes(f) == 1
    ensures i < |f| && Escaped(f[i]) && NoEscaped(f[..i]) && NoEscaped(f[i + 1..])
  {
    if Escaped(f[0]) {
      i := 0;
      EscapesNone(f[1..]);
    } else {
      var k := OnlyEscape(f[1..]);
      i := k + 1;
      assert f[i + 1..] == f[1..][k + 1..];
      assert f[..i] == [f[0]] + f[1..][..k];
    }
  }

  /** A SYN or EXP followed by plain bytes decodes to one byte less. */
  lemma AfterEscape(x: Byte, y: seq<Byte>)
    requires Escaped(x) && NoEscaped(y)
    ensures Reduce([x] + y) == if y == [] then [] else [Decoded(y[0])] + y[1..]
  {
    assert ([x] + y)[1..] == y;
    assert ReduceFrom([x] + y, false) == ReduceFrom(y, true);
    if y != [] {
      PlainDecoded(y[1..]);
      assert !Escaped(y[0]);
    }
  }

  lemma PlainDecoded(y: seq<Byte>)
    requires NoEscaped(y)
    ensures Reduce(y) == y
  {
    ExtendFixedPoint(y);
    ReduceExtend(y);
  }

  lemma OneEscapeDecoded(a: seq<Byte>, x: Byte, y: seq<Byte>)
    requires NoEscaped(a) && NoEscaped(y) && Escaped(x)
    ensures Reduce(a + [x] + y) == a + if y == [] then [] else [Decoded(y[0])] + y[1..]
  {
    hide Reduce, NoEscaped;
    assert a + [x] + y == a + ([x] + y);
    ReducePlain(a, [x] + y);
    AfterEscape(x, y);
  }

  /** Shifting by one byte changes nothing exactly when all bytes are the same. */
  lemma AllSame(y: seq<Byte>)
    requires y != []
    ensures y[1..] == y[..|y| - 1] <==> forall j :: 0 <= j < |y| ==> y[j] == y[|y| - 1]
  {
    if y[1..] == y[..|y| - 1] {
      AllSameFrom(y, 0);
    }
    if forall j :: 0 <= j < |y| ==> y[j] == y[|y| - 1] {
      SameShifted(y);
    }
  }

  lemma SameShifted(y: seq<Byte>)
    requires y != [] && forall j :: 0 <= j < |y| ==> y[j] == y[|y| - 1]
    ensures y[1..] == y[..|y| - 1]
  {
  }

  lemma {:induction false} AllSameFrom(y: seq<Byte>, i: nat)
    requires i < |y| && y[1..] == y[..|y| - 1]
    ensures forall j :: i <= j < |y| ==> y[j] == y[|y| - 1]
    decreases |y| - i
  {
    if i + 1 < |y| {
      AllSameFrom(y, i + 1);
      assert y[1..][i] == y[..|y| - 1][i];
    }
  }

  /** Decoding a frame that was not encoded: it stays whole, or loses exactly its last byte. */
  lemma RawDecoded(m: seq<Byte>, c: Byte)
    ensures Reduce(m + [c]) == m + [c] <==> NoEscaped(m + [c])
    ensures Reduce(m + [c]) == m <==> Mended(m + [c])
  {
    var f := m + [c];
    ReduceLength(f, false);
    EscapesNone(f);
    if NoEscaped(f) {
      ExtendFixedPoint(f);
      ReduceExtend(f);
    }
    if Mended(f) {
      var i :| 0 <= i < |f| && Mends(f, i);
      MendsDecoded(m, c, i);
    } else if Reduce(f) == m {
      var i := OnlyEscape(f);
      MendsDecoded(m, c, i);
    }
  }

  lemma MendsDecoded(m: seq<Byte>, c: Byte, i: nat)
    requires var f := m + [c]; i < |f| && Escaped(f[i]) && NoEscaped(f[..i]) && NoEscaped(f[i + 1..])
    ensures Reduce(m + [c]) == m <==> Mends(m + [c], i)
  {
    hide Reduce, NoEscaped, Mends;
    var f := m + [c];
    var a, x, y := f[..i], f[i], f[i + 1..];
    assert f == a + [x] + y;
    OneEscapeDecoded(a, x, y);
    MendsTail(f, i);
    if y == [] {
      assert a == m && a + [] == a;
    } else {
      var z := y[..|y| - 1];
      assert m == a + ([x] + z);
      SameTail(a, [Decoded(y[0])] + y[1..], [x] + z);
      SameCons(Decoded(y[0]), y[1..], x, z);
    }
  }

  lemma SameCons(x: Byte, s: seq<Byte>, y: Byte, t: seq<Byte>)
    ensures [x] + s == [y] + t <==> x == y && s == t
  {
    assert ([x] + s)[1..] == s && ([y] + t)[1..] == t;
    assert ([x] + s)[0] == x && ([y] + t)[0] == y;
  }

  /** The condition in terms of what follows the escape. */
  lemma MendsTail(f: seq<Byte>, i: nat)
    requires i < |f| && Escaped(f[i]) && NoEscaped(f[..i]) && NoEscaped(f[i + 1..])
    ensures var y := f[i + 1..];
            Mends(f, i) <==> y == [] || (Decoded(y[0]) == f[i] && y[1..] == y[..|y| - 1])
  {
    hide NoEscaped;
    var y := f[i + 1..];
    if y != [] {
      AllSame(y);
      assert y[|y| - 1] == f[|f| - 1];
      if Mends(f, i) {
        forall j | 0 <= j < |y|
          ensures y[j] == y[|y| - 1]
        {
          assert y[j] == f[i + 1 + j];
        }
        assert y[0] == f[i + 1];
      }
      if Decoded(y[0]) == f[i] && y[1..] == y[..|y| - 1] {
        forall j | i < j < |f|
          ensures f[j] == f[|f| - 1] && Decoded(f[j]) == f[i]
        {
          assert f[j] == y[j - i - 1];
        }
      }
    }
  }

  lemma SameTail(a: seq<Byte>, b: seq<Byte>, c: seq<Byte>)
    ensures a + b == a + c <==> b == c
  {
    assert (a + b)[|a|..] == b && (a + c)[|a|..] == c;
  }

  // ---------- What a counterpart makes of it ----------

  /** The bytes are taken for the frame `m`. */
  predicate Understood(s: seq<Byte>, m: seq<Byte>) {
    var t := CreateMaster(CLEARED, s); t.masterState == SEQ_OK && t.master.Logical() == m
  }

  /** Only the frame itself is, with or without its checksum; without it, it needs a data byte. */
  lemma UnderstoodExactly(s: seq<Byte>, m: seq<Byte>)
    requires MasterFrame(m)
    ensures Understood(s, m) <==> s == Sealed(m) || (s == m && |m| > 5)
  {
    hide FrameCrc, IsMaster, KindOf, CreateMaster, Count;
    if CreateMaster(CLEARED, s).masterState == SEQ_OK {
      AcceptedMaster(CLEARED, s);
      AcceptedSize(s);
    }
    if s == Sealed(m) || (s == m && |m| > 5) {
      FrameAccepted(s, m);
      AcceptedMaster(CLEARED, s);
      LongerByOne(s, m, CreateMaster(CLEARED, s).master.Logical());
    }
  }

  lemma AcceptedSize(s: seq<Byte>)
    ensures CreateMaster(CLEARED, s).masterState == SEQ_OK ==> |s| >= 6
  {
    hide CrcOf, IsMaster, KindOf;
  }

  lemma FrameAccepted(s: seq<Byte>, m: seq<Byte>)
    requires MasterFrame(m) && (s == Sealed(m) || (s == m && |m| > 5))
    ensures CreateMaster(CLEARED, s).masterState == SEQ_OK
  {
    hide FrameCrc, IsMaster, KindOf, CreateMaster;
    assert Sealed(m)[..|m|] == m;
    assert s[0] == m[0] && s[1] == m[1] && s[4] == m[4];
    CreateMasterExactly(s);
  }

  /** Both frames have the size that their fifth byte says. */
  lemma LongerByOne(s: seq<Byte>, m: seq<Byte>, m': seq<Byte>)
    requires MasterFrame(m) && MasterFrame(m') && (s == m || s == Sealed(m)) && (s == m' || s == Sealed(m'))
    ensures m == m'
  {
    hide FrameCrc, IsMaster;
    assert Sealed(m)[..|m|] == m && Sealed(m')[..|m'|] == m';
    assert s[4] == m[4] == m'[4];
  }

  /** With an escaped header `n` is read instead of the length `nn`: the right one, or a larger one that is allowed. */
  predicate ShiftAudible(c: Byte, nn: nat, n: nat) {
    n <= MAX_BYTES && if nn > 0 then n >= nn else n > nn && !Escaped(c)
  }

  /** The sealed frame is stored in wire form; what is read as its length decides how far the counting gets. */
  predicate SealedAudible(m: seq<Byte>, c: Byte, n: nat)
    requires |m| >= 5
  {
    var nn := Count(m[4]);
    if Escaped(m[2]) || Escaped(m[3]) then ShiftAudible(c, nn, n)
    else nn > 0 || !Escaped(c)
  }

  /**
   When the counterpart gets the frame of `t`, in terms of what is stored. A frame in wire form: the length byte is
   read right, or large enough, and the checksum is plain or there is a data byte. Any other frame: no SYN or EXP at
   all, or a single one that mends itself.
   */
  predicate Audible(t: Tel) {
    var m, c, f := t.master.Logical(), t.masterCRC, Frame(t);
    && |m| >= 5 && |f| >= 5 && Count(f[4]) <= MAX_BYTES
    && if t.master.extended then SealedAudible(m, c, Count(f[4])) else NoEscaped(f) || (|m| > 5 && Mended(f))
  }

  /** Where a frame in wire form is cut when its header has no escape. */
  lemma PlainHeaderCut(m: seq<Byte>, c: Byte)
    requires MasterFrame(m) && !Escaped(m[2]) && !Escaped(m[3])
    ensures var f := Extend(m) + [c]; |f| >= 5 && f[..5] == m[..5] && f[5..] == Extend(m[5..]) + [c]
  {
    hide IsMaster, Extend, Count, FrameCrc;
    MasterPlain(m);
    assert NoEscaped(m[..5]);
    ExtendFixedPoint(m[..5]);
    ExtendConcat(m[..5], m[5..]);
    assert m == m[..5] + m[5..];
  }

  /** Where it is cut when it has: one byte early. */
  lemma ShiftedHeaderCut(m: seq<Byte>, c: Byte)
    requires MasterFrame(m) && (Escaped(m[2]) || Escaped(m[3]))
    ensures var f := Extend(m) + [c];
            && |f| >= 5 && f[4] == LengthRead(m) && f[..2] == m[..2]
            && (Count(f[4]) <= MAX_BYTES ==> f[..5] == Extend(m[..4]) && f[5..] == Extend(m[4..]) + [c])
  {
    hide IsMaster, Extend, FrameCrc, MasterFrame;
    MasterLong(m);
    HeaderCodes(m);
    var a, y := Code(m[2]) + Code(m[3]), Extend(m[4..]);
    ExtendShape(m[4..]);
    ReadThird(m[..2], m, y, c);
    if Count(LengthRead(m)) <= MAX_BYTES {
      SmallCountPlain(LengthRead(m));
      CutHeader(m[..2] + a, y, c);
      assert m[..2] + (a + y) == m[..2] + a + y;
    }
  }

  lemma MasterLong(m: seq<Byte>)
    requires MasterFrame(m)
    ensures |m| >= 5 && NoEscaped(m[..2])
  {
    hide IsMaster;
    MasterPlain(m);
  }

  lemma ReadThird(h: seq<Byte>, m: seq<Byte>, y: seq<Byte>, c: Byte)
    requires |h| == 2 && |m| >= 5 && (Escaped(m[2]) || Escaped(m[3]))
    ensures var f := h + (Code(m[2]) + Code(m[3]) + y) + [c]; |f| >= 5 && f[4] == LengthRead(m) && f[..2] == h
  {
  }

  lemma CutHeader(h: seq<Byte>, y: seq<Byte>, c: Byte)
    requires |h| == 5
    ensures var f := h + y + [c]; f[..5] == h && f[5..] == y + [c]
  {
  }

  lemma MasterPlain(m: seq<Byte>)
    requires MasterFrame(m)
    ensures !Escaped(m[0]) && !Escaped(m[1]) && !Escaped(m[4])
  {
    SmallCountPlain(m[4]);
  }

  lemma ExtendCons(x: Byte, e: seq<Byte>)
    ensures Extend([x] + e) == Code(x) + Extend(e)
  {
    assert ([x] + e)[1..] == e;
  }

  lemma ExtendPlain(h: seq<Byte>, e: seq<Byte>)
    requires NoEscaped(h)
    ensures Extend(h + e) == h + Extend(e)
  {
    ExtendConcat(h, e);
    ExtendFixedPoint(h);
  }

  lemma FrameParts(m: seq<Byte>)
    requires |m| >= 5
    ensures m == m[..2] + ([m[2]] + ([m[3]] + m[4..])) && m[..4] == m[..2] + ([m[2]] + ([m[3]] + []))
  {
  }

  lemma HeaderCodes(m: seq<Byte>)
    requires |m| >= 5 && NoEscaped(m[..2])
    ensures Extend(m) == m[..2] + (Code(m[2]) + Code(m[3]) + Extend(m[4..]))
    ensures Extend(m[..4]) == m[..2] + (Code(m[2]) + Code(m[3]))
  {
    hide *;
    FrameParts(m);
    var h, x, y, e := m[..2], m[2], m[3], m[4..];
    ExtendPlain(h, [x] + ([y] + e));
    ExtendCons(x, [y] + e);
    ExtendCons(y, e);
    ExtendPlain(h, [x] + ([y] + []));
    ExtendCons(x, [y] + []);
    ExtendCons(y, []);
    EmptyInvalid();
    CodesJoined(Code(x), Code(y), Extend(e));
  }

  lemma CodesJoined(a: seq<Byte>, b: seq<Byte>, e: seq<Byte>)
    ensures a + (b + e) == a + b + e && a + (b + []) == a + b
  {
  }

  // ---------- The frame arrives ----------

  lemma UnitsExtend(s: seq<Byte>)
    ensures Units(Extend(s)) == |s|
  {
    ReduceExtend(s);
    ExtendShape(s);
    SynCountZero(Extend(s));
  }

  lemma UnitsOfOne(c: Byte)
    ensures Units([c]) == (if c == EXP then 0 else 1) && Reduce([c]) == if Escaped(c) then [] else [c]
  {
    UnitsCons(c, []);
    assert [c] + [] == [c];
    assert [c][1..] == [];
    assert ReduceFrom([c], false) == if Escaped(c) then ReduceFrom([], true) else [c] + ReduceFrom([], false);
  }

  /** How many units follow the raw header. */
  lemma RestUnits(t: Tel)
    requires Sendable(t)
    ensures var m, f := t.master.Logical(), Frame(t);
            && MasterFrame(m) && |f| >= 5 && f[..2] == m[..2]
            && (t.master.extended && (Escaped(m[2]) || Escaped(m[3])) ==>
                 Count(f[4]) <= MAX_BYTES ==>
                   Units(f[5..]) == Count(m[4]) + 1 + if t.masterCRC == EXP then 0 else 1)
            && (!t.master.extended || (!Escaped(m[2]) && !Escaped(m[3])) ==>
                 f[4] == m[4] && Units(f[5..]) <= Count(m[4]) + 1)
  {
    hide IsMaster, Extend, FrameCrc, KindOf, Units, Count, Reduce;
    var m, c, f := t.master.Logical(), t.masterCRC, Frame(t);
    UnitsOfOne(c);
    if !t.master.extended {
      assert f == m + [c];
      UnitsAtMost(f[5..]);
    } else {
      assert f == Extend(m) + [c];
      if Escaped(m[2]) || Escaped(m[3]) {
        ShiftedHeaderCut(m, c);
        UnitsExtend(m[4..]);
        UnitsConcat(Extend(m[4..]), [c]);
      } else {
        PlainHeaderCut(m, c);
        UnitsExtend(m[5..]);
        UnitsConcat(Extend(m[5..]), [c]);
        assert f[..5][4] == m[..5][4] && f[..5][..2] == m[..5][..2];
      }
    }
  }

  /** When the counting reaches the end of the frame, what is decoded is all of it. */
  lemma WholeDecoded(t: Tel)
    requires Sendable(t)
    requires var f := Frame(t); |f| >= 5 && Count(f[4]) <= MAX_BYTES && Units(f[5..]) <= Count(f[4]) + 1
    ensures Understood(Reduce(Frame(t)), t.master.Logical()) <==> Audible(t)
  {
    hide IsMaster, Extend, FrameCrc, KindOf, Units, Count, Reduce, Understood, Mended, NoEscaped;
    var m, c, f := t.master.Logical(), t.masterCRC, Frame(t);
    RestUnits(t);
    UnderstoodExactly(Reduce(f), m);
    FrameSize(m);
    if !t.master.extended {
      assert f == m + [c];
      RawDecoded(m, c);
    } else {
      assert f == Extend(m) + [c];
      ReduceExtendPrefix(m, [c]);
      UnitsOfOne(c);
      assert m + [] == m && m + [c] == Sealed(m);
    }
  }

  lemma FrameSize(m: seq<Byte>)
    requires MasterFrame(m)
    ensures |m| == 5 + Count(m[4])
  {
  }

  lemma SameDecoded(h: seq<Byte>, p: seq<Byte>, g: seq<Byte>)
    requires forall esc :: ReduceFrom(p, esc) == ReduceFrom(g, esc)
    ensures Reduce(h + p) == Reduce(h + g)
  {
    ReduceConcat(h, p, false);
    ReduceConcat(h, g, false);
  }

  /** When the length byte is read wrong and the counting ends early. */
  lemma EndsEarly(t: Tel, k: nat) returns (p: seq<Byte>, tail: seq<Byte>)
    requires Sendable(t)
    requires var f := Frame(t); |f| >= 5 && Count(f[4]) <= MAX_BYTES && Units(f[5..]) > Count(f[4]) + 1
    ensures var f := Frame(t); p + tail == f[5..] + Syns(k) && Shortest(p, Count(f[4]) + 1)
    ensures Understood(Reduce(Frame(t)[..5] + p), t.master.Logical()) <==> Audible(t)
  {
    hide IsMaster, Extend, FrameCrc, KindOf, Units, Count, Reduce, Understood, Mended, NoEscaped, Shortest;
    var m, c, f := t.master.Logical(), t.masterCRC, Frame(t);
    RestUnits(t);
    FrameSize(m);
    assert f == Extend(m) + [c];
    ShiftedHeaderCut(m, c);
    var n, h, g := Count(f[4]), f[..5], f[5..];
    if n == Count(m[4]) {
      p, tail := Extend(m[4..]), [c] + Syns(k);
      assert p + tail == g + Syns(k);
      FrameConsumed(m[4..], []);
      TakesShortest(p, [], n + 1);
      ReduceExtendPrefix(m[..4], p);
      ReduceExtend(m[4..]);
      assert m[..4] + m[4..] == m;
    } else {
      var tail';
      p, tail' := Cut(g, n + 1);
      tail := tail' + Syns(k);
      assert p + tail == g + Syns(k);
      LengthsAdd(h, p);
      ReduceExtend(m[..4]);
      ShortestSize(p, n + 1);
    }
    UnderstoodExactly(Reduce(h + p), m);
  }

  lemma ShortestSize(p: seq<Byte>, r: nat)
    requires Shortest(p, r)
    ensures |Reduce(p)| <= r
  {
  }

  /** What is counted of a frame that is followed by enough SYN bytes, and when it is the frame that was meant. */
  lemma FrameArrives(t: Tel, k: nat) returns (p: seq<Byte>, tail: seq<Byte>)
    requires Sendable(t)
    requires var f := Frame(t); |f| >= 5 && Count(f[4]) <= MAX_BYTES && Count(f[4]) + 1 <= Units(f[5..]) + k
    ensures var f := Frame(t); p + tail == f[5..] + Syns(k) && Shortest(p, Count(f[4]) + 1)
    ensures Understood(Reduce(Frame(t)[..5] + p), t.master.Logical()) <==> Audible(t)
  {
    hide Extend, Units, Count, Reduce, Understood, Audible, Shortest, Sendable;
    var f := Frame(t);
    var h, g, n := f[..5], f[5..], Count(f[4]);
    if Units(g) <= n + 1 {
      p, tail := Silenced(g, n + 1, k);
      SameDecoded(h, p, g);
      assert h + g == f;
      WholeDecoded(t);
    } else {
      p, tail := EndsEarly(t, k);
    }
  }

  // ---------- At a participant ----------

  /** The message that `b` is about to receive is taken for the frame `m`, and is passed on as that. */
  predicate Takes(b: Bus, m: seq<Byte>)
    requires |b.sequence.bytes| >= 2
  {
    var r := Receive(b);
    r.Ok? && r.value == ProcessMessage && CreateMaster(CLEARED, r.bus.sequence.Logical()).master.Logical() == m
  }

  /** The header of the frame was heard, and the rest of it comes in, followed by `k` SYN bytes. */
  predicate Incoming(b: Bus, f: seq<Byte>, k: nat, rest: seq<Input>) {
    && |f| >= 5 && b.sequence == Buffer(f[..2], true)
    && b.device.input == Datas(f[2..]) + (Datas(Syns(k)) + rest)
    && (Count(f[4]) <= MAX_BYTES ==> Count(f[4]) + 1 <= Units(f[5..]) + k)
  }

  /** A length byte that is too large is the end of it. */
  lemma OversizedIncoming(b: Bus, f: seq<Byte>, k: nat, rest: seq<Input>)
    requires Incoming(b, f, k, rest) && Count(f[4]) > MAX_BYTES
    ensures Receive(b).Raise? || Receive(b).value == MonitorBus
  {
    hide ReceiveHeader, ReceiveBytes, Answer, Reset, Datas, Units, Count;
    var h := f[2..5];
    assert f[2..] == h + f[5..];
    DatasAppend(h, f[5..], Datas(Syns(k)) + rest);
    ReceivedHeader(b, h, Datas(f[5..]) + (Datas(Syns(k)) + rest));
    assert Received(b, h).sequence.bytes == f[..5];
  }

  /** What `Receive` makes of the bytes that it counted. */
  lemma TakesDecoded(b: Bus, h: seq<Byte>, p: seq<Byte>, rest: seq<Input>, m: seq<Byte>)
    requires Arriving(b, h, p, rest) && !Escaped(h[0]) && !Escaped(h[1])
    requires h[1] != BROAD ==> b.device.faults == [] && rest != [] && rest[0].Data?
    ensures Takes(b, m) <==> Understood(Reduce(h + p), m)
  {
    hide Reduce, Shortest, CreateMaster, MasterArgument, Receive, Datas, WriteRead, Answer, Count;
    ReceiveGathers(b, h, p, rest);
    var a := Arrived(b, h, p, rest);
    var s := Reduce(h + p);
    HeaderStart(h, p);
    RebuiltMaster(s);
    MasterArgumentStart(s);
    AnswerTakes(a, h[1]);
  }

  lemma HeaderStart(h: seq<Byte>, p: seq<Byte>)
    requires |h| >= 2 && !Escaped(h[0]) && !Escaped(h[1])
    ensures var s := Reduce(h + p); |s| >= 2 && s[0] == h[0] && s[1] == h[1]
  {
    hide Reduce;
    var a, g := h[..2], h[2..] + p;
    assert h + p == a + g;
    ReducePlain(a, g);
  }

  lemma AnswerTakes(b: Bus, zz: Byte)
    requires var a := MasterArgument(b.sequence.Logical());
             |a.bytes| >= 2 && a.bytes[1] == zz && a.Logical() == b.sequence.Logical()
    requires zz != BROAD ==> b.device.faults == [] && b.device.input != [] && b.device.input[0].Data?
    ensures var r, t := Answer(b), CreateMaster(CLEARED, b.sequence.Logical());
            && r.Ok? && (r.value == ProcessMessage <==> t.masterState == SEQ_OK)
            && (r.value == ProcessMessage ==> r.bus.sequence.Logical() == b.sequence.Logical())
  {
    hide Reduce, CreateMaster, MasterArgument, WriteRead, Fed, Datas;
    if zz != BROAD {
      var x, rest := b.device.input[0].byte, b.device.input[1..];
      assert b.device.input == [Data(x)] + rest;
      FirstData(x, rest);
      var b1 := b.(sequence := MasterArgument(b.sequence.Logical()));
      WriteReadFed(b1, ACK, x, rest);
      WriteReadFed(b1, NAK, x, rest);
      FedSequence(b1, [x], [ACK], x == ACK, rest);
      FedSequence(b1, [x], [NAK], x == NAK, rest);
    }
  }

  lemma FirstData(x: Byte, rest: seq<Input>)
    ensures Datas([x]) + rest == [Data(x)] + rest
  {
  }

  lemma FedSequence(b: Bus, h: seq<Byte>, w: seq<Byte>, same: bool, rest: seq<Input>)
    ensures Fed(b, h, w, same, rest).sequence == b.sequence
  {
  }

  /**
   A message that is sent as it is stored arrives as the frame that was meant exactly when it is audible: at every
   participant if it is a broadcast, at the addressed one otherwise, provided that its acknowledgement can be written.
   */
  lemma FrameTaken(b: Bus, t: Tel, k: nat, rest: seq<Input>)
    requires Sendable(t) && Incoming(b, Frame(t), k, rest)
    requires t.kind != BC ==> b.device.faults == [] && rest != [] && rest[0].Data?
    ensures Takes(b, t.master.Logical()) <==> Audible(t)
  {
    hide Sendable, Receive, Reduce, Datas, Shortest, Units, Understood, CreateMaster, Takes;
    var f, m := Frame(t), t.master.Logical();
    FrameHead(t);
    if Count(f[4]) > MAX_BYTES {
      OversizedIncoming(b, f, k, rest);
      NotTaken(b, m);
    } else {
      var p, tail := FrameArrives(t, k);
      var h, rest' := f[..5], Datas(tail) + rest;
      IncomingArrives(b, f, k, rest, p, tail);
      if t.kind != BC {
        DataNext(tail, rest);
      }
      TakesDecoded(b, h, p, rest', m);
    }
  }

  /** When the bus stays silent before all that is counted came in, receiving ends with an exception. */
  lemma FrameStarves(b: Bus, f: seq<Byte>, k: nat, rest: seq<Input>)
    requires |f| >= 5 && b.sequence == Buffer(f[..2], true) && (rest == [] || !rest[0].Data?)
    requires b.device.input == Datas(f[2..]) + (Datas(Syns(k)) + rest)
    requires Count(f[4]) <= MAX_BYTES && Units(f[5..]) + k < Count(f[4]) + 1
    ensures Receive(b).Raise?
  {
    hide ReceiveHeader, Receive, Answer, Datas, Units, Count, Take;
    var h, after := f[2..5], Datas(Syns(k)) + rest;
    assert f[2..] == h + f[5..];
    DatasAppend(h, f[5..], after);
    ReceivedHeader(b, h, Datas(f[5..]) + after);
    assert Received(b, h).sequence.bytes == f[..5];
    DatasAppend(f[5..], Syns(k), rest);
    SynsUnits(k);
    UnitsConcat(f[5..], Syns(k));
    RunsOut(f[5..] + Syns(k), Count(f[4]) + 1, rest);
    ReceiveParts(b);
  }

  lemma NotTaken(b: Bus, m: seq<Byte>)
    requires |b.sequence.bytes| >= 2 && (Receive(b).Raise? || Receive(b).value == MonitorBus)
    ensures !Takes(b, m)
  {
    hide Receive, CreateMaster;
  }

  lemma DataNext(tail: seq<Byte>, rest: seq<Input>)
    requires rest != [] && rest[0].Data?
    ensures Datas(tail) + rest != [] && (Datas(tail) + rest)[0].Data?
  {
  }

  lemma IncomingArrives(b: Bus, f: seq<Byte>, k: nat, rest: seq<Input>, p: seq<Byte>, tail: seq<Byte>)
    requires Incoming(b, f, k, rest) && Count(f[4]) <= MAX_BYTES
    requires p + tail == f[5..] + Syns(k) && Shortest(p, Count(f[4]) + 1)
    ensures Arriving(b, f[..5], p, Datas(tail) + rest)
  {
    hide Datas, Shortest, Units, Count;
    var h := f[2..5];
    assert f[2..] == h + f[5..] && f[..5][2..] == h && f[..5][..2] == f[..2] && f[..5][4] == f[4];
    DatasAppend(h, f[5..], Datas(Syns(k)) + rest);
    DatasAppend(f[5..], Syns(k), rest);
    DatasAppend(p, tail, rest);
  }

  /** The two addresses are never escaped. */
  lemma FrameHead(t: Tel)
    requires Sendable(t)
    ensures var f, m := Frame(t), t.master.Logical();
            |f| >= 5 && f[0] == m[0] && f[1] == m[1] && !Escaped(f[0]) && !Escaped(f[1]) && t.kind == KindOf(f[1])
            && (t.kind == BC <==> f[1] == BROAD)
            && (!Audible(t) || Count(f[4]) <= MAX_BYTES)
  {
    hide IsMaster, FrameCrc, Extend, Reduce, Mended, NoEscaped, Holds, Units, Count;
    RestUnits(t);
    var f, m := Frame(t), t.master.Logical();
    MasterPlain(m);
    assert f[..2][0] == m[..2][0] && f[..2][1] == m[..2][1];
    BroadcastKind(m[1]);
  }

  lemma BroadcastKind(b: Byte)
    ensures KindOf(b) == BC <==> b == BROAD
  {
    hide IsMaster;
  }

  /** In terms of what is handed to `transmit`. */
  lemma AudibleExactly(address: Byte, vec: seq<Byte>)
    requires Accepted(address, vec)
    ensures var s, t := [address] + vec, Made(address, vec).tel;
            && |s| >= 6 && Sendable(t) && t.master.Logical() == s[..5 + Count(s[4])]
            && (|s| == 5 + Count(s[4]) ==>
                 (Audible(t) <==> NoEscaped(s + [t.masterCRC]) || Mended(s + [t.masterCRC])))
            && (|s| > 5 + Count(s[4]) ==>
                 var m := s[..5 + Count(s[4])];
                 && t.masterCRC == s[|s| - 1]
                 && (!Escaped(s[2]) && !Escaped(s[3]) ==> (Audible(t) <==> Count(s[4]) > 0 || !Escaped(t.masterCRC)))
                 && (Escaped(s[2]) || Escaped(s[3]) ==>
                      (Audible(t) <==> ShiftAudible(t.masterCRC, Count(s[4]), Count(LengthRead(m))))))
  {
    hide FrameCrc, IsMaster, KindOf, CrcOf, Extend, Reduce, Mended, CreateMaster, MasterShape, Count;
    var s, t := [address] + vec, Made(address, vec).tel;
    CreatedShape(CLEARED, s);
    ShapedMaster(s);
    AcceptedMaster(CLEARED, s);
    AcceptedSize(s);
    var m := s[..5 + Count(s[4])];
    if |s| == 5 + Count(s[4]) {
      CreatedBare(CLEARED, s);
      assert s == m;
    } else {
      CreatedSealed(CLEARED, s);
      StoredKeepsFrame(m);
      if !Escaped(m[2]) && !Escaped(m[3]) {
        PlainHeaderCut(m, t.masterCRC);
        assert Frame(t) == Extend(m) + [t.masterCRC];
        assert Frame(t)[..5][4] == m[4];
      } else {
        ShiftedHeaderCut(m, t.masterCRC);
        assert Frame(t) == Extend(m) + [t.masterCRC];
      }
    }
  }

  /**
   After a successful transfer, a participant that the frame was for, and that heard it with enough SYN bytes after it,
   has received the sender's frame, and passes it on, exactly when the frame is audible. A broadcast is for everybody.
   */
  lemma SenderAndReceiverAgree(s: Sys, x: Exchange, b: Bus, k: nat, rest: seq<Input>)
    requires CleanSuccess(s, x) && b.sequence.bytes == []
    requires var f := Frame(s.bus.active.value.tel);
             && b.device.input == Datas(f) + (Datas(Syns(k)) + rest)
             && (|f| >= 5 && Count(f[4]) <= MAX_BYTES ==> Count(f[4]) + 1 <= Units(f[5..]) + k)
             && (|f| >= 2 ==> f[1] == BROAD || f[1] == b.address || f[1] == SlaveAddress(b.address))
    requires s.bus.active.value.tel.kind != BC ==> b.device.faults == [] && rest != [] && rest[0].Data?
    ensures var t, r := s.bus.active.value.tel, Turns(b, MonitorBus, 2);
            && Frame(t) <= Trace(s.bus.log) && (t.kind == BC ==> Trace(s.bus.log) == Frame(t))
            && r.Ok? && r.value == ReceiveMessage && |r.bus.sequence.bytes| >= 2
            && (Takes(r.bus, t.master.Logical()) <==> Audible(t))
  {
    hide Reached, Transcript, Settled, Succeeded, Sendable, Datas, Units, Count, Audible, Turns, Takes, Trace, Sent,
      Replied, Correct, Confirmed, SlaveIs, Echoed, Heard, Incoming, SlaveAddress;
    SuccessFacts(s, x);
    var t := s.bus.active.value.tel;
    FrameHeard(t, x);
    FrameHead(t);
    HeaderIncoming(b, Frame(t), k, rest);
    IncomingStarts(Turns(b, MonitorBus, 2).bus, Frame(t), k, rest);
    FrameTaken(Turns(b, MonitorBus, 2).bus, t, k, rest);
  }

  lemma FrameHeard(t: Tel, x: Exchange)
    requires Sent(x, t) && Replied(x, t) && Echoed(x, Frame(t))
    ensures Frame(t) <= Heard(x) && (t.kind == BC ==> Heard(x) == Frame(t))
  {
    hide Answered, AttemptsHeard, RepliesHeard, Frame;
    AttemptsSpelled(x, t);
    var f, rest := Frame(t), LastAnswer(x) + RepliesHeard(x.replies);
    if |x.attempts| == 2 {
      assert Heard(x) == f + ([NAK] + (f + rest));
    } else {
      assert Heard(x) == f + rest;
    }
    if t.kind == BC {
      NothingReplied([]);
      assert f + [] == f;
    }
  }

  lemma IncomingStarts(b: Bus, f: seq<Byte>, k: nat, rest: seq<Input>)
    requires Incoming(b, f, k, rest)
    ensures |b.sequence.bytes| >= 2
  {
    hide Datas, Units, Count;
  }

  /** Listening ends with the header, when it is for us or for everybody. */
  lemma HeaderIncoming(b: Bus, f: seq<Byte>, k: nat, rest: seq<Input>)
    requires |f| >= 5 && !Escaped(f[0]) && !Escaped(f[1]) && b.sequence.bytes == []
    requires f[1] == BROAD || f[1] == b.address || f[1] == SlaveAddress(b.address)
    requires b.device.input == Datas(f) + (Datas(Syns(k)) + rest)
    requires Count(f[4]) <= MAX_BYTES ==> Count(f[4]) + 1 <= Units(f[5..]) + k
    ensures var r := Turns(b, MonitorBus, 2);
            && r.Ok? && r.value == ReceiveMessage && Incoming(r.bus, f, k, rest)
            && r.bus.device.faults == b.device.faults && r.bus.passive == b.passive
  {
    hide Datas, Units, Count, Turns, SlaveAddress;
    var after := Datas(Syns(k)) + rest;
    assert f == [f[0], f[1]] + f[2..] && f[..2] == [f[0], f[1]];
    DatasAppend([f[0], f[1]], f[2..], after);
    TwoDatas(f[0], f[1], Datas(f[2..]) + after);
    HeaderTurns(b, f[0], f[1], Datas(f[2..]) + after);
  }

  lemma TwoDatas(x: Byte, y: Byte, rest: seq<Input>)
    ensures Datas([x, y]) + rest == [Data(x), Data(y)] + rest
  {
  }

  // ---------- The response at the participant that asked ----------

  /** The slave part was accepted: it holds a frame and its checksum. */
  predicate ResponseReady(u: Tel) {
    var f := u.slave.Logical(); SlaveFrame(f) && Holds(u.slave, f) && u.slaveCRC == FrameCrc(f)
  }

  /** When the response of `u` is got right, in terms of what is stored. */
  predicate ResponseAudible(u: Tel) {
    var f, c, w := u.slave.Logical(), u.slaveCRC, Responses.Response(u);
    if u.slave.extended then |f| > 1 || !Escaped(c) else NoEscaped(w) || (|f| > 1 && Mended(w))
  }

  /** The bytes decode to the frame, with its checksum, or without it if there is a data byte. */
  predicate Gives(s: seq<Byte>, f: seq<Byte>) {
    s == Sealed(f) || (s == f && |f| > 1)
  }

  lemma ResponseDecoded(u: Tel)
    requires ResponseReady(u)
    ensures Gives(Reduce(Responses.Response(u)), u.slave.Logical()) <==> ResponseAudible(u)
  {
    hide Extend, FrameCrc, Reduce, Mended, NoEscaped, SlaveFrame;
    var f, c, w := u.slave.Logical(), u.slaveCRC, Responses.Response(u);
    if u.slave.extended {
      assert w == Extend(f) + [c];
      ReduceExtendPrefix(f, [c]);
      UnitsOfOne(c);
      assert f + [] == f && f + [c] == Sealed(f);
    } else {
      assert w == f + [c];
      RawDecoded(f, c);
    }
  }

  /** The length byte is sent plain, and no more units follow than it announces. */
  lemma ResponseHead(u: Tel)
    requires ResponseReady(u)
    ensures var f, w := u.slave.Logical(), Responses.Response(u);
            |w| >= 2 && w[0] == f[0] && !Escaped(w[0]) && Units(w[1..]) <= Count(w[0]) + 1
            && Count(w[0]) <= MAX_BYTES && |f| == 1 + Count(w[0])
  {
    hide FrameCrc, Reduce, Units, Extend;
    var f, c, w := u.slave.Logical(), u.slaveCRC, Responses.Response(u);
    SmallCountPlain(f[0]);
    if u.slave.extended {
      ExtendCons(f[0], f[1..]);
      assert f == [f[0]] + f[1..];
      assert w == Extend(f) + [c];
      assert w[1..] == Extend(f[1..]) + [c];
      UnitsExtend(f[1..]);
      UnitsConcat(Extend(f[1..]), [c]);
      UnitsOfOne(c);
    } else {
      UnitsAtMost(w[1..]);
    }
  }

  /** A complete response gives `f` exactly when it is acknowledged and `f` is stored. */
  lemma GivesExactly(bytes: seq<Byte>, f: seq<Byte>)
    requires Framed(bytes) && SlaveFrame(f) && f[0] == bytes[0]
    ensures Gives(Reduce(bytes), f) <==> Correct(bytes) && ResponseFrame(bytes) == f
  {
    hide FrameCrc, Reduce, SynCount, NoSyn, Shortest, Count;
    FramedSize(bytes);
    var s := Reduce(bytes);
    if NoSyn(bytes) {
      SealedApart(s, f);
    }
  }

  lemma SealedApart(s: seq<Byte>, f: seq<Byte>)
    requires s != []
    ensures s == Sealed(f) <==> s[|s| - 1] == FrameCrc(s[..|s| - 1]) && s[..|s| - 1] == f
  {
    hide FrameCrc;
    assert s == s[..|s| - 1] + [s[|s| - 1]];
    assert Sealed(f)[..|f|] == f;
  }

  /** `receiveResponse` accepts what comes in, and stores `f`. */
  predicate Stores(a: Bus, f: seq<Byte>)
    requires a.active.Some?
  {
    var r := ListenOnce(a);
    r.Ok? && r.value == Some(FreeBus) && r.bus.active.Some? && r.bus.active.value.tel.slave.Logical() == f
  }

  lemma StoresHeard(a: Bus, bytes: seq<Byte>, echo: Byte, rest: seq<Input>, f: seq<Byte>)
    requires a.active.Some? && Framed(bytes) && Feeding(a, bytes + [echo], rest)
    ensures Stores(a, f) <==> Correct(bytes) && ResponseFrame(bytes) == f
  {
    hide ListenOnce, Framed, Correct, ResponseFrame, Datas, Along, Feeding;
    var y := Reply(bytes, if Correct(bytes) then ACK else NAK, echo);
    ListenOnceFed(a, y, rest);
    var r := ListenOnce(a);
    var y' := ListenOnceEffect(a);
    SameHeard(a, r.bus, y, y', rest);
    Delivery.FramedPrefix(y.bytes, y'.bytes, [y.echo], [y'.echo]);
    if Correct(bytes) {
      StoredFrame(r.bus.active.value.tel, bytes);
    }
  }

  lemma SameHeard(a: Bus, c: Bus, y: Reply, y': Reply, rest: seq<Input>)
    requires Along(a, c, y.bytes + [y.echo], [y.ack], rest)
    requires Grown(a.log, c.log, y'.bytes + [y'.echo], [y'.ack], y'.echo == y'.ack)
    ensures y.bytes + [y.echo] == y'.bytes + [y'.echo]
  {
    SameTail(a.log.heard, y.bytes + [y.echo], y'.bytes + [y'.echo]);
  }

  lemma StoredFrame(t: Tel, bytes: seq<Byte>)
    requires SlaveIs(t, bytes)
    ensures t.slave.Logical() == ResponseFrame(bytes)
  {
    hide ResponseFrame, FrameCrc;
    StoredKeepsFrame(ResponseFrame(bytes));
  }

  /** The response comes in, followed by `k` SYN bytes, enough for the counting, and by one byte more. */
  predicate Answering(a: Bus, w: seq<Byte>, k: nat, rest: seq<Input>) {
    && w != [] && a.device.faults == [] && a.device.input == Datas(w) + (Datas(Syns(k)) + rest)
    && Count(w[0]) + 1 <= Units(w[1..]) + k && rest != [] && rest[0].Data?
  }

  /** A response that is sent as it is stored is stored as the frame that was meant exactly when it is audible. */
  lemma ResponseTaken(a: Bus, u: Tel, k: nat, rest: seq<Input>)
    requires a.active.Some? && ResponseReady(u) && Answering(a, Responses.Response(u), k, rest)
    ensures Stores(a, u.slave.Logical()) <==> ResponseAudible(u)
  {
    hide Stores, ResponseAudible, Datas, Units, Count, Reduce, Shortest, FrameCrc, SlaveFrame, Correct, ResponseFrame,
      Responses.Response, Holds;
    var f, w := u.slave.Logical(), Responses.Response(u);
    ResponseHead(u);
    var p, tail := Silenced(w[1..], Count(w[0]) + 1, k);
    var bytes := [w[0]] + p;
    SameDecoded([w[0]], p, w[1..]);
    assert w == [w[0]] + w[1..] && bytes[1..] == p;
    var next := Datas(tail) + rest;
    AnsweringFeeds(a, w, k, rest, p, tail);
    DataNext(tail, rest);
    assert next == [Data(next[0].byte)] + next[1..];
    FirstData(next[0].byte, next[1..]);
    DatasAppend(bytes, [next[0].byte], next[1..]);
    StoresHeard(a, bytes, next[0].byte, next[1..], f);
    ReadySlave(u);
    GivesExactly(bytes, f);
    ResponseDecoded(u);
  }

  lemma ReadySlave(u: Tel)
    requires ResponseReady(u)
    ensures SlaveFrame(u.slave.Logical())
  {
  }

  lemma AnsweringFeeds(a: Bus, w: seq<Byte>, k: nat, rest: seq<Input>, p: seq<Byte>, tail: seq<Byte>)
    requires Answering(a, w, k, rest) && p + tail == w[1..] + Syns(k)
    ensures a.device.input == Datas([w[0]] + p) + (Datas(tail) + rest)
  {
    hide Datas, Units, Count;
    DatasAppend(w, Syns(k), rest);
    DatasAppend([w[0]] + p, tail, rest);
    assert w + Syns(k) == [w[0]] + (w[1..] + Syns(k)) == [w[0]] + p + tail;
  }

  /** When the bus stays silent instead, waiting for the missing bytes ends with an exception. */
  lemma ResponseStarves(a: Bus, u: Tel, k: nat, rest: seq<Input>)
    requires a.active.Some? && ResponseReady(u)
    requires a.device.input == Datas(Responses.Response(u)) + (Datas(Syns(k)) + rest) && (rest == [] || !rest[0].Data?)
    requires var w := Responses.Response(u); |w| > 0 && Units(w[1..]) + k < Count(w[0]) + 1
    ensures ListenOnce(a).Raise?
  {
    hide Datas, Units, Reduce, FrameCrc, Take, Responses.Response, Holds, AnswerResponse, Count, Reset;
    var w := Responses.Response(u);
    ResponseHead(u);
    SynsUnits(k);
    UnitsConcat(w[1..], Syns(k));
    DatasAppend(w, Syns(k), rest);
    assert w + Syns(k) == [w[0]] + (w[1..] + Syns(k));
    DatasCons(w[0], w[1..] + Syns(k), rest);
    RunsOut(w[1..] + Syns(k), Count(w[0]) + 1, rest);
    FirstData(w[0], Datas(w[1..] + Syns(k)) + rest);
    assert a.device.input[1..] == Datas(w[1..] + Syns(k)) + rest;
  }

  lemma SynsUnits(k: nat)
    ensures Units(Syns(k)) == k
  {
    SynsShortest(k);
  }

  /** In terms of the data that the callback supplies. */
  lemma ResponseAudibleExactly(t: Tel, data: seq<Byte>)
    requires CreateSlave(t, data).slaveState == SEQ_OK
    ensures var u := CreateSlave(t, data);
            && |data| >= 2 && ResponseReady(u) && u.slave.Logical() == data[..1 + Count(data[0])]
            && (|data| == 1 + Count(data[0]) ==>
                 (ResponseAudible(u) <==> NoEscaped(data + [u.slaveCRC]) || Mended(data + [u.slaveCRC])))
            && (|data| > 1 + Count(data[0]) ==>
                 u.slaveCRC == data[|data| - 1] && (ResponseAudible(u) <==> Count(data[0]) > 0 || !Escaped(u.slaveCRC)))
  {
    hide CrcOf, Extend, Reduce, Mended, NoEscaped;
    var u := CreateSlave(t, data);
    AcceptedSlave(t, data);
    var f := data[..1 + Count(data[0])];
    StoredKeepsFrame(f);
  }

  // ---------- Two participants ----------

  /** The response is built for the frame that was understood, from the data as they are. */
  lemma ProcessBuilds(b: Bus)
    requires Process(b).value == SendResponse && b.passive.None?
    ensures var t, u := CreateMaster(CLEARED, b.sequence.Logical()), Process(b).bus.passive;
            u.Some? && u.value.master == t.master && ResponseReady(u.value)
  {
    hide CreateMaster, CreateSlave, MasterArgument, Holds, FrameCrc, SlaveFrame;
    var t := CreateMaster(CLEARED, b.sequence.Logical());
    if b.reactions != [] && b.reactions[0].Response? {
      var data := b.reactions[0].data;
      SlaveKeepsMaster(t, data);
      if CreateSlave(t, data).slaveState == SEQ_OK {
        AcceptedSlave(t, data);
      }
    }
  }

  /**
   A participant asks and another one of the same kind answers: the two agree on the question exactly when it is
   audible, and on the response exactly when that is audible. Nothing else on either side tells them apart.
   */
  lemma AskerAndAnswererAgree(t: Tel, b: Bus, k: nat, rest: seq<Input>, a: Bus, k': nat, rest': seq<Input>)
    requires Sendable(t) && t.kind == MS && Incoming(b, Frame(t), k, rest) && b.passive.None?
    requires b.device.faults == [] && rest != [] && rest[0].Data?
    requires Receive(b).Ok? && Receive(b).value == ProcessMessage
    requires Receive(b).bus.passive.None? && Process(Receive(b).bus).value == SendResponse
    requires var u := Process(Receive(b).bus).bus.passive;
             u.Some? ==> a.active.Some? && Answering(a, Responses.Response(u.value), k', rest')
    ensures var u := Process(Receive(b).bus).bus.passive;
            && u.Some? && (u.value.master.Logical() == t.master.Logical() <==> Audible(t))
            && (Stores(a, u.value.slave.Logical()) <==> ResponseAudible(u.value))
  {
    hide Receive, Process, Sendable, Datas, Units, Count, Audible, ResponseAudible, Stores, Answering, ResponseReady,
      CreateMaster, Responses.Response;
    FrameTaken(b, t, k, rest);
    ProcessBuilds(Receive(b).bus);
    ResponseTaken(a, Process(Receive(b).bus).bus.passive.value, k', rest');
  }
}

/**
 The byte buffer of a frame. `extended` says whether the bytes are in wire form; `Logical` is the frame they
 stand for. Every in-place operation is specified on `Buffer`, the value of the object.
 */
module Sequences {
  import opened Bytes
  import opened Escape
  import opened Crc

  datatype Buffer = Buffer(bytes: seq<Byte>, extended: bool) {
    function Logical(): seq<Byte> {
      if extended then Reduce(bytes) else bytes
    }

    function Extended(): Buffer {
      if extended then this else Buffer(Extend(bytes), true)
    }

    function Reduced(): Buffer {
      Buffer(Logical(), false)
    }

    predicate Valid() {
      extended ==> WellFormed(bytes)
    }
  }

  const EMPTY := Buffer([], false)

  /** The checksum is taken over the wire form, whatever the representation. */
  function CrcOf(b: Buffer): Byte {
    Remainder(b.Extended().bytes)
  }

  class Sequence {
    var bytes: seq<Byte>
    var extended: bool

    function View(): Buffer
      reads this
    {
      Buffer(bytes, extended)
    }

    constructor ()
      ensures View() == EMPTY
    {
      bytes, extended := [], false;
    }

    /** A copy of the value of another buffer. */
    constructor Of(b: Buffer)
      ensures View() == b
    {
      bytes, extended := b.bytes, b.extended;
    }

    /**
     The `len` bytes of `s` from `index`. Length zero means up to the end, and nothing when `index` lies beyond
     the end. A range that leaves `s` is the one call the source answers with an exception.
     */
    constructor Sub(s: Sequence, index: nat, len: nat)
      requires len > 0 ==> index + len <= |s.bytes|
      ensures View().extended == s.extended
      ensures View().bytes ==
              if len > 0 then s.bytes[index..index + len] else if index <= |s.bytes| then s.bytes[index..] else []
    {
      var n := if len > 0 then len else if index <= |s.bytes| then |s.bytes| - index else 0;
      bytes, extended := [], s.extended;
      new;
      var i := index;
      while i < index + n
        invariant index <= i <= index + n
        invariant n > 0 ==> index + n <= |s.bytes|
        invariant n > 0 ==> bytes == s.bytes[index..i]
        invariant n == 0 ==> bytes == []
        invariant extended == s.extended
      {
        bytes := bytes + [s.bytes[i]];
        i := i + 1;
      }
    }

    method Assign(vec: seq<Byte>, ext: bool)
      modifies this
      ensures View() == Buffer(vec, vec != [] && ext)
    {
      Clear();
      var i := 0;
      while i < |vec|
        invariant 0 <= i <= |vec|
        invariant View() == Buffer(vec[..i], i > 0 && ext)
      {
        PushBack(vec[i], ext);
        i := i + 1;
      }
    }

    method PushBack(byte: Byte, ext: bool)
      modifies this
      ensures View() == Buffer(old(bytes) + [byte], ext)
    {
      bytes := bytes + [byte];
      extended := ext;
    }

    /** Copy assignment. */
    method CopyFrom(s: Sequence)
      modifies this
      ensures View() == old(s.View())
    {
      bytes, extended := s.bytes, s.extended;
    }

    function Size(): (n: nat)
      reads this
      ensures n == |View().bytes|
    {
      |bytes|
    }

    function At(index: nat): (b: Byte)
      requires index < Size()
      reads this
      ensures b == View().bytes[index]
    {
      bytes[index]
    }

    method Clear()
      modifies this
      ensures View() == EMPTY
    {
      bytes, extended := [], false;
    }

    /** The table-driven checksum. A reduced buffer is left in wire form. */
    method Crc() returns (crc: Byte)
      modifies this
      ensures View() == old(View()).Extended()
      ensures crc == CrcOf(old(View()))
    {
      hide Remainder, Extend, CalcCrc;
      if !extended {
        ToExtended();
      }
      crc := ZERO;
      var i := 0;
      RemainderEmpty();
      while i < |bytes|
        invariant 0 <= i <= |bytes|
        invariant crc == Remainder(bytes[..i])
        invariant View() == old(View()).Extended()
      {
        RemainderSnoc(bytes[..i], bytes[i]);
        assert bytes[..i + 1] == bytes[..i] + [bytes[i]];
        crc := CalcCrc(bytes[i], crc);
        i := i + 1;
      }
      assert bytes[..i] == bytes;
      if !extended {
        // never taken: the flag was set by `ToExtended`, so the reduced form is not restored
        assert false;
      }
    }

    method ToExtended()
      modifies this
      ensures View() == old(View()).Extended()
    {
      hide Extend;
      if extended {
        return;
      }
      var tmp: seq<Byte> := [];
      assert Extend(bytes[..0]) == [] by {
        ExtendShape([]);
      }
      var i := 0;
      while i < |bytes|
        invariant 0 <= i <= |bytes|
        invariant tmp == Extend(bytes[..i])
        invariant View() == old(View())
      {
        assert bytes[..i + 1] == bytes[..i] + [bytes[i]];
        ExtendSnoc(bytes[..i], bytes[i]);
        if bytes[i] == SYN {
          tmp := tmp + [EXP];
          tmp := tmp + [SYNEXP];
        } else if bytes[i] == EXP {
          tmp := tmp + [EXP];
          tmp := tmp + [EXPEXP];
        } else {
          tmp := tmp + [bytes[i]];
        }
        i := i + 1;
      }
      assert bytes[..i] == bytes;
      bytes := tmp;
      extended := true;
    }

    method ToReduced()
      modifies this
      ensures View() == old(View()).Reduced()
    {
      if !extended {
        return;
      }
      var tmp: seq<Byte> := [];
      var esc := false;
      var i := 0;
      while i < |bytes|
        invariant 0 <= i <= |bytes|
        invariant tmp == Reduce(bytes[..i]) && esc == Pending(bytes[..i], false)
        invariant View() == old(View())
      {
        assert bytes[..i + 1] == bytes[..i] + [bytes[i]];
        ReduceConcat(bytes[..i], [bytes[i]], false);
        if bytes[i] == SYN || bytes[i] == EXP {
          esc := true;
        } else if esc {
          if bytes[i] == SYNEXP {
            tmp := tmp + [SYN];
          } else {
            tmp := tmp + [EXP];
          }
          esc := false;
        } else {
          tmp := tmp + [bytes[i]];
        }
        i := i + 1;
      }
      assert bytes[..i] == bytes;
      bytes := tmp;
      extended := false;
    }
  }

  /** Two representations of the same frame have the same checksum. */
  lemma CrcOfLogical(a: Buffer, b: Buffer)
    requires a.Valid() && b.Valid() && a.Logical() == b.Logical()
    ensures CrcOf(a) == CrcOf(b) == Remainder(Extend(a.Logical()))
  {
    ExtendReduce(a.bytes);
    ExtendReduce(b.bytes);
  }

  /** Changing the representation keeps the frame; the wire form is kept exactly when it is a wire image. */
  lemma RepresentationKeepsFrame(b: Buffer)
    ensures b.Extended().Logical() == b.Logical() == b.Reduced().Logical()
    ensures b.Extended().Reduced() == b.Reduced()
    ensures b.Reduced().Extended() == b.Extended() <==> b.Valid()
  {
    ReduceExtend(b.bytes);
    ExtendReduce(b.bytes);
  }
}

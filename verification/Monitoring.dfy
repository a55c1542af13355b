/**
 Listening. Over any stream of bytes the byte-by-byte monitor publishes exactly the telegrams found by cutting the
 stream at the SYN bytes and parsing the pieces; and it claims the bus for a pending message exactly when its
 countdown says so.
 */
module Monitoring {
  import opened Wrappers
  import opened Bytes
  import opened Escape
  import opened Sequences
  import opened TelegramValues
  import opened BusModel
  import Machine

  // ---------- The stream cut into pieces ----------

  function FirstSyn(w: seq<Byte>): (i: nat)
    ensures i <= |w| && NoSyn(w[..i]) && (i < |w| ==> w[i] == SYN)
  {
    if w == [] || w[0] == SYN then 0
    else
      var i := 1 + FirstSyn(w[1..]);
      assert w[..i] == [w[0]] + w[1..][..i - 1];
      i
  }

  /** The pieces that end with a SYN. */
  function Segments(w: seq<Byte>): seq<seq<Byte>>
    decreases |w|
  {
    var i := FirstSyn(w);
    if i == |w| then [] else [w[..i]] + Segments(w[i + 1..])
  }

  /** What follows the last SYN. */
  function Remnant(w: seq<Byte>): seq<Byte>
    decreases |w|
  {
    var i := FirstSyn(w);
    if i == |w| then w else Remnant(w[i + 1..])
  }

  /** What parsing the pieces on their own publishes. */
  function Publications(segments: seq<seq<Byte>>): seq<Publication> {
    if segments == [] then []
    else
      var s := segments[0];
      var t := Parse(Reduce(s));
      (if s != [] && t.IsValid() then [PublicationOf(t)] else []) + Publications(segments[1..])
  }

  /** Neither a broadcast nor addressed to us. */
  predicate Foreign(address: Byte, s: seq<Byte>) {
    |s| >= 2 ==> s[1] != BROAD && s[1] != address && s[1] != SlaveAddress(address)
  }

  predicate AllForeign(address: Byte, w: seq<Byte>) {
    (forall i :: 0 <= i < |Segments(w)| ==> Foreign(address, Segments(w)[i])) && Foreign(address, Remnant(w))
  }

  // ---------- Monitoring byte by byte ----------

  /** `monitorBus` called `n` times, as long as it stays in its state. */
  function MonitorRun(b: Bus, n: nat): Run<State>
    decreases n
  {
    if n == 0 then Ok(b, MonitorBus)
    else
      var (b1, s) :- Monitor(b);
      if s == MonitorBus then MonitorRun(b1, n - 1) else Ok(b1, s)
  }

  /** The bytes of `w` are the next ones on the bus. */
  predicate Upcoming(input: seq<Input>, w: seq<Byte>) {
    |w| <= |input| && forall i :: 0 <= i < |w| ==> input[i] == Data(w[i])
  }

  /** Nobody is waiting to send. */
  predicate Passive(b: Bus) {
    b.active.None? && b.queue == []
  }

  predicate MessagePending(b: Bus) {
    b.active.Some? || b.queue != []
  }

  /** The countdown after the SYN that ends the piece `s`: one less, and raised to two after a lone byte. */
  function Counted(c: int, s: seq<Byte>): int {
    var d := if c != 0 then c - 1 else 0; if s != [] && |Reduce(s)| == 1 && d < 2 then 2 else d
  }

  /** The first piece that ends the countdown, if one does. */
  function ClaimIndex(c: int, segments: seq<seq<Byte>>): (i: nat)
    ensures i <= |segments|
    decreases |segments|
  {
    if segments == [] || Counted(c, segments[0]) == 0 then 0
    else 1 + ClaimIndex(Counted(c, segments[0]), segments[1..])
  }

  /** After these pieces the bus is claimed at the last one, or not yet, as the countdown says. */
  predicate InTurn(b: Bus, next: State, segments: seq<seq<Byte>>) {
    MessagePending(b) ==> ClaimIndex(b.lockCounter, segments) == if next == LockBus then |segments| - 1 else |segments|
  }

  lemma {:induction false} FirstSynOf(acc: seq<Byte>, w: seq<Byte>)
    requires NoSyn(acc)
    ensures FirstSyn(acc + w) == |acc| + FirstSyn(w)
  {
    if acc == [] {
      assert acc + w == w;
    } else {
      assert (acc + w)[1..] == acc[1..] + w;
      FirstSynOf(acc[1..], w);
    }
  }

  /** One byte that is no SYN is added to the piece. */
  lemma MonitorByte(b: Bus, acc: seq<Byte>, x: Byte)
    requires b.sequence == Push(EMPTY, acc) && Upcoming(b.device.input, [x]) && x != SYN
    ensures var r := Monitor(b);
            && r.Ok? && r.value == (if Addressed(r.bus) then ReceiveMessage else MonitorBus)
            && r.bus.sequence == Push(EMPTY, acc + [x])
            && r.bus.device.input == b.device.input[1..] && r.bus.log.published == b.log.published
            && r.bus.address == b.address && r.bus.queue == b.queue && r.bus.active == b.active
            && r.bus.lockCounter == b.lockCounter
            && (Foreign(b.address, acc + [x]) ==> !Addressed(r.bus))
  {
    hide SlaveAddress;
  }

  /** A SYN publishes the piece if it is a valid telegram; the bus may be claimed then. */
  lemma MonitorSyn(b: Bus, acc: seq<Byte>)
    requires b.sequence == Push(EMPTY, acc) && Upcoming(b.device.input, [SYN])
    ensures var r := Monitor(b);
            && r.Ok? && r.value == (if Due(r.bus) then LockBus else MonitorBus) && r.bus.sequence == EMPTY
            && r.bus.device.input == b.device.input[1..]
            && r.bus.log.published == b.log.published + Publications([acc])
            && r.bus.address == b.address && (Passive(b) ==> Passive(r.bus))
            && r.bus.lockCounter == Counted(b.lockCounter, acc) && (MessagePending(b) ==> r.bus.active.Some?)
  {
    hide Parse, PublicationOf, Reduce, SlaveAddress;
    assert [acc][1..] == [];
    assert b.log.published + [] == b.log.published;
    var b1 := CountDown(Read(b).bus);
    assert b1.sequence.bytes == acc;
    assert Decode(b1).log.published == b.log.published + Publications([acc]);
  }

  lemma PublicationsCons(s: seq<Byte>, rest: seq<seq<Byte>>)
    ensures Publications([s] + rest) == Publications([s]) + Publications(rest)
  {
    hide Parse;
    assert ([s] + rest)[1..] == rest;
    assert [s][1..] == [];
  }

  /** Where monitoring stops: after all of it, at a SYN with a message whose turn has come, or at a header for us. */
  predicate Stopped(b: Bus, next: State, acc: seq<Byte>, w: seq<Byte>, k: nat)
    requires k <= |w|
  {
    match next
    case MonitorBus => k == |w| && b.sequence == Push(EMPTY, Remnant(acc + w))
    case LockBus => k > 0 && w[k - 1] == SYN && b.sequence == EMPTY && Due(b)
    case ReceiveMessage => k > 0 && w[k - 1] != SYN && b.sequence == Push(EMPTY, Remnant(acc + w[..k])) && Addressed(b)
    case _ => false
  }

  /** What has been reached after hearing the first `k` bytes of `w`, in the middle of the piece `acc`. */
  predicate HeardSoFar(b: Bus, acc: seq<Byte>, w: seq<Byte>, k: nat) {
    var r := MonitorRun(b, |w|);
    && r.Ok? && k <= |w| && k <= |b.device.input| && r.bus.device.input == b.device.input[k..]
    && r.bus.log.published == b.log.published + Publications(Segments(acc + w[..k]))
    && Stopped(r.bus, r.value, acc, w, k) && InTurn(b, r.value, Segments(acc + w[..k]))
    && (Passive(b) ==> r.value != LockBus)
    && (AllForeign(b.address, acc + w) ==> r.value != ReceiveMessage)
  }

  /** A piece that did not end yet. */
  lemma OpenPiece(acc: seq<Byte>)
    requires NoSyn(acc)
    ensures Segments(acc) == [] && Remnant(acc) == acc && Publications([]) == []
  {
    FirstSynOf(acc, []);
    assert acc + [] == acc;
  }

  lemma HeardNothing(b: Bus, acc: seq<Byte>)
    requires b.sequence == Push(EMPTY, acc) && NoSyn(acc)
    ensures HeardSoFar(b, acc, [], 0)
  {
    hide Monitor, Segments, Remnant, Publications, Foreign;
    OpenPiece(acc);
    var w: seq<Byte> := [];
    assert acc + w == acc && acc + w[..0] == acc && w[..0] == [];
    assert b.log.published + [] == b.log.published;
  }

  lemma CutAtSyn(acc: seq<Byte>, t: seq<Byte>)
    requires NoSyn(acc)
    ensures Segments(acc + ([SYN] + t)) == [acc] + Segments(t) && Remnant(acc + ([SYN] + t)) == Remnant(t)
  {
    FirstSynOf(acc, [SYN] + t);
    var w := acc + ([SYN] + t);
    assert w[..|acc|] == acc && w[|acc| + 1..] == t;
  }

  /** The bus is claimed at this SYN. */
  lemma ClaimedAtSyn(b: Bus, acc: seq<Byte>, t: seq<Byte>)
    requires NoSyn(acc) && b.sequence == Push(EMPTY, acc) && Upcoming(b.device.input, [SYN] + t)
    requires Monitor(b).Ok? && Monitor(b).value == LockBus
    ensures HeardSoFar(b, acc, [SYN] + t, 1)
  {
    hide Monitor, Publications, Segments, Remnant, AllForeign, NoSyn;
    assert b.device.input[0] == Data(([SYN] + t)[0]);
    MonitorSyn(b, acc);
    CutAtSyn(acc, []);
    NothingCut();
    assert ([SYN] + t)[..1] == [SYN] && acc + ([SYN] + []) == acc + [SYN] && [acc] + [] == [acc];
  }

  lemma SynWindow(acc: seq<Byte>, t: seq<Byte>, k: nat)
    requires NoSyn(acc) && k <= |t|
    ensures var w := [SYN] + t;
            && Segments(acc + w[..k + 1]) == [acc] + Segments(t[..k])
            && Remnant(acc + w[..k + 1]) == Remnant([] + t[..k])
            && Remnant(acc + w) == Remnant([] + t) && w[k] == (if k == 0 then SYN else t[k - 1])
  {
    hide Segments, Remnant, NoSyn;
    CutAtSyn(acc, t[..k]);
    CutAtSyn(acc, t);
    assert ([SYN] + t)[..k + 1] == [SYN] + t[..k] && [] + t[..k] == t[..k] && [] + t == t;
  }

  lemma MonitorRunUnfolds(b: Bus, n: nat)
    requires Monitor(b).Ok? && Monitor(b).value == MonitorBus
    ensures MonitorRun(b, n + 1) == MonitorRun(Monitor(b).bus, n)
  {
    hide Monitor;
  }

  lemma PublishedBefore(p: seq<Publication>, acc: seq<Byte>, rest: seq<seq<Byte>>)
    ensures p + Publications([acc]) + Publications(rest) == p + Publications([acc] + rest)
  {
    hide Publications;
    PublicationsCons(acc, rest);
  }

  lemma TurnBefore(b: Bus, next: State, acc: seq<Byte>, rest: seq<seq<Byte>>)
    requires Monitor(b).Ok? && InTurn(Monitor(b).bus, next, rest)
    requires Monitor(b).bus.lockCounter == Counted(b.lockCounter, acc)
    requires MessagePending(b) ==> MessagePending(Monitor(b).bus) && Counted(b.lockCounter, acc) != 0
    ensures InTurn(b, next, [acc] + rest)
  {
    hide Monitor, Counted;
    assert ([acc] + rest)[1..] == rest;
  }

  lemma StoppedLater(b: Bus, next: State, acc: seq<Byte>, t: seq<Byte>, k: nat)
    requires NoSyn(acc) && k <= |t| && Stopped(b, next, [], t, k)
    ensures Stopped(b, next, acc, [SYN] + t, k + 1)
  {
    hide Due, Addressed, Segments, Remnant, NoSyn;
    SynWindow(acc, t, k);
  }

  lemma HeardSyn(b: Bus, acc: seq<Byte>, t: seq<Byte>, k: nat)
    requires NoSyn(acc) && b.sequence == Push(EMPTY, acc) && Upcoming(b.device.input, [SYN] + t)
    requires Monitor(b).Ok? && Monitor(b).value == MonitorBus && HeardSoFar(Monitor(b).bus, [], t, k)
    ensures HeardSoFar(b, acc, [SYN] + t, k + 1)
  {
    hide Monitor, MonitorRun, Publications, Segments, Remnant, AllForeign, NoSyn, Due, Addressed, Passive, InTurn,
      Counted, Stopped;
    assert b.device.input[0] == Data(([SYN] + t)[0]);
    MonitorSyn(b, acc);
    MonitorRunUnfolds(b, |t|);
    SynWindow(acc, t, k);
    PublishedBefore(b.log.published, acc, Segments(t[..k]));
    DueExactly(Monitor(b).bus);
    assert [] + t[..k] == t[..k] && [] + t == t;
    var r := MonitorRun(Monitor(b).bus, |t|);
    TurnBefore(b, r.value, acc, Segments(t[..k]));
    StoppedLater(r.bus, r.value, acc, t, k);
    assert b.device.input[1..][k..] == b.device.input[k + 1..];
    if AllForeign(b.address, acc + ([SYN] + t)) {
      assert acc + [SYN] + t == acc + ([SYN] + t);
      PieceForeign(b.address, acc, t);
    }
  }

  lemma DueExactly(b: Bus)
    ensures Due(b) <==> b.active.Some? && b.lockCounter == 0
  {
  }

  /** The header of a message for us or for everybody ends here. */
  lemma AddressedAtByte(b: Bus, acc: seq<Byte>, x: Byte, t: seq<Byte>)
    requires NoSyn(acc + [x]) && x != SYN && b.sequence == Push(EMPTY, acc) && Upcoming(b.device.input, [x] + t)
    requires Monitor(b).Ok? && Monitor(b).value == ReceiveMessage
    ensures HeardSoFar(b, acc, [x] + t, 1)
  {
    hide Monitor, Publications, Segments, Remnant, AllForeign, NoSyn, Foreign, Addressed;
    assert b.device.input[0] == Data(([x] + t)[0]);
    MonitorByte(b, acc, x);
    OpenPiece(acc + [x]);
    assert ([x] + t)[..1] == [x] && b.log.published + [] == b.log.published;
    assert acc + ([x] + t) == (acc + [x]) + t;
    if AllForeign(b.address, acc + ([x] + t)) {
      PrefixForeign(b.address, acc + [x], t);
    }
  }

  lemma HeardByte(b: Bus, acc: seq<Byte>, x: Byte, t: seq<Byte>, k: nat)
    requires x != SYN && b.sequence == Push(EMPTY, acc) && Upcoming(b.device.input, [x] + t)
    requires Monitor(b).Ok? && Monitor(b).value == MonitorBus && HeardSoFar(Monitor(b).bus, acc + [x], t, k)
    ensures HeardSoFar(b, acc, [x] + t, k + 1)
  {
    hide Monitor, Publications, Segments, Remnant, AllForeign, NoSyn, Foreign, Due, Addressed, Counted, ClaimIndex,
      MonitorRun;
    var w := [x] + t;
    assert b.device.input[0] == Data(w[0]);
    MonitorByte(b, acc, x);
    assert w[..k + 1] == [x] + t[..k] && w[1..] == t;
    assert acc + ([x] + t[..k]) == (acc + [x]) + t[..k] && acc + w == (acc + [x]) + t;
    assert b.device.input[1..][k..] == b.device.input[k + 1..];
    MonitorRunUnfolds(b, |t|);
    var r := MonitorRun(Monitor(b).bus, |t|);
    StoppedNext(r.bus, r.value, acc, x, t, k);
  }

  lemma StoppedNext(b: Bus, next: State, acc: seq<Byte>, x: Byte, t: seq<Byte>, k: nat)
    requires x != SYN && k <= |t| && Stopped(b, next, acc + [x], t, k)
    ensures Stopped(b, next, acc, [x] + t, k + 1)
  {
    hide Due, Addressed, Segments, Remnant;
    var w := [x] + t;
    assert w[..k + 1] == [x] + t[..k];
    assert acc + ([x] + t[..k]) == (acc + [x]) + t[..k] && acc + w == (acc + [x]) + t;
    assert w[k] == if k == 0 then x else t[k - 1];
  }

  lemma {:induction false} MonitorFrom(b: Bus, acc: seq<Byte>, w: seq<Byte>) returns (k: nat)
    requires b.sequence == Push(EMPTY, acc) && NoSyn(acc) && Upcoming(b.device.input, w)
    ensures HeardSoFar(b, acc, w, k)
    decreases |w|
  {
    hide Monitor, Foreign, Publications, HeardSoFar, AllForeign, Addressed, Counted;
    if w == [] {
      HeardNothing(b, acc);
      k := 0;
    } else {
      var x, t := w[0], w[1..];
      assert w == [x] + t;
      var b1 := Monitor(b).bus;
      if x == SYN {
        MonitorSyn(b, acc);
        if Monitor(b).value == LockBus {
          ClaimedAtSyn(b, acc, t);
          k := 1;
        } else {
          k := MonitorFrom(b1, [], t);
          HeardSyn(b, acc, t, k);
          k := k + 1;
        }
      } else {
        MonitorByte(b, acc, x);
        if Monitor(b).value == ReceiveMessage {
          AddressedAtByte(b, acc, x, t);
          k := 1;
        } else {
          k := MonitorFrom(b1, acc + [x], t);
          HeardByte(b, acc, x, t, k);
          k := k + 1;
        }
      }
    }
  }

  lemma PieceForeign(address: Byte, acc: seq<Byte>, t: seq<Byte>)
    requires NoSyn(acc) && AllForeign(address, acc + [SYN] + t)
    ensures AllForeign(address, t)
  {
    hide Foreign, Segments, Remnant, NoSyn;
    var w := acc + [SYN] + t;
    assert w == acc + ([SYN] + t);
    CutAtSyn(acc, t);
    forall i | 0 <= i < |Segments(t)|
      ensures Foreign(address, Segments(t)[i])
    {
      assert Segments(w)[i + 1] == Segments(t)[i];
    }
  }

  lemma PrefixForeign(address: Byte, acc: seq<Byte>, t: seq<Byte>)
    requires NoSyn(acc) && AllForeign(address, acc + t)
    ensures Foreign(address, acc)
  {
    hide SlaveAddress;
    FirstSynOf(acc, t);
    var i := FirstSyn(acc + t);
    if |acc| >= 2 {
      assert (acc + t)[..i][1] == acc[1];
      if i < |acc + t| {
        assert Segments(acc + t)[0] == (acc + t)[..i];
      } else {
        assert (acc + t)[1] == acc[1];
      }
    }
  }

  /**
   Listening to any bytes publishes exactly the valid telegrams between the SYN bytes, in order, as far as it gets: to
   the end, or to the SYN at which a waiting message claims the bus, or to a header for us or for everybody.
   */
  lemma MonitorPublishes(b: Bus, w: seq<Byte>) returns (k: nat)
    requires b.sequence == EMPTY && Upcoming(b.device.input, w)
    ensures k <= |w| && k <= |b.device.input|
    ensures var r := MonitorRun(b, |w|);
            && r.Ok? && Stopped(r.bus, r.value, [], w, k) && r.bus.device.input == b.device.input[k..]
            && r.bus.log.published == b.log.published + Publications(Segments(w[..k]))
            && (Passive(b) ==> r.value != LockBus) && (AllForeign(b.address, w) ==> r.value != ReceiveMessage)
            && InTurn(b, r.value, Segments(w[..k]))
  {
    hide Parse, Monitor, Foreign, Publications, MonitorRun, Segments, Remnant, AllForeign, Upcoming, Stopped, InTurn;
    assert [] + w == w;
    k := MonitorFrom(b, [], w);
    assert [] + w[..k] == w[..k];
  }

  /** A passive participant to which all of it is foreign publishes the valid telegrams between the SYN bytes. */
  lemma AllPublished(b: Bus, w: seq<Byte>)
    requires b.sequence == EMPTY && Passive(b) && Upcoming(b.device.input, w) && AllForeign(b.address, w)
    ensures var r := MonitorRun(b, |w|);
            && r.Ok? && r.value == MonitorBus
            && r.bus.log.published == b.log.published + Publications(Segments(w))
            && r.bus.sequence.bytes == Remnant(w)
  {
    hide Parse, Monitor, Foreign, Publications, MonitorRun, Segments, Remnant, AllForeign, Upcoming;
    var k := MonitorPublishes(b, w);
    assert w[..|w|] == w && [] + w == w;
  }

  // ---------- Telegrams on the wire ----------

  /** The telegrams in wire form, each followed by a SYN. */
  function Stream(telegrams: seq<seq<Byte>>): seq<Byte> {
    if telegrams == [] then [] else Extend(telegrams[0]) + ([SYN] + Stream(telegrams[1..]))
  }

  function WireForms(telegrams: seq<seq<Byte>>): seq<seq<Byte>> {
    if telegrams == [] then [] else [Extend(telegrams[0])] + WireForms(telegrams[1..])
  }

  /** What is published when every telegram is decoded once. */
  function Decodings(telegrams: seq<seq<Byte>>): (r: seq<Publication>)
    ensures |r| == |telegrams|
    ensures forall i :: 0 <= i < |r| ==> r[i] == PublicationOf(Parse(telegrams[i]))
  {
    seq(|telegrams|, i requires 0 <= i < |telegrams| => PublicationOf(Parse(telegrams[i])))
  }

  predicate AllValid(telegrams: seq<seq<Byte>>) {
    forall i :: 0 <= i < |telegrams| ==> Parse(telegrams[i]).IsValid()
  }

  lemma {:induction false} StreamSegments(telegrams: seq<seq<Byte>>)
    ensures Segments(Stream(telegrams)) == WireForms(telegrams) && Remnant(Stream(telegrams)) == []
  {
    hide Segments, Remnant;
    if telegrams == [] {
      NothingCut();
    } else {
      StreamSegments(telegrams[1..]);
      ExtendShape(telegrams[0]);
      CutAtSyn(Extend(telegrams[0]), Stream(telegrams[1..]));
    }
  }

  lemma NothingCut()
    ensures Segments([]) == [] && Remnant([]) == []
  {
  }

  lemma {:induction false} WireFormsPublished(telegrams: seq<seq<Byte>>)
    requires AllValid(telegrams)
    ensures Publications(WireForms(telegrams)) == Decodings(telegrams)
  {
    hide Parse, PublicationOf;
    if telegrams != [] {
      var t, rest := telegrams[0], telegrams[1..];
      WireFormsPublished(rest);
      ReduceExtend(t);
      assert Parse(t).IsValid() && Extend(t) != [] by {
        EmptyInvalid();
      }
      PublicationsCons(Extend(t), WireForms(rest));
      assert [Extend(t)][1..] == [];
      assert Decodings(telegrams) == [PublicationOf(Parse(t))] + Decodings(rest);
    }
  }

  lemma EmptyInvalid()
    ensures !Parse([]).IsValid() && Extend([]) == []
  {
  }

  lemma PrefixCut(acc: seq<Byte>, t: seq<Byte>, n: nat)
    requires NoSyn(acc) && n <= |t| && Segments(t[..n]) <= Segments(t)
    ensures var w := acc + ([SYN] + t); Segments(w[..|acc| + 1 + n]) <= Segments(w)
  {
    hide Segments, Remnant, NoSyn;
    CutAtSyn(acc, t);
    CutAtSyn(acc, t[..n]);
    assert (acc + ([SYN] + t))[..|acc| + 1 + n] == acc + ([SYN] + t[..n]);
  }

  lemma PrefixOpen(w: seq<Byte>, k: nat)
    requires k <= FirstSyn(w)
    ensures Segments(w[..k]) == []
  {
    hide FirstSyn, Segments, Remnant;
    forall n | 0 <= n < k
      ensures w[..k][n] != SYN
    {
      assert w[..FirstSyn(w)][n] == w[n];
    }
    OpenPiece(w[..k]);
  }

  /** Stopping early yields the first of the pieces. */
  lemma {:induction false} SegmentsPrefix(w: seq<Byte>, k: nat)
    requires k <= |w|
    ensures Segments(w[..k]) <= Segments(w)
    decreases |w|
  {
    hide FirstSyn, Segments, Remnant, NoSyn;
    var i := FirstSyn(w);
    if i < k {
      var acc, t := w[..i], w[i + 1..];
      SegmentsPrefix(t, k - i - 1);
      PrefixCut(acc, t, k - i - 1);
      assert w == acc + ([SYN] + t);
    } else {
      PrefixOpen(w, k);
    }
  }

  lemma {:induction false} WireFormsPrefix(telegrams: seq<seq<Byte>>, segments: seq<seq<Byte>>)
    requires segments <= WireForms(telegrams)
    ensures |segments| <= |telegrams| && segments == WireForms(telegrams[..|segments|])
  {
    if segments == [] {
    } else {
      var rest := WireForms(telegrams[1..]);
      assert WireForms(telegrams)[1..] == rest && segments[1..] <= rest;
      assert segments[0] == WireForms(telegrams)[0];
      WireFormsPrefix(telegrams[1..], segments[1..]);
      var n := |segments|;
      assert telegrams[..n][0] == telegrams[0] && telegrams[..n][1..] == telegrams[1..][..n - 1];
      assert segments == [segments[0]] + segments[1..];
    }
  }

  lemma {:induction false} WireFormsSize(telegrams: seq<seq<Byte>>)
    ensures |WireForms(telegrams)| == |telegrams|
  {
    if telegrams != [] {
      WireFormsSize(telegrams[1..]);
    }
  }

  /**
   Valid telegrams sent in wire form are each published exactly once, in order, and nothing else is, until the bus is
   claimed or a telegram is for us or for everybody; that one is left to `receiveMessage`.
   */
  lemma TelegramsHeard(b: Bus, telegrams: seq<seq<Byte>>) returns (n: nat)
    requires b.sequence == EMPTY && Upcoming(b.device.input, Stream(telegrams)) && AllValid(telegrams)
    ensures n <= |telegrams|
    ensures var r := MonitorRun(b, |Stream(telegrams)|);
            && r.Ok? && r.bus.log.published == b.log.published + Decodings(telegrams[..n])
            && (r.value == MonitorBus ==> n == |telegrams| && r.bus.sequence.bytes == [])
            && (Passive(b) ==> r.value != LockBus)
            && (AllForeign(b.address, Stream(telegrams)) ==> r.value != ReceiveMessage)
  {
    hide Parse, MonitorRun, Publications, Segments, Remnant, AllForeign, Upcoming, Decodings, Addressed, Due, WireForms,
      Passive;
    var w := Stream(telegrams);
    var k := MonitorPublishes(b, w);
    StreamSegments(telegrams);
    SegmentsPrefix(w, k);
    WireFormsPrefix(telegrams, Segments(w[..k]));
    n := |Segments(w[..k])|;
    assert AllValid(telegrams[..n]);
    WireFormsPublished(telegrams[..n]);
    WireFormsSize(telegrams);
    assert w[..|w|] == w && [] + w == w;
  }

  // ---------- Waiting for the bus ----------

  /** Only the pieces up to the claim matter. */
  lemma {:induction false} ClaimPrefix(c: int, p: seq<seq<Byte>>, segments: seq<seq<Byte>>)
    requires p <= segments
    ensures ClaimIndex(c, p) < |p| ==> ClaimIndex(c, segments) == ClaimIndex(c, p)
    decreases |p|
  {
    hide Counted;
    if p != [] {
      ClaimPrefix(Counted(c, p[0]), p[1..], segments[1..]);
    }
  }

  /**
   A message that is waiting gets the bus on any stream of other telegrams at exactly the SYN that ends its countdown,
   and not at all if none does.
   */
  lemma ClaimsExactly(b: Bus, w: seq<Byte>) returns (k: nat)
    requires b.sequence == EMPTY && MessagePending(b) && Upcoming(b.device.input, w) && AllForeign(b.address, w)
    ensures k <= |w| <= |b.device.input|
    ensures var r, n := MonitorRun(b, |w|), ClaimIndex(b.lockCounter, Segments(w));
            && r.Ok? && r.bus.device.input == b.device.input[k..]
            && (r.value == LockBus <==> n < |Segments(w)|) && (r.value == MonitorBus <==> n == |Segments(w)|)
            && (r.value == LockBus ==> k > 0 && w[k - 1] == SYN && |Segments(w[..k])| == n + 1)
            && (r.value == MonitorBus ==> k == |w|)
  {
    hide Foreign, Publications, MonitorRun, Segments, Remnant, AllForeign, Addressed, Due, ClaimIndex;
    k := MonitorPublishes(b, w);
    SegmentsPrefix(w, k);
    ClaimPrefix(b.lockCounter, Segments(w[..k]), Segments(w));
    assert w[..|w|] == w;
  }

  function Syns(n: nat): (s: seq<Byte>)
    ensures |s| == n
  {
    seq(n, _ => SYN)
  }

  /** The message whose turn it is. */
  function Upfront(b: Bus): Message
    requires MessagePending(b)
  {
    if b.active.Some? then b.active.value else b.queue[0]
  }

  lemma SynPending(b: Bus)
    requires b.sequence.bytes == [] && MessagePending(b) && b.lockCounter >= 0 && Upcoming(b.device.input, [SYN])
    ensures var r := Monitor(b);
            && r.Ok? && r.value == (if b.lockCounter <= 1 then LockBus else MonitorBus)
            && r.bus.lockCounter == (if b.lockCounter == 0 then 0 else b.lockCounter - 1)
            && r.bus.sequence.bytes == [] && r.bus.active == Some(Upfront(b))
            && r.bus.device.input == b.device.input[1..]
  {
    hide Parse;
  }

  /** On a silent bus the pending message gets the bus at exactly the SYN that ends its countdown. */
  lemma {:induction false} ClaimsInTime(b: Bus, n: nat)
    requires b.sequence.bytes == [] && MessagePending(b) && b.lockCounter >= 0
    requires n <= Machine.Larger(b.lockCounter, 1) && Upcoming(b.device.input, Syns(n))
    ensures var r := MonitorRun(b, n);
            && r.Ok? && r.value == (if n == Machine.Larger(b.lockCounter, 1) then LockBus else MonitorBus)
            && (n > 0 ==> r.bus.active == Some(Upfront(b)))
    decreases n
  {
    hide Monitor;
    if n > 0 {
      assert b.device.input[0] == Data(Syns(n)[0]);
      SynPending(b);
      var b1 := Monitor(b).bus;
      if b.lockCounter > 1 {
        assert Upcoming(b1.device.input, Syns(n - 1)) by {
          forall i | 0 <= i < n - 1
            ensures b1.device.input[i] == Data(Syns(n - 1)[i])
          {
            assert b.device.input[i + 1] == Data(Syns(n)[i + 1]);
          }
        }
        ClaimsInTime(b1, n - 1);
      }
    }
  }

  /**
   After a lost arbitration the bus is claimed again at the next SYN when the winner's address ends with the same four
   bits, and after a full countdown otherwise.
   */
  lemma ClaimsAgain(b: Bus, n: nat)
    requires Ready(b, LockBus) && Lock(b).Ok? && Lock(b).value == MonitorBus && b.sequence.bytes == [] && b.lockMax >= 0
    requires b.device.input != [] && b.device.input[0].Data?
    requires var x, qq := b.device.input[0].byte, b.active.value.tel.master.bytes[0];
             n <= if x % 16 == qq % 16 then 1 else Machine.Larger(b.lockMax, 1)
    requires Upcoming(Lock(b).bus.device.input, Syns(n))
    ensures var x, qq := b.device.input[0].byte, b.active.value.tel.master.bytes[0];
            var c := if x % 16 == qq % 16 then 1 else Machine.Larger(b.lockMax, 1);
            var r := MonitorRun(Lock(b).bus, n);
            && x != qq
            && r.Ok? && r.value == (if n == c then LockBus else MonitorBus) && r.bus.active == b.active
  {
    hide Monitor, Lock, Upcoming, SamePriority, Ready;
    LockLost(b);
    ClaimsInTime(Lock(b).bus, n);
  }

  /** What a lost arbitration leaves: the same message, and the countdown that its winner deserves. */
  lemma LockLost(b: Bus)
    requires Ready(b, LockBus) && Lock(b).Ok? && Lock(b).value == MonitorBus
    requires b.device.input != [] && b.device.input[0].Data?
    ensures b.active.Some? && b.active.value.tel.master.bytes != []
    ensures var x, qq := b.device.input[0].byte, b.active.value.tel.master.bytes[0];
            var c := Lock(b).bus;
            && x != qq && c.active == b.active && c.sequence == b.sequence
            && c.lockCounter == if x % 16 == qq % 16 then 1 else b.lockMax
  {
    hide SamePriority;
    PriorityExactly(b.device.input[0].byte, b.active.value.tel.master.bytes[0]);
  }

  /** The priority class of an address is its lower half. */
  lemma PriorityExactly(x: Byte, y: Byte)
    ensures SamePriority(x, y) <==> x % 16 == y % 16
  {
  }

  /** A lone byte between two SYN bytes is the trace of a collision; it keeps the bus free for one more SYN. */
  lemma CollisionDefers(b: Bus)
    requires |b.sequence.Logical()| == 1 && Upcoming(b.device.input, Syns(2))
    ensures var r := MonitorRun(b, 2);
            r.Ok? && r.value == MonitorBus && r.bus.lockCounter >= 1
  {
    hide Monitor, Reduce;
    assert b.device.input[0] == Data(Syns(2)[0]) && b.device.input[1] == Data(Syns(2)[1]);
    CollisionStep(b);
    SilentStep(Monitor(b).bus);
  }

  lemma CollisionStep(b: Bus)
    requires |b.sequence.Logical()| == 1 && b.device.input != [] && b.device.input[0] == Data(SYN)
    ensures var r := Monitor(b);
            && r.Ok? && r.value == MonitorBus && r.bus.lockCounter >= 2
            && r.bus.sequence.bytes == [] && r.bus.device.input == b.device.input[1..]
  {
    hide Parse, PublicationOf, Tel.IsValid;
    assert b.sequence.bytes != [];
    var b1 := CountDown(Read(b).bus);
    assert Decode(b1).lockCounter >= 2 && Decode(b1).sequence == EMPTY;
  }

  lemma SilentStep(b: Bus)
    requires b.sequence.bytes == [] && b.lockCounter >= 2 && b.device.input != [] && b.device.input[0] == Data(SYN)
    ensures Monitor(b).Ok? && Monitor(b).value == MonitorBus && Monitor(b).bus.lockCounter == b.lockCounter - 1
  {
    hide Parse;
  }

  // ---------- The thread ----------

  function Threads(n: nat): (s: seq<Machine.Action>)
    ensures |s| == n
  {
    seq(n, _ => Machine.Thread)
  }

  /** Left alone, the thread does what `MonitorRun` says: one state method and one test of the close flag at a time. */
  lemma {:induction false} MonitorThread(s: Machine.Sys, n: nat)
    requires s.pc == Machine.Exec(MonitorBus) && !s.close
    requires MonitorRun(s.bus, n).Ok? && MonitorRun(s.bus, n).value == MonitorBus
    ensures Machine.After(s, Threads(2 * n)) == s.(bus := MonitorRun(s.bus, n).bus)
    decreases n
  {
    hide Monitor;
    if n > 0 {
      var b1 := Monitor(s.bus).bus;
      var s1 := s.(bus := b1, pc := Machine.Check(MonitorBus));
      assert Machine.Act(s, Machine.Thread) == s1;
      var s2 := s.(bus := b1);
      assert Machine.Act(s1, Machine.Thread) == s2;
      assert Threads(2 * n)[1..] == Threads(2 * n - 1) && Threads(2 * n - 1)[1..] == Threads(2 * (n - 1));
      assert Machine.After(s, Threads(2 * n)) == Machine.After(s1, Threads(2 * n - 1));
      assert Machine.After(s1, Threads(2 * n - 1)) == Machine.After(s2, Threads(2 * (n - 1)));
      MonitorThread(s2, n - 1);
    }
  }
}

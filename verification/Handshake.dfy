/**
 Callers and the thread, interleaved in any way: each caller waits on the latch of its message and then fetches the
 result, and the thread rings the latch of every message it hands back. No wake-up is lost, and what a caller
 fetches is the final result.
 */
module Handshake {
  import opened Wrappers
  import opened BusModel
  import opened Machine
  import opened Runs
  import opened Notification
  import Results

  /** The participant, and by message number the latch and the result that the caller has fetched. */
  datatype World = World(sys: Sys, latches: seq<Latch>, results: seq<Option<int>>)

  /** A step of the participant or of the callers' enqueueing, or of the caller that waits for message `id`. */
  datatype Move = Do(action: Action) | Wait(id: nat) | Resume(id: nat) | Fetch(id: nat)

  /** All messages, in the order of their numbers. */
  function Messages(b: Bus): seq<Message> {
    b.log.completed + (if b.active.Some? then [b.active.value] else []) + b.queue
  }

  function RingAll(latches: seq<Latch>, ids: seq<nat>): (r: seq<Latch>)
    ensures |r| == |latches|
  {
    seq(|latches|, i requires 0 <= i < |latches| => if i in ids then Ring(latches[i]) else latches[i])
  }

  /** The messages handed back by a step. */
  function News(a: Bus, b: Bus): seq<Message> {
    if |a.log.completed| <= |b.log.completed| then b.log.completed[|a.log.completed|..] else []
  }

  function Perform(w: World, m: Move): World {
    match m
    case Do(a) =>
      var s := Act(w.sys, a);
      var latches := if |s.enqueued| > |w.sys.enqueued| then w.latches + [Latch(false, Outside)] else w.latches;
      var results := if |s.enqueued| > |w.sys.enqueued| then w.results + [None] else w.results;
      World(s, RingAll(latches, Ids(News(w.sys.bus, s.bus))), results)
    case Wait(id) =>
      if id < |w.latches| && w.latches[id].place == Outside
      then w.(latches := w.latches[id := Arrive(w.latches[id])])
      else w
    case Resume(id) =>
      if id < |w.latches| && w.latches[id].place == Woken
      then w.(latches := w.latches[id := Leave(w.latches[id])])
      else w
    case Fetch(id) =>
      if id < |w.latches| && id < |w.results| && id < |Messages(w.sys.bus)| && w.latches[id].place == Passed
      then w.(results := w.results[id := Some(Messages(w.sys.bus)[id].state)])
      else w
  }

  function AfterMoves(w: World, moves: seq<Move>): World
    decreases |moves|
  {
    if moves == [] then w else AfterMoves(Perform(w, moves[0]), moves[1..])
  }

  function FirstWorld(s: Sys): World {
    World(s, [], [])
  }

  // ---------- The invariant ----------

  /** How the latch of a message relates to whether the message was handed back. */
  predicate Consistent(l: Latch, back: bool) {
    match l.place
    case Outside => l.flag == back
    case Blocked => !l.flag && !back
    case Woken => l.flag && back
    case Passed => back
  }

  predicate Sane(w: World) {
    var done := w.sys.bus.log.completed;
    && Invariant(w.sys) && |w.latches| == |w.results| == |w.sys.enqueued|
    && (forall i :: 0 <= i < |w.latches| ==> Consistent(w.latches[i], i < |done|))
    && (forall i :: 0 <= i < |w.results| && w.results[i].Some? ==> i < |done| && w.results[i].value == done[i].state)
  }

  lemma LedgerMessages(b: Bus)
    ensures Ids(Messages(b)) == Ledger(b)
  {
    var a := if b.active.Some? then [b.active.value] else [];
    IdsConcat(b.log.completed + a, b.queue);
    IdsConcat(b.log.completed, a);
  }

  /** The message at position `i` is message number `i`. */
  lemma MessageNumbers(s: Sys)
    requires Invariant(s)
    ensures |Messages(s.bus)| == |s.enqueued|
    ensures forall i :: 0 <= i < |s.enqueued| ==> Messages(s.bus)[i].id == i
  {
    hide Good, Ledger;
    LedgerMessages(s.bus);
    forall i | 0 <= i < |s.enqueued|
      ensures Messages(s.bus)[i].id == i
    {
      assert Ids(Messages(s.bus))[i] == s.enqueued[i];
    }
  }

  /** A step hands back at most one message, and only the next one in order. */
  lemma ActHands(s: Sys, a: Action)
    requires Invariant(s)
    ensures var c, c' := s.bus.log.completed, Act(s, a).bus.log.completed;
            c' == c || (|c'| == |c| + 1 && c'[..|c|] == c && c'[|c|].id == |c|)
    ensures s.enqueued <= Act(s, a).enqueued && |Act(s, a).enqueued| <= |s.enqueued| + 1
    ensures |s.bus.log.completed| <= |s.enqueued|
  {
    hide Invariant, Guarded, Submission, Results.ResultsOf;
    MessageNumbers(s);
    ActInvariant(s, a);
    MessageNumbers(Act(s, a));
    if a == Thread && s.pc.Exec? {
      Results.HandedBackBy(s, s.pc.state);
      var c, c' := s.bus.log.completed, Act(s, a).bus.log.completed;
      if c' != c {
        assert Messages(Act(s, a).bus)[|c|] == c'[|c|];
      }
    }
  }

  lemma DoSane(w: World, a: Action)
    requires Sane(w)
    ensures Sane(Perform(w, Do(a)))
  {
    hide Invariant, Act;
    ActInvariant(w.sys, a);
    ActHands(w.sys, a);
    var s := Act(w.sys, a);
    var c, c' := w.sys.bus.log.completed, s.bus.log.completed;
    var w' := Perform(w, Do(a));
    var news := Ids(News(w.sys.bus, s.bus));
    assert news == if c' == c then [] else [|c|];
    forall i | 0 <= i < |w'.latches|
      ensures Consistent(w'.latches[i], i < |c'|)
    {
      assert i in news <==> c' != c && i == |c|;
      if i < |w.latches| {
        assert Consistent(w.latches[i], i < |c|);
      }
    }
    forall i | 0 <= i < |w'.results| && w'.results[i].Some?
      ensures i < |c'| && w'.results[i].value == c'[i].state
    {
      assert i < |w.results| && w.results[i].Some?;
      assert c'[i] == c[i] by {
        assert c'[..|c|][i] == c[i];
      }
    }
  }

  lemma PerformSane(w: World, m: Move)
    requires Sane(w)
    ensures Sane(Perform(w, m))
  {
    hide Invariant, Act;
    match m
    case Do(a) => DoSane(w, a);
    case Wait(id) =>
    case Resume(id) =>
    case Fetch(id) =>
      if Perform(w, m) != w {
        MessageNumbers(w.sys);
        assert Consistent(w.latches[id], id < |w.sys.bus.log.completed|);
        assert Messages(w.sys.bus)[id] == w.sys.bus.log.completed[id];
      }
  }

  lemma {:induction false} MovesSane(w: World, moves: seq<Move>)
    requires Sane(w)
    ensures Sane(AfterMoves(w, moves))
    decreases |moves|
  {
    hide Sane, Perform;
    if moves != [] {
      PerformSane(w, moves[0]);
      MovesSane(Perform(w, moves[0]), moves[1..]);
    }
  }

  /** A world reached by some interleaving. */
  ghost predicate Possible(w: World) {
    exists address, lockMax, openMax, device, reactions, moves ::
      w == AfterMoves(FirstWorld(Start(address, lockMax, openMax, device, reactions)), moves)
  }

  lemma PossibleSane(w: World)
    requires Possible(w)
    ensures Sane(w)
  {
    hide Invariant, AfterMoves;
    var address, lockMax, openMax, device, reactions, moves :|
      w == AfterMoves(FirstWorld(Start(address, lockMax, openMax, device, reactions)), moves);
    StartInvariant(address, lockMax, openMax, device, reactions);
    MovesSane(FirstWorld(Start(address, lockMax, openMax, device, reactions)), moves);
  }

  // ---------- What callers can rely on ----------

  /** A sleeping caller's message is still active or queued, so its bell is yet to come. */
  lemma BlockedIsPending(w: World, id: nat)
    requires Possible(w) && id < |w.latches| && w.latches[id].place == Blocked
    ensures var b := w.sys.bus;
            && !w.latches[id].flag
            && ((b.active.Some? && b.active.value.id == id) || exists i :: 0 <= i < |b.queue| && b.queue[i].id == id)
  {
    hide Possible, Invariant;
    PossibleSane(w);
    MessageNumbers(w.sys);
    var b := w.sys.bus;
    var done := |b.log.completed|;
    assert id >= done && Messages(b)[id].id == id;
    if b.active.Some? && id == done {
      assert Messages(b)[id] == b.active.value;
    } else {
      var k := id - done - if b.active.Some? then 1 else 0;
      assert Messages(b)[id] == b.queue[k];
    }
  }

  /** Once the message was handed back the caller needs nobody else: its next step takes it past `wait`. */
  lemma NoLostWakeUp(w: World, id: nat)
    requires Possible(w) && id < |w.sys.bus.log.completed|
    ensures id < |w.latches| && w.latches[id].place != Blocked
    ensures w.latches[id].place == Outside ==> Perform(w, Wait(id)).latches[id].place == Passed
    ensures w.latches[id].place == Woken ==> Perform(w, Resume(id)).latches[id].place == Passed
    ensures w.latches[id].place == Passed ==>
              var r := Perform(w, Fetch(id)).results; id < |r| && r[id] == Some(w.sys.bus.log.completed[id].state)
  {
    hide Possible, Invariant;
    PossibleSane(w);
    MessageNumbers(w.sys);
    assert Messages(w.sys.bus)[id] == w.sys.bus.log.completed[id];
    assert Consistent(w.latches[id], true);
  }

  /** Nobody passes `wait` early, and what is fetched is the result with which the message was handed back. */
  lemma FetchedIsFinal(w: World, id: nat)
    requires Possible(w) && id < |w.latches| && w.latches[id].place == Passed
    ensures id < |w.sys.bus.log.completed| && w.sys.bus.log.completed[id].id == id
    ensures id < |w.results| && (w.results[id].Some? ==> w.results[id].value == w.sys.bus.log.completed[id].state)
  {
    hide Possible, Invariant;
    PossibleSane(w);
    MessageNumbers(w.sys);
    assert Consistent(w.latches[id], id < |w.sys.bus.log.completed|);
    assert Messages(w.sys.bus)[id] == w.sys.bus.log.completed[id];
  }

  /** The same object waited on once more, after a wait that is over. */
  function Again(l: Latch): Latch {
    Arrive(l.(place := Outside))
  }

  /** A bell before the wait lets this wait pass, and every later one: the flag stays set. */
  lemma BellBeforeWait(l: Latch)
    requires l.place == Outside
    ensures var passed := Arrive(Ring(l)); passed == Latch(true, Passed) && Again(passed) == passed
  {
  }

  /** A bell that wakes somebody up is used up: a second wait sleeps. */
  lemma BellDuringWait(l: Latch)
    requires l.place == Outside && !l.flag
    ensures var woken := Ring(Arrive(l));
            && Arrive(l) == Latch(false, Blocked) && woken == Latch(true, Woken)
            && Leave(woken).place == Passed && Again(Leave(woken)) == Latch(false, Blocked)
  {
  }

  /** A bell after it is kept for the next wait, and several bells count as one. */
  lemma BellAfterWait(l: Latch)
    requires l.place == Passed
    ensures Again(Ring(l)) == Latch(true, Passed) && Ring(Ring(l)) == Ring(l)
  {
  }

  // ---------- The participant's own latch ----------

  /** Somebody opened the participant while it was not asleep. */
  predicate RungAwake(s: Sys, actions: seq<Action>)
    decreases |actions|
  {
    && actions != []
    && ((actions[0] == Action.Notify && s.pc != Asleep) || RungAwake(Act(s, actions[0]), actions[1..]))
  }

  /** The flag is set and nobody is asleep to clear it. */
  predicate StaysAwake(s: Sys) {
    s.notified && s.pc != Asleep
  }

  /** `wait` returns at once while the flag is set, without clearing it, so it stays set for good. */
  lemma {:induction false} StaysAwakeForGood(s: Sys, actions: seq<Action>)
    requires StaysAwake(s)
    ensures StaysAwake(After(s, actions))
    decreases |actions|
  {
    hide Guarded, Submission;
    if actions != [] {
      var s1 := Act(s, actions[0]);
      assert StaysAwake(s1);
      StaysAwakeForGood(s1, actions[1..]);
    }
  }

  /**
   Opening is lost on a participant that is not asleep, and keeps it awake for good: from any state where that has not
   happened, the flag is stuck exactly when the participant was opened while it was not asleep.
   */
  lemma {:induction false} StuckExactly(s: Sys, actions: seq<Action>)
    requires !StaysAwake(s)
    ensures StaysAwake(After(s, actions)) <==> RungAwake(s, actions)
    decreases |actions|
  {
    if actions != [] {
      var s1 := Act(s, actions[0]);
      ActStuck(s, actions[0]);
      if StaysAwake(s1) {
        StaysAwakeForGood(s1, actions[1..]);
      } else {
        StuckExactly(s1, actions[1..]);
      }
    }
  }

  lemma ActStuck(s: Sys, a: Action)
    requires !StaysAwake(s)
    ensures StaysAwake(Act(s, a)) <==> a == Action.Notify && s.pc != Asleep
  {
    hide Guarded, Submission;
  }

  /** `idleSystem` puts the thread to sleep exactly when the participant was never opened while it was not asleep. */
  lemma SleepsExactly(s: Sys, actions: seq<Action>)
    requires !StaysAwake(s) && After(s, actions).pc == Exec(IdleSystem)
    ensures Step(After(s, actions)).pc == Asleep <==> !RungAwake(s, actions)
  {
    hide Guarded, RungAwake, After;
    StuckExactly(s, actions);
    GuardedIdle(After(s, actions).bus);
  }

  // ---------- Asleep ----------

  /** Nobody opens the participant. */
  predicate NeverOpened(moves: seq<Move>) {
    forall i :: 0 <= i < |moves| ==> moves[i] != Do(Action.Notify)
  }

  lemma PerformAsleep(w: World, m: Move)
    requires w.sys.pc == Asleep && !w.sys.notified && m != Do(Action.Notify)
    ensures var s := Perform(w, m).sys;
            s.pc == Asleep && !s.notified && s.bus.log.completed == w.sys.bus.log.completed
  {
    hide Submission;
  }

  /**
   A message that is still queued when the thread falls asleep is not handed back, and its caller not woken, before
   the participant is opened again.
   */
  lemma {:induction false} QueuedWhileAsleep(w: World, moves: seq<Move>, id: nat)
    requires Sane(w) && w.sys.pc == Asleep && !w.sys.notified && NeverOpened(moves)
    requires |w.sys.bus.log.completed| <= id < |w.latches|
    ensures var v := AfterMoves(w, moves);
            && v.sys.pc == Asleep && v.sys.bus.log.completed == w.sys.bus.log.completed
            && id < |v.latches| && !v.latches[id].flag
            && (v.latches[id].place == Outside || v.latches[id].place == Blocked)
    decreases |moves|
  {
    hide Invariant, Perform;
    if moves == [] {
      assert Consistent(w.latches[id], false);
    } else {
      PerformAsleep(w, moves[0]);
      PerformSane(w, moves[0]);
      LatchesKept(w, moves[0]);
      QueuedWhileAsleep(Perform(w, moves[0]), moves[1..], id);
    }
  }

  lemma LatchesKept(w: World, m: Move)
    ensures |Perform(w, m).latches| >= |w.latches|
  {
    hide Act;
  }
}

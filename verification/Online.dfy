/**
 When the participant counts as online, and so takes messages: exactly when the input was skipped up to a SYN since it
 last went idle. A device that is lost, reopened or silent does not change that. A participant that was closed comes
 back when it is opened.
 */
module Online {
  import opened Bytes
  import opened BusModel
  import opened Framing
  import opened Machine
  import opened Runs
  import opened Results
  import opened Outcomes

  /** `openDevice` is about to open the device and to find a SYN. */
  predicate Flushes(s: Sys) {
    s.pc == Exec(OpenDevice) && Execute(s.bus, OpenDevice).Ok?
  }

  /** The action completes an `openDevice`. */
  predicate Comes(s: Sys, a: Action) {
    a == Thread && Flushes(s)
  }

  /** The action is an `idleSystem`. */
  predicate Goes(s: Sys, a: Action) {
    a == Thread && s.pc == Exec(IdleSystem)
  }

  lemma ActOnline(s: Sys, a: Action)
    requires Invariant(s)
    ensures Act(s, a).bus.online <==> Comes(s, a) || (s.bus.online && !Goes(s, a))
  {
    hide Good, Execute, Submission, HandedBack, ResultsOf, SameMessage, Follows;
    if a == Thread && s.pc.Exec? {
      ExecuteEffect(s.bus, s.pc.state);
      GuardedOnline(s.bus, s.pc.state);
      IdleCompletes(s.bus);
    }
  }

  lemma IdleCompletes(b: Bus)
    ensures Execute(b, IdleSystem).Ok?
  {
  }

  lemma GuardedOnline(b: Bus, s: State)
    requires Effect(b, s, Execute(b, s))
    ensures Guarded(b, s).bus.online ==
            if Execute(b, s).Raise? then b.online else s == OpenDevice || (s != IdleSystem && b.online)
  {
    hide Execute, HandedBack, ResultsOf, Follows, Reset;
    var r := Execute(b, s);
    if r.Raise? && r.signal != Crash {
      ErrorHands(b, r.bus, r.signal == Error);
    }
  }

  /** An `openDevice` was completed, and no `idleSystem` came after it. */
  predicate CameLast(s: Sys, actions: seq<Action>) {
    exists k :: 0 <= k < |actions| && CameAt(s, actions, k)
  }

  predicate CameAt(s: Sys, actions: seq<Action>, k: nat)
    requires k < |actions|
  {
    && Comes(After(s, actions[..k]), actions[k])
    && forall j :: k < j < |actions| ==> !Goes(After(s, actions[..j]), actions[j])
  }

  lemma CameLastSnoc(s: Sys, actions: seq<Action>, a: Action)
    ensures CameLast(s, actions + [a]) <==>
              Comes(After(s, actions), a) || (CameLast(s, actions) && !Goes(After(s, actions), a))
  {
    hide Comes, Goes, After;
    var all, n := actions + [a], |actions|;
    assert all[..n] == actions && all[n] == a;
    forall j | 0 <= j < n
      ensures all[..j] == actions[..j] && all[j] == actions[j]
    {
    }
    if CameLast(s, all) {
      var k :| 0 <= k < |all| && CameAt(s, all, k);
      if k < n {
        assert CameAt(s, actions, k) by {
          forall j | k < j < n
            ensures !Goes(After(s, actions[..j]), actions[j])
          {
            assert !Goes(After(s, all[..j]), all[j]);
          }
        }
        assert !Goes(After(s, all[..n]), all[n]);
      }
    }
    if Comes(After(s, actions), a) {
      assert CameAt(s, all, n);
    }
    if CameLast(s, actions) && !Goes(After(s, actions), a) {
      var k :| 0 <= k < n && CameAt(s, actions, k);
      assert CameAt(s, all, k) by {
        forall j | k < j < |all|
          ensures !Goes(After(s, all[..j]), all[j])
        {
          if j < n {
            assert !Goes(After(s, actions[..j]), actions[j]);
          }
        }
      }
    }
  }

  /** On every run: online exactly when an `openDevice` was completed after the last `idleSystem`. */
  lemma {:induction false} OnlineExactly(s: Sys, actions: seq<Action>)
    requires Invariant(s) && !s.bus.online
    ensures After(s, actions).bus.online <==> CameLast(s, actions)
    decreases |actions|
  {
    hide Invariant, Act, CameLast, Comes, Goes;
    if actions == [] {
      NeverCame(s);
    } else {
      var n := |actions| - 1;
      var init, a := actions[..n], actions[n];
      assert actions == init + [a];
      OnlineExactly(s, init);
      RunInvariant(s, init);
      ActOnline(After(s, init), a);
      CameLastSnoc(s, init, a);
      AfterConcat(s, init, [a]);
      AfterOne(After(s, init), a);
    }
  }

  lemma NeverCame(s: Sys)
    ensures !CameLast(s, [])
  {
  }

  /**
   When no SYN comes while the input is skipped, the thread goes on to listen, but the participant is not online: with
   `OnlineExactly`, it takes no message before the device is opened once more.
   */
  lemma SilentDeviceStaysOffline(s: Sys)
    requires s.pc == Exec(OpenDevice)
    requires Execute(s.bus, OpenDevice).Raise? && Execute(s.bus, OpenDevice).signal == Warning
    requires Invariant(s)
    ensures Step(s).pc == Check(MonitorBus) && Step(s).bus.online == s.bus.online
  {
    hide Good, Execute, Reset, HandedBack, ResultsOf, SameMessage, Follows;
    ExecuteEffect(s.bus, OpenDevice);
    GuardedOnline(s.bus, OpenDevice);
  }

  // ---------- Closing and opening again ----------

  /** A close request reaches `idleSystem` after the state method that is running. */
  lemma ClosesInTime(s: Sys)
    requires s.pc.Exec? && s.pc.state != IdleSystem && !Step(s).pc.Crashed?
    ensures After(s, [Close, Thread, Thread]).pc == Exec(IdleSystem)
  {
    hide Guarded;
    var s1 := Act(s, Close);
    assert Guarded(s1.bus, s.pc.state) == Guarded(s.bus, s.pc.state);
    AfterThree(s, Close, Thread, Thread);
  }

  lemma AfterThree(s: Sys, a: Action, b: Action, c: Action)
    ensures After(s, [a, b, c]) == Act(Act(Act(s, a), b), c)
  {
    hide Act;
    assert [a] + [b] == [a, b] && [a, b] + [c] == [a, b, c];
    AfterSnoc(s, [a], b);
    AfterSnoc(s, [a, b], c);
    AfterOne(s, a);
  }

  lemma AfterSnoc(s: Sys, actions: seq<Action>, a: Action)
    ensures After(s, actions + [a]) == Act(After(s, actions), a)
  {
    hide Act, After;
    AfterConcat(s, actions, [a]);
    AfterOne(After(s, actions), a);
  }

  predicate OnlyEnqueues(actions: seq<Action>) {
    forall i :: 0 <= i < |actions| ==> actions[i].Enqueue?
  }

  /** Everything but the queue is the same. */
  predicate SameButQueue(a: Sys, b: Sys) {
    a.pc == b.pc && a.close == b.close && a.notified == b.notified && a.bus == b.bus.(queue := a.bus.queue)
  }

  lemma {:induction false} EnqueuesKeep(s: Sys, actions: seq<Action>)
    requires OnlyEnqueues(actions)
    ensures SameButQueue(After(s, actions), s)
    decreases |actions|
  {
    hide Submission;
    if actions != [] {
      EnqueuesKeep(Act(s, actions[0]), actions[1..]);
    }
  }

  /** Opened while it sleeps, after a close: what happens before `openDevice`, with enqueueing in between. */
  function Reopening(a: seq<Action>, b: seq<Action>, c: seq<Action>): seq<Action> {
    [Thread] + a + [Action.Notify] + b + [Thread] + c + [Thread]
  }

  /** The participant falls asleep, wakes up when it is opened, and forgets that it was closed. */
  lemma ReachesOpenDevice(s: Sys, a: seq<Action>, b: seq<Action>, c: seq<Action>)
    requires s.pc == Exec(IdleSystem) && !s.notified && OnlyEnqueues(a) && OnlyEnqueues(b) && OnlyEnqueues(c)
    ensures var u := After(s, Reopening(a, b, c));
            && u.pc == Exec(OpenDevice) && !u.close && !u.notified
            && u.bus == Idle(s.bus).(queue := u.bus.queue)
  {
    hide After, Guarded, Idle;
    GuardedIdle(s.bus);
    AfterOne(s, Thread);
    Enqueued(s, [Thread], a, Action.Notify);
    Enqueued(s, [Thread] + a + [Action.Notify], b, Thread);
    Enqueued(s, [Thread] + a + [Action.Notify] + b + [Thread], c, Thread);
    IdleKeepsQueue(s.bus);
  }

  /** Enqueueing and one more action. */
  lemma Enqueued(s: Sys, before: seq<Action>, a: seq<Action>, next: Action)
    requires OnlyEnqueues(a)
    ensures SameButQueue(After(s, before + a), After(s, before))
    ensures After(s, before + a + [next]) == Act(After(s, before + a), next)
  {
    hide After, Act;
    AfterConcat(s, before, a);
    EnqueuesKeep(After(s, before), a);
    AfterSnoc(s, before + a, next);
  }

  lemma IdleKeepsQueue(b: Bus)
    ensures Idle(b).queue == b.queue && Idle(b).device == b.device.(open := false)
  {
    hide LogReset;
  }

  /** On a device that opens and delivers a SYN it is online again. */
  lemma OnlineAgain(s: Sys, a: seq<Action>, b: seq<Action>, c: seq<Action>, d: seq<Action>,
                    w: seq<Byte>, rest: seq<Input>)
    requires s.pc == Exec(IdleSystem) && !s.notified
    requires OnlyEnqueues(a) && OnlyEnqueues(b) && OnlyEnqueues(c) && OnlyEnqueues(d)
    requires s.bus.device.openings == [] || s.bus.device.openings[0] == Opens
    requires NoSyn(w) && s.bus.device.input == Datas(w) + ([Data(SYN)] + rest)
    ensures var v := After(s, Reopening(a, b, c) + d + [Thread]);
            v.pc == Check(MonitorBus) && !v.close && v.bus.online && v.bus.device.open && v.bus.device.input == rest
  {
    hide After, Idle, Open, Datas, NoSyn, Reopening;
    ReachesOpenDevice(s, a, b, c);
    Enqueued(s, Reopening(a, b, c), d, Thread);
    IdleKeepsQueue(s.bus);
    OpensExactly(After(s, Reopening(a, b, c) + d).bus, w, rest);
  }

  /** When the flag is stuck it does not fall asleep, and opens the device at once. */
  lemma AwakeReopens(s: Sys, a: seq<Action>)
    requires s.pc == Exec(IdleSystem) && s.notified && OnlyEnqueues(a)
    ensures var u := After(s, [Thread] + a + [Thread]); u.pc == Exec(OpenDevice) && !u.close
  {
    hide After, Guarded, Idle;
    GuardedIdle(s.bus);
    AfterOne(s, Thread);
    Enqueued(s, [Thread], a, Thread);
  }
}

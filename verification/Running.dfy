/**
 The running participant: the thread of `run` with its close flag and its latch, and what callers do to it. Its steps
 are the actions of the transition system, so what is proved of every run of that holds of this object.
 */
module Running {
  import opened Bytes
  import opened TelegramValues
  import opened BusModel
  import opened Machine
  import opened Ebus

  class Participant {
    const impl: EbusImpl
    var pc: Pc
    var closing: bool
    var notified: bool
    var enqueued: seq<nat>  // the numbers of the messages handed over, which stand for the identity of the objects

    ghost function View(): Sys
      reads this, impl, impl.sequence, impl.device, impl.queue
    {
      Sys(impl.View(), pc, closing, notified, enqueued)
    }

    constructor (address: Byte, device: SerialDevice, reactions: seq<Reaction>)
      ensures View() == Start(address, 5, 10, device.View(), reactions)
    {
      impl := new EbusImpl(address, device, reactions);
      pc, closing, notified, enqueued := Exec(OpenDevice), false, false, [];
    }

    /** One turn of the loop in `run`, split where other threads can interfere. */
    method Step()
      requires pc.Exec? ==> Ready(impl.View(), pc.state)
      modifies this, impl, impl.sequence, impl.device, impl.queue
      ensures View() == Machine.Step(old(View()))
    {
      hide BusModel.Guarded, BusModel.Ready;
      match pc
      case Crashed =>
      case Asleep =>
        if notified {
          notified, pc := false, Check(OpenDevice);
        }
      case Check(state) =>
        pc := Exec(if closing then IdleSystem else state);
      case Exec(state) =>
        var r := impl.RunState(state);
        if r.Raised? {
          pc := Crashed;
        } else if state == IdleSystem {
          closing := false;
          pc := if notified then Check(r.value) else Asleep;
        } else {
          pc := Check(r.value);
        }
    }

    method Open()
      modifies this`notified
      ensures View() == Act(old(View()), Action.Notify)
    {
      notified := true;
    }

    method Close()
      modifies this`closing
      ensures View() == Act(old(View()), Action.Close)
    {
      closing := true;
    }

    /** The first half of `transmit`; a message that is refused changes nothing. */
    method Transmit(vec: seq<Byte>) returns (result: int)
      modifies this`enqueued, impl.queue
      ensures View() == if result == SEQ_OK then Act(old(View()), Enqueue(vec)) else old(View())
      ensures result == SEQ_OK <==> old(impl.online) && Submission(old(impl.View()), |old(enqueued)|, vec).Some?
    {
      hide BusModel.Submission;
      result := impl.Submit(|enqueued|, vec);
      if result == SEQ_OK {
        enqueued := enqueued + [|enqueued|];
      }
    }
  }
}

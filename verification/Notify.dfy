/**
 The handshake between a caller and the thread. `wait` has two atomic sections, before and after it sleeps on the
 condition variable; a `Latch` is the flag together with the place of the one thread that waits.
 */
module Notification {
  /** Before `wait`, asleep in it, awake but not yet running again, and past it. */
  datatype Place = Outside | Blocked | Woken | Passed

  datatype Latch = Latch(flag: bool, place: Place)

  /** The first section of `wait`: a flag that is already set lets the caller pass, and stays set. */
  function Arrive(l: Latch): Latch {
    l.(place := if l.flag then Passed else Blocked)
  }

  /** The second section, after waking up. */
  function Leave(l: Latch): Latch {
    Latch(false, Passed)
  }

  function Ring(l: Latch): Latch {
    Latch(true, if l.place == Blocked then Woken else l.place)
  }

  class Notify {
    var flag: bool
    var place: Place

    function View(): Latch
      reads this
    {
      Latch(flag, place)
    }

    constructor ()
      ensures View() == Latch(false, Outside)
    {
      flag, place := false, Outside;
    }

    method WaitArrive() returns (passed: bool)
      requires place == Outside
      modifies this
      ensures View() == Arrive(old(View())) && (passed <==> place == Passed)
    {
      if !flag {
        place := Blocked;
        return false;
      }
      place := Passed;
      passed := true;
    }

    method WaitLeave()
      requires place == Woken
      modifies this
      ensures View() == Leave(old(View()))
    {
      flag := false;
      place := Passed;
    }

    method NotifyOne()
      modifies this
      ensures View() == Ring(old(View()))
    {
      flag := true;
      if place == Blocked {
        place := Woken;
      }
    }
  }
}

/** The queue that hands messages from the callers over to the thread of the participant. */
module Queue {
  class NQueue<T> {
    var items: seq<T>

    constructor ()
      ensures items == []
    {
      items := [];
    }

    method Enqueue(item: T)
      modifies this
      ensures items == old(items) + [item]
    {
      items := items + [item];
    }

    /** Waits while the queue is empty; the contract is about the call that returns. */
    method Dequeue() returns (val: T)
      requires items != []
      modifies this
      ensures [val] + items == old(items)
    {
      val := items[0];
      items := items[1..];
    }

    function Size(): nat
      reads this
    {
      |items|
    }
  }
}

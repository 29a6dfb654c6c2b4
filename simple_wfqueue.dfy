/**
 * `boson::queues::simple_wfqueue`, the stand-in of `wfqueue.cc` for the
 * wait-free queue: a FIFO of raw pointers over a deque, under a mutex.
 * Popping an empty queue yields the null pointer.
 */
module SimpleWfQueue {
  import opened SimpleVoidQueue

  class SimpleWfQueue {
    /** `queue_`, front first. */
    var queue: seq<Pointer>

    /** The processor count is accepted and ignored. */
    constructor (nprocs: int)
      ensures queue == []
    {
      queue := [];
    }

    /** Appends `data` at the back; `procId` plays no part. */
    method Push(procId: nat, data: Pointer)
      modifies this
      ensures queue == old(queue) + [data]
    {
      queue := queue + [data];
    }

    /** Removes and returns the front pointer, or returns null when empty. */
    method Pop(procId: nat) returns (data: Pointer)
      modifies this
      ensures old(queue) == [] ==> data == Null && queue == []
      ensures old(queue) != [] ==> data == old(queue[0]) && queue == old(queue[1..])
    {
      data := Null;
      if queue != [] {
        data := queue[0];
        queue := queue[1..];
      }
    }
  }

  /**
   * Pointers pushed by different processors come back in pushing order, and
   * one more pop yields null.
   */
  method RoundTrip(inputs: seq<Pointer>, procIds: seq<nat>) returns (outputs: seq<Pointer>, last: Pointer)
    requires |procIds| == |inputs|
    ensures outputs == inputs
    ensures last == Null
  {
    var queue := new SimpleWfQueue(|inputs|);
    for i := 0 to |inputs|
      invariant queue.queue == inputs[..i]
    {
      queue.Push(procIds[i], inputs[i]);
    }
    outputs := [];
    for i := 0 to |inputs|
      invariant outputs + queue.queue == inputs
      invariant |queue.queue| == |inputs| - i
    {
      var data := queue.Pop(i);
      outputs := outputs + [data];
    }
    last := queue.Pop(0);
  }
}

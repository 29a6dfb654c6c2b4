/**
 * The untyped queue of `simple.cc` (declared as `simple_void_queue` in
 * `simple.h`): a FIFO of raw pointers over a deque, under a mutex, with the
 * interface of the lock-free queue it stands in for.  Reading an empty queue
 * yields the null pointer, so a null pointer that was written cannot be told
 * apart from an empty queue.
 */
module SimpleVoidQueue {

  /** A raw `void*`, as an address; 0 is the null pointer. */
  type Pointer = nat
  const Null: Pointer := 0

  class SimpleVoidQueue {
    /** `queue_`, front first. */
    var queue: seq<Pointer>

    /** The processor count is accepted and ignored. */
    constructor (nprocs: int)
      ensures queue == []
    {
      queue := [];
    }

    /** Appends `data` at the back; `procId` plays no part. */
    method Write(procId: nat, data: Pointer)
      modifies this
      ensures queue == old(queue) + [data]
    {
      queue := queue + [data];
    }

    /** Removes and returns the front pointer, or returns null when empty. */
    method Read(procId: nat) returns (data: Pointer)
      modifies this
      ensures old(queue) == [] ==> data == Null && queue == []
      ensures old(queue) != [] ==> data == old(queue[0]) && queue == old(queue[1..])
    {
      data := Null;
      if queue != [] {
        data := queue[0];
        queue := queue[1..];
      }
    }
  }

  /**
   * Pointers written to a fresh queue come back in writing order, and one
   * more read yields null.
   */
  method RoundTrip(inputs: seq<Pointer>) returns (outputs: seq<Pointer>, last: Pointer)
    ensures outputs == inputs
    ensures last == Null
  {
    var queue := new SimpleVoidQueue(1);
    for i := 0 to |inputs|
      invariant queue.queue == inputs[..i]
    {
      queue.Write(0, inputs[i]);
    }
    outputs := [];
    for i := 0 to |inputs|
      invariant outputs + queue.queue == inputs
      invariant |queue.queue| == |inputs| - i
    {
      var data := queue.Read(0);
      outputs := outputs + [data];
    }
    last := queue.Read(0);
  }

  /** A written null pointer reads back exactly like an empty queue. */
  method NullIsAmbiguous() returns (fromNull: Pointer, fromEmpty: Pointer)
    ensures fromNull == fromEmpty
  {
    var written := new SimpleVoidQueue(1);
    written.Write(0, Null);
    fromNull := written.Read(0);
    var empty := new SimpleVoidQueue(1);
    fromEmpty := empty.Read(0);
  }
}

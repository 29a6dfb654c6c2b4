/**
 * `boson::queues::simple_queue<T>`: a FIFO over a deque, each operation under
 * a mutex.  The lock only serialises callers, so the model is the sequential
 * queue.
 */
module SimpleQueue {

  class SimpleQueue<T> {
    /** `queue_`, front first. */
    var queue: seq<T>

    constructor ()
      ensures queue == []
    {
      queue := [];
    }

    /** `push_back`: the value joins at the back. */
    method Write(value: T)
      modifies this
      ensures queue == old(queue) + [value]
    {
      queue := queue + [value];
    }

    /**
     * Takes the front value if there is one; otherwise reports false and
     * hands back `value` untouched.
     */
    method Read(value: T) returns (ok: bool, result: T)
      modifies this
      ensures ok <==> old(queue) != []
      ensures ok ==> result == old(queue[0]) && queue == old(queue[1..])
      ensures !ok ==> result == value && queue == old(queue)
    {
      if queue != [] {
        result := queue[0];
        queue := queue[1..];
        return true, result;
      }
      return false, value;
    }
  }

  /**
   * Every value written to a fresh queue is read back in writing order, after
   * which a further read reports the queue empty.
   */
  method RoundTrip<T>(inputs: seq<T>, initial: T) returns (outputs: seq<T>, lastOk: bool)
    ensures outputs == inputs
    ensures !lastOk
  {
    var queue := new SimpleQueue<T>();
    for i := 0 to |inputs|
      invariant queue.queue == inputs[..i]
    {
      queue.Write(inputs[i]);
    }
    outputs := [];
    var value := initial;
    for i := 0 to |inputs|
      invariant outputs + queue.queue == inputs
      invariant |queue.queue| == |inputs| - i
    {
      var ok;
      ok, value := queue.Read(value);
      outputs := outputs + [value];
    }
    lastOk, value := queue.Read(value);
  }
}

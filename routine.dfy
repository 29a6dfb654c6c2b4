/**
 * `boson::internal::routine`: the status a routine carries between the
 * scheduler's passes, and the two transitions the scheduler applies when a
 * wait ends (`expected_event_happened`, `timed_out`).  The stack, the saved
 * context and the function to run are not part of this model.
 */
module Routine {

  /** `routine_status`. */
  datatype RoutineStatus =
    | IsNew        // created, never started
    | Running
    | Yielding     // yielded, waits to be resumed
    | TimedOut     // waited for an event and the timer fired first
    | WaitEvents   // waits for one of several events
    | WaitSysRead  // waits for an fd to be readable
    | WaitSysWrite // waits for an fd to be writable
    | WaitSemaWait // waits on a semaphore
    | Finished

  /** A status that waits on the kernel for an fd. */
  predicate IsIoBlock(s: RoutineStatus) {
    s == WaitSysRead || s == WaitSysWrite
  }

  /**
   * The status `timed_out` leaves: a routine that waited on several events
   * is simply made runnable, any other is marked timed out.
   */
  function AfterTimeout(s: RoutineStatus): (r: RoutineStatus)
    ensures r == Yielding || r == TimedOut
  {
    if s == WaitEvents then Yielding else TimedOut
  }

  /** `timed_out` reports a time-out exactly when the routine was not waiting on several events. */
  lemma AfterTimeoutCases(s: RoutineStatus)
    ensures AfterTimeout(s) == Yielding <==> s == WaitEvents
    ensures AfterTimeout(s) == TimedOut <==> s != WaitEvents
  {
  }

  class Routine {
    /** `routine_id`, a `size_t` handed out by the engine. */
    const id: nat
    var previousStatus: RoutineStatus
    var status: RoutineStatus

    /** A routine starts with both statuses `is_new`. */
    constructor (id: nat)
      ensures this.id == id && status == IsNew && previousStatus == IsNew
    {
      this.id := id;
      previousStatus, status := IsNew, IsNew;
    }

    /** `previous_status_is_io_block`. */
    predicate PreviousStatusIsIoBlock()
      reads this
    {
      IsIoBlock(previousStatus)
    }

    /** `expected_event_happened`: whatever it was, the routine becomes runnable. */
    method ExpectedEventHappened()
      modifies this
      ensures status == Yielding && previousStatus == old(previousStatus)
    {
      status := Yielding;
    }

    /** `timed_out`. */
    method TimedOut()
      modifies this
      ensures status == AfterTimeout(old(status)) && previousStatus == old(previousStatus)
    {
      if status == WaitEvents {
        status := Yielding;
      } else {
        status := RoutineStatus.TimedOut;
      }
    }
  }

  /**
   * A fresh routine is not blocked on I/O; a timer firing on it marks it
   * timed out, and the event arriving afterwards still makes it runnable.
   */
  method NewRoutineTimesOut(id: nat) returns (ioBlock: bool, afterTimer: RoutineStatus, afterEvent: RoutineStatus, previous: RoutineStatus)
    ensures !ioBlock && afterTimer == TimedOut && afterEvent == Yielding && previous == IsNew
  {
    var r := new Routine(id);
    ioBlock := r.PreviousStatusIsIoBlock();
    r.TimedOut();
    afterTimer := r.status;
    r.ExpectedEventHappened();
    afterEvent, previous := r.status, r.previousStatus;
  }

  /** Waiting on several events, a timer makes the routine runnable rather than timed out. */
  method EventsWaitTimesOut(id: nat) returns (status: RoutineStatus)
    ensures status == Yielding
  {
    var r := new Routine(id);
    r.status := WaitEvents;
    r.TimedOut();
    status := r.status;
  }
}

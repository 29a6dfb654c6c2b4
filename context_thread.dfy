/**
 * `boson::context::thread`: the first scheduler, which runs routines in
 * rounds.  The engine pushes commands into a bounded queue and wakes the
 * thread with an event; the thread then drains the queue (new routines,
 * or the request to finish) and resumes every scheduled routine once, in
 * order, keeping the ones that did not finish.  When nothing is left and
 * it was asked to finish, it unregisters its events and is finished;
 * otherwise it wakes itself for another round.
 *
 * Routines are named by their ids, and which of them finish when resumed
 * in a round is an input; so are the events the loop delivers.
 */
module ContextThread {
  import opened WeakRB

  /** `thread_status`. */
  datatype ThreadStatus = Idle | Busy | Finishing | Finished

  /** A routine, by its id. */
  type RoutineId = nat

  /** `thread_command`: a routine to schedule, or the request to finish. */
  datatype ThreadCommand = AddRoutine(routine: RoutineId) | Finish

  /** The capacity of the engine's command queue, `weakrb<thread_command, 100>`. */
  const QueueCapacity: nat := 100

  /**
   * Everything the thread's operations change: the routines scheduled, in
   * order, the status, the commands waiting in the queue, every resume so
   * far, the wake-ups it sent itself, and whether its two events are still
   * registered with the loop.
   */
  datatype ThreadState = ThreadState(
    scheduled: seq<RoutineId>, status: ThreadStatus, queue: seq<ThreadCommand>,
    resumed: seq<RoutineId>, selfEvents: nat, registered: bool)

  // -----------------------------------------------------------------------
  // the rules of one round
  // -----------------------------------------------------------------------

  /** The routines `commands` add, in order. */
  function Added(commands: seq<ThreadCommand>): seq<RoutineId>
    decreases |commands|
  {
    if commands == [] then []
    else
      var last := commands[|commands| - 1];
      Added(commands[..|commands| - 1]) + if last.AddRoutine? then [last.routine] else []
  }

  /** The status after `commands`, from `status`: a `finish` makes it `Finishing`. */
  function StatusAfter(status: ThreadStatus, commands: seq<ThreadCommand>): ThreadStatus
    decreases |commands|
  {
    if commands == [] then status
    else if commands[|commands| - 1] == Finish then Finishing
    else StatusAfter(status, commands[..|commands| - 1])
  }

  /** The scheduled routines that do not finish when resumed, in their order. */
  function Unfinished(scheduled: seq<RoutineId>, finishes: set<RoutineId>): seq<RoutineId>
    decreases |scheduled|
  {
    if scheduled == [] then []
    else
      var last := scheduled[|scheduled| - 1];
      Unfinished(scheduled[..|scheduled| - 1], finishes) + if last in finishes then [] else [last]
  }

  /** Whether a round ends the thread: nothing left and asked to finish. */
  predicate Ends(status: ThreadStatus, remaining: seq<RoutineId>) {
    remaining == [] && status == Finishing
  }

  /** `execute_scheduled_routines`, when the routines in `finishes` finish as they are resumed. */
  function Executed(st: ThreadState, finishes: set<RoutineId>): ThreadState {
    var remaining := Unfinished(st.scheduled, finishes);
    if Ends(st.status, remaining) then
      st.(scheduled := remaining, resumed := st.resumed + st.scheduled, status := Finished, registered := false)
    else
      st.(scheduled := remaining, resumed := st.resumed + st.scheduled, selfEvents := st.selfEvents + 1)
  }

  /** The queue drained: its routines appended to the schedule and its `finish` applied. */
  function Drained(st: ThreadState): ThreadState {
    st.(scheduled := st.scheduled + Added(st.queue), status := StatusAfter(st.status, st.queue), queue := [])
  }

  /** `handle_engine_event`. */
  function Handled(st: ThreadState, finishes: set<RoutineId>): ThreadState {
    Executed(Drained(st), finishes)
  }

  /** `event`: the engine's event drains the queue, the thread's own runs a round, others do nothing. */
  function OnEvent(st: ThreadState, engineEventId: int, selfEventId: int, eventId: int, finishes: set<RoutineId>): ThreadState {
    if eventId == engineEventId then Handled(st, finishes)
    else if eventId == selfEventId then Executed(st, finishes)
    else st
  }

  /** One event the loop delivers, with the routines that finish in the round it causes. */
  datatype Delivered = Delivered(eventId: int, finishes: set<RoutineId>)

  /** `loop`: events are handled until the status is `Finished`. */
  function Looped(st: ThreadState, engineEventId: int, selfEventId: int, events: seq<Delivered>): ThreadState
    decreases |events|
  {
    if events == [] || st.status == Finished then st
    else
      Looped(OnEvent(st, engineEventId, selfEventId, events[0].eventId, events[0].finishes),
             engineEventId, selfEventId, events[1..])
  }

  /** Applying one more command: what `Added` and `StatusAfter` add for it. */
  lemma AppliedSnoc(status: ThreadStatus, commands: seq<ThreadCommand>, command: ThreadCommand)
    ensures Added(commands + [command]) == Added(commands) + if command.AddRoutine? then [command.routine] else []
    ensures StatusAfter(status, commands + [command]) == if command == Finish then Finishing else StatusAfter(status, commands)
  {
    assert (commands + [command])[..|commands|] == commands;
  }

  lemma {:induction false} AddedAppend(a: seq<ThreadCommand>, b: seq<ThreadCommand>)
    ensures Added(a + b) == Added(a) + Added(b)
    decreases |b|
  {
    if b == [] {
      assert a + b == a;
    } else {
      var front, last := b[..|b| - 1], b[|b| - 1];
      AddedAppend(a, front);
      assert a + b == (a + front) + [last] && b == front + [last];
      AppliedSnoc(Idle, a + front, last);
      AppliedSnoc(Idle, front, last);
    }
  }

  lemma {:induction false} StatusAfterAppend(status: ThreadStatus, a: seq<ThreadCommand>, b: seq<ThreadCommand>)
    ensures StatusAfter(status, a + b) == StatusAfter(StatusAfter(status, a), b)
    decreases |b|
  {
    if b == [] {
      assert a + b == a;
    } else {
      var front, last := b[..|b| - 1], b[|b| - 1];
      StatusAfterAppend(status, a, front);
      assert a + b == (a + front) + [last] && b == front + [last];
      AppliedSnoc(status, a + front, last);
      AppliedSnoc(StatusAfter(status, a), front, last);
    }
  }

  /** The state once the first queued command is popped and applied. */
  function ApplyFirst(st: ThreadState): ThreadState
    requires st.queue != []
  {
    var command := st.queue[0];
    st.(scheduled := st.scheduled + (if command.AddRoutine? then [command.routine] else []),
        status := if command == Finish then Finishing else st.status,
        queue := st.queue[1..])
  }

  /** Draining applies the first queued command, then drains the rest. */
  lemma DrainedFirst(st: ThreadState)
    requires st.queue != []
    ensures Drained(st) == Drained(ApplyFirst(st))
  {
    var command, rest := st.queue[0], st.queue[1..];
    var added := if command.AddRoutine? then [command.routine] else [];
    assert st.queue == [command] + rest;
    assert Added([command]) == added && StatusAfter(st.status, [command]) == ApplyFirst(st).status by {
      assert [command] == [] + [command];
      AppliedSnoc(st.status, [], command);
    }
    AddedAppend([command], rest);
    StatusAfterAppend(st.status, [command], rest);
    assert st.scheduled + Added(st.queue) == (st.scheduled + added) + Added(rest);
  }

  /** With nothing queued, draining changes nothing. */
  lemma DrainedEmpty(st: ThreadState)
    requires st.queue == []
    ensures Drained(st) == st
  {
    assert st.scheduled + [] == st.scheduled;
  }

  // -----------------------------------------------------------------------
  // what the rules guarantee
  // -----------------------------------------------------------------------

  /** A routine is added exactly when an `add_routine` command carries it. */
  lemma {:induction false} AddedMembers(commands: seq<ThreadCommand>)
    ensures |Added(commands)| <= |commands|
    ensures forall r :: r in Added(commands) <==> AddRoutine(r) in commands
    decreases |commands|
  {
    if commands != [] {
      var front := commands[..|commands| - 1];
      AddedMembers(front);
      assert commands == front + [commands[|commands| - 1]];
    }
  }

  /** Draining ends in `Finishing` exactly when a `finish` was queued, and leaves the status alone otherwise. */
  lemma {:induction false} StatusAfterFinish(status: ThreadStatus, commands: seq<ThreadCommand>)
    ensures Finish in commands ==> StatusAfter(status, commands) == Finishing
    ensures Finish !in commands ==> StatusAfter(status, commands) == status
    decreases |commands|
  {
    if commands != [] {
      var front := commands[..|commands| - 1];
      StatusAfterFinish(status, front);
      assert commands == front + [commands[|commands| - 1]];
    }
  }

  /** A routine is kept exactly when it was scheduled and did not finish. */
  lemma {:induction false} UnfinishedMembers(scheduled: seq<RoutineId>, finishes: set<RoutineId>)
    ensures |Unfinished(scheduled, finishes)| <= |scheduled|
    ensures forall r :: r in Unfinished(scheduled, finishes) <==> r in scheduled && r !in finishes
    decreases |scheduled|
  {
    if scheduled != [] {
      var front := scheduled[..|scheduled| - 1];
      UnfinishedMembers(front, finishes);
      assert scheduled == front + [scheduled[|scheduled| - 1]];
    }
  }

  /**
   * Keeping the unfinished routines distributes over concatenation: the
   * routines kept from an earlier part of the schedule stay before those
   * kept from a later part, so the relative order is kept.
   */
  lemma {:induction false} UnfinishedAppend(a: seq<RoutineId>, b: seq<RoutineId>, finishes: set<RoutineId>)
    ensures Unfinished(a + b, finishes) == Unfinished(a, finishes) + Unfinished(b, finishes)
    decreases |b|
  {
    if b == [] {
      assert a + b == a;
    } else {
      var front := b[..|b| - 1];
      UnfinishedAppend(a, front, finishes);
      assert (a + b)[..|a + b| - 1] == a + front;
    }
  }

  /** When no routine finishes the schedule is kept as it is; when all do, nothing is kept. */
  lemma {:induction false} UnfinishedExtremes(scheduled: seq<RoutineId>, finishes: set<RoutineId>)
    ensures (forall r :: r in scheduled ==> r !in finishes) ==> Unfinished(scheduled, finishes) == scheduled
    ensures (forall r :: r in scheduled ==> r in finishes) ==> Unfinished(scheduled, finishes) == []
    decreases |scheduled|
  {
    if scheduled != [] {
      var front := scheduled[..|scheduled| - 1];
      UnfinishedExtremes(front, finishes);
      assert scheduled == front + [scheduled[|scheduled| - 1]];
    }
  }

  /**
   * A round resumes every scheduled routine once, in order, and ends the
   * thread exactly when it was finishing and every routine finished;
   * otherwise it requests another round.
   */
  lemma ExecutedRound(st: ThreadState, finishes: set<RoutineId>)
    ensures Executed(st, finishes).resumed == st.resumed + st.scheduled
    ensures Executed(st, finishes).status == Finished <==>
      st.status == Finished || (st.status == Finishing && forall r :: r in st.scheduled ==> r in finishes)
    ensures Executed(st, finishes).status != Finished ==> Executed(st, finishes).selfEvents == st.selfEvents + 1
    ensures Executed(st, finishes).queue == st.queue
  {
    UnfinishedMembers(st.scheduled, finishes);
    if st.status == Finishing && forall r :: r in st.scheduled ==> r in finishes {
      UnfinishedExtremes(st.scheduled, finishes);
    } else if st.status == Finishing {
      var r :| r in st.scheduled && r !in finishes;
      assert r in Unfinished(st.scheduled, finishes);
    }
  }

  /**
   * After a `finish` command, the engine's event ends the thread as soon
   * as every routine scheduled or queued finishes in that round.
   */
  lemma FinishEndsThread(st: ThreadState, finishes: set<RoutineId>)
    requires Finish in st.queue
    requires forall r :: r in st.scheduled + Added(st.queue) ==> r in finishes
    ensures Handled(st, finishes).status == Finished
    ensures !Handled(st, finishes).registered
    ensures Handled(st, finishes).queue == []
  {
    StatusAfterFinish(st.status, st.queue);
    UnfinishedExtremes(st.scheduled + Added(st.queue), finishes);
  }

  /** Without a `finish` command, the thread never becomes finished. */
  lemma {:induction false} NoFinishNoEnd(st: ThreadState, engineEventId: int, selfEventId: int, events: seq<Delivered>)
    requires st.status == Idle || st.status == Busy
    requires Finish !in st.queue
    ensures Looped(st, engineEventId, selfEventId, events).status == st.status
    decreases |events|
  {
    if events != [] {
      var next := OnEvent(st, engineEventId, selfEventId, events[0].eventId, events[0].finishes);
      StatusAfterFinish(st.status, st.queue);
      assert next.status == st.status;
      assert next.queue == [] || next.queue == st.queue;
      NoFinishNoEnd(next, engineEventId, selfEventId, events[1..]);
    }
  }

  /** The loop stops at `Finished`: it either ends there or uses up every event. */
  lemma {:induction false} LoopedStops(st: ThreadState, engineEventId: int, selfEventId: int, events: seq<Delivered>)
    ensures st.status == Finished ==> Looped(st, engineEventId, selfEventId, events) == st
    ensures Looped(st, engineEventId, selfEventId, events).status == Finished ==>
      st.status == Finished || exists k :: 0 <= k < |events| && events[k].eventId in {engineEventId, selfEventId}
    decreases |events|
  {
    if events != [] && st.status != Finished {
      var next := OnEvent(st, engineEventId, selfEventId, events[0].eventId, events[0].finishes);
      LoopedStops(next, engineEventId, selfEventId, events[1..]);
      if Looped(st, engineEventId, selfEventId, events).status == Finished && next.status != Finished {
        var k :| 0 <= k < |events[1..]| && events[1..][k].eventId in {engineEventId, selfEventId};
        assert events[k + 1].eventId in {engineEventId, selfEventId};
      }
    }
  }

  // -----------------------------------------------------------------------
  // the thread
  // -----------------------------------------------------------------------

  class Thread {
    var scheduled: seq<RoutineId>
    var status: ThreadStatus
    const engineQueue: WeakRB<ThreadCommand>
    const engineEventId: int
    const selfEventId: int
    var resumed: seq<RoutineId>
    var selfEvents: nat
    var registered: bool

    ghost predicate Valid()
      reads engineQueue, engineQueue.data
    {
      engineQueue.Valid() && engineQueue.size == QueueCapacity
    }

    ghost function State(): ThreadState
      reads this, engineQueue
    {
      ThreadState(scheduled, status, engineQueue.contents, resumed, selfEvents, registered)
    }

    /** `thread(engine&)`: idle, nothing scheduled, an empty queue, and two events registered with the loop. */
    constructor (engineEventId: int, selfEventId: int)
      ensures Valid() && fresh(engineQueue) && fresh(engineQueue.data)
      ensures State() == ThreadState([], Idle, [], [], 0, true)
      ensures this.engineEventId == engineEventId && this.selfEventId == selfEventId
    {
      scheduled := [];
      status := Idle;
      engineQueue := new WeakRB<ThreadCommand>(QueueCapacity, Finish);
      this.engineEventId := engineEventId;
      this.selfEventId := selfEventId;
      resumed := [];
      selfEvents := 0;
      registered := true;
    }

    /** `push_command`: the command is queued unless 100 are already waiting. */
    method PushCommand(command: ThreadCommand) returns (ok: bool)
      requires Valid()
      modifies engineQueue, engineQueue.data
      ensures Valid()
      ensures ok <==> |old(State()).queue| < QueueCapacity
      ensures State() == old(State()).(queue := if ok then old(State()).queue + [command] else old(State()).queue)
    {
      ok := engineQueue.Push(command);
    }

    /** `execute_scheduled_routines`. */
    method ExecuteScheduledRoutines(finishes: set<RoutineId>)
      requires Valid()
      modifies this
      ensures Valid()
      ensures State() == Executed(old(State()), finishes)
    {
      var routines := scheduled;
      var next: seq<RoutineId> := [];
      for i := 0 to |routines|
        invariant next == Unfinished(routines[..i], finishes)
        invariant resumed == old(resumed) + routines[..i]
        invariant scheduled == routines && status == old(status) && selfEvents == old(selfEvents) && registered == old(registered)
      {
        assert routines[..i + 1][..i] == routines[..i];
        resumed := resumed + [routines[i]];
        if routines[i] !in finishes {
          next := next + [routines[i]];
        }
      }
      assert routines[..|routines|] == routines;
      scheduled := next;
      if |scheduled| == 0 && status == Finishing {
        registered := false;
        status := Finished;
      } else {
        selfEvents := selfEvents + 1;
      }
    }

    /** The `while (engine_queue_.pop(...))` loop: pop every queued command and apply it. */
    method Drain()
      requires Valid()
      modifies this, engineQueue
      ensures Valid()
      ensures State() == Drained(old(State()))
    {
      while true
        invariant Valid()
        invariant Drained(State()) == Drained(old(State()))
        decreases |engineQueue.contents|
      {
        ghost var st := State();
        var ok, command := engineQueue.Pop(Finish);
        if !ok {
          break;
        }
        DrainedFirst(st);
        match command {
          case AddRoutine(routine) => scheduled := scheduled + [routine];
          case Finish => status := Finishing;
        }
        assert State() == ApplyFirst(st);
      }
      DrainedEmpty(State());
    }

    /** `handle_engine_event`: drain the queue, then run a round. */
    method HandleEngineEvent(finishes: set<RoutineId>)
      requires Valid()
      modifies this, engineQueue
      ensures Valid()
      ensures State() == Handled(old(State()), finishes)
    {
      Drain();
      ExecuteScheduledRoutines(finishes);
    }

    /** `event`: dispatch on the event id. */
    method Event(eventId: int, finishes: set<RoutineId>)
      requires Valid()
      modifies this, engineQueue
      ensures Valid()
      ensures State() == OnEvent(old(State()), engineEventId, selfEventId, eventId, finishes)
    {
      if eventId == engineEventId {
        HandleEngineEvent(finishes);
      } else if eventId == selfEventId {
        ExecuteScheduledRoutines(finishes);
      }
    }

    /** `loop`: handle the delivered events while the status is not `Finished`. */
    method Loop(events: seq<Delivered>) returns (handled: nat)
      requires Valid()
      modifies this, engineQueue
      ensures Valid()
      ensures State() == Looped(old(State()), engineEventId, selfEventId, events)
      ensures handled <= |events| && (handled < |events| ==> status == Finished)
    {
      handled := 0;
      while handled < |events| && status != Finished
        invariant Valid()
        invariant handled <= |events|
        invariant Looped(State(), engineEventId, selfEventId, events[handled..]) ==
          Looped(old(State()), engineEventId, selfEventId, events)
      {
        assert events[handled..][0] == events[handled] && events[handled..][1..] == events[handled + 1..];
        Event(events[handled].eventId, events[handled].finishes);
        handled := handled + 1;
      }
    }
  }

  /**
   * Two routines added, then `finish`: the first round resumes both and
   * keeps the one that does not finish; the next round, in which it does,
   * finishes the thread.
   */
  method TwoRoutinesThenFinish() returns (thread: Thread)
    ensures thread.status == Finished && !thread.registered
    ensures thread.resumed == [1, 2, 2]
  {
    thread := new Thread(0, 1);
    var ok := thread.PushCommand(AddRoutine(1));
    ok := thread.PushCommand(AddRoutine(2));
    ok := thread.PushCommand(Finish);
    assert thread.State() == ThreadState([], Idle, [AddRoutine(1), AddRoutine(2), Finish], [], 0, true);
    TwoRoutinesRounds();
    thread.Event(0, {1});
    assert thread.State() == ThreadState([2], Finishing, [], [1, 2], 1, true);
    thread.Event(1, {2});
  }

  /** The two rounds of `TwoRoutinesThenFinish`, on thread states. */
  lemma TwoRoutinesRounds()
    ensures OnEvent(ThreadState([], Idle, [AddRoutine(1), AddRoutine(2), Finish], [], 0, true), 0, 1, 0, {1})
      == ThreadState([2], Finishing, [], [1, 2], 1, true)
    ensures OnEvent(ThreadState([2], Finishing, [], [1, 2], 1, true), 0, 1, 1, {2})
      == ThreadState([], Finished, [], [1, 2, 2], 1, false)
  {
    var queued := [AddRoutine(1), AddRoutine(2), Finish];
    assert queued[..2] == [AddRoutine(1), AddRoutine(2)];
    assert [AddRoutine(1), AddRoutine(2)][..1] == [AddRoutine(1)];
    assert Added(queued) == [1, 2];
    assert StatusAfter(Idle, queued) == Finishing;
    assert [1, 2][..1] == [1];
    assert Unfinished([1, 2], {1}) == [2];
    assert Unfinished([2], {2}) == [];
  }
}

/**
 * `boson::internal::netpoller`: boson's policy on top of the platform event
 * loop.  Any thread queues commands (watch a new fd, close one, enable or
 * disable the read or write side with the data to hand back); the polling
 * thread, after each platform round, applies every queued command in order to
 * its per-fd table and then hands the round's read and write events to the
 * handler, but only for the sides that are enabled.
 *
 * The platform loop is an input: each round says which events it reported,
 * which commands other threads queued meanwhile, and why it ended.  The
 * handler's calls are recorded in an output log.
 */
module Netpoller {

  /** `EBADF` on Linux; closing an fd reports `-EBADF` to the waiting sides. */
  const EBADF: int := 9

  datatype FdData<D> = FdData(readEnabled: bool, writeEnabled: bool, readData: D, writeData: D)

  datatype CommandType = NewFd | CloseFd | UpdateRead | UpdateWrite | RemoveRead | RemoveWrite

  datatype Command<D> = Command(kind: CommandType, fd: nat, data: D)

  /** A queued event: the fd it is about and the status to report. */
  datatype Event = Event(fd: nat, status: int)

  /** What the platform loop reports through `read`, `write` and `closed`. */
  datatype PlatformEvent = Readable(fd: nat, status: int) | Writable(fd: nat, status: int) | Hangup(fd: nat)

  /** A call into `net_event_handler`. */
  datatype HandlerCall<D> = ReadCall(data: D, status: int) | WriteCall(data: D, status: int) | Callback

  datatype EndReason = MaxIterReached | TimedOut | ErrorOccured

  /** One run of the platform loop, as seen by the netpoller. */
  datatype Round<D> = Round(events: seq<PlatformEvent>, commands: seq<Command<D>>, reason: EndReason)

  /** The fd table and the two event lists, the part the commands act on. */
  datatype Table<D> = Table(waiters: seq<FdData<D>>, readEvents: seq<Event>, writeEvents: seq<Event>)

  /** The netpoller between two rounds: the fd table, the queued commands, the handler log. */
  datatype State<D> = State(waiters: seq<FdData<D>>, pending: seq<Command<D>>, calls: seq<HandlerCall<D>>)

  function Max(a: nat, b: nat): nat {
    if a < b then b else a
  }

  /** The table size once command `c` has been applied to a table of `size` entries. */
  function SizeAfter<D>(size: nat, c: Command<D>): nat {
    if c.kind == NewFd then Max(size, c.fd + 1) else size
  }

  /** Every command other than `new_fd` is about an fd already in the table when it is applied. */
  ghost predicate CommandsFit<D>(size: nat, cmds: seq<Command<D>>)
    decreases |cmds|
  {
    cmds == [] || ((cmds[0].kind == NewFd || cmds[0].fd < size) && CommandsFit(SizeAfter(size, cmds[0]), cmds[1..]))
  }

  /** The table size once `cmds` have been applied. */
  function Grown<D>(size: nat, cmds: seq<Command<D>>): nat
    decreases |cmds|
  {
    if cmds == [] then size else Grown(SizeAfter(size, cmds[0]), cmds[1..])
  }

  /** Every queued event is about an fd in a table of `size` entries. */
  ghost predicate Below(size: nat, events: seq<Event>) {
    forall k :: 0 <= k < |events| ==> events[k].fd < size
  }

  /** `after` is `before` followed by events about fds in a table of `size` entries. */
  ghost predicate Extends(before: seq<Event>, after: seq<Event>, size: nat) {
    |before| <= |after| && after[..|before|] == before && Below(size, after[|before|..])
  }

  /** Events that are all about known fds stay so when extended that way. */
  lemma ExtendsBelow(before: seq<Event>, after: seq<Event>, size: nat)
    requires Extends(before, after, size) && Below(size, before)
    ensures Below(size, after)
  {
    forall k | 0 <= k < |after| ensures after[k].fd < size {
      if k < |before| {
        assert after[k] == after[..|before|][k];
      } else {
        assert after[k] == after[|before|..][k - |before|];
      }
    }
  }

  /** A value-initialised table entry: both sides disabled. */
  function Blank<D>(zero: D): FdData<D> {
    FdData(false, false, zero, zero)
  }

  /** The effect of one command on the table, as the `switch` in `loop` applies it. */
  function ApplyCommand<D>(zero: D, t: Table<D>, c: Command<D>): (r: Table<D>)
    requires c.kind == NewFd || c.fd < |t.waiters|
    ensures |r.waiters| == SizeAfter(|t.waiters|, c)
    ensures Extends(t.readEvents, r.readEvents, |r.waiters|)
    ensures Extends(t.writeEvents, r.writeEvents, |r.waiters|)
  {
    match c.kind
    case NewFd =>
      var w := if |t.waiters| <= c.fd then t.waiters + seq(c.fd + 1 - |t.waiters|, _ => Blank(zero)) else t.waiters;
      t.(waiters := w[c.fd := w[c.fd].(readEnabled := false, writeEnabled := false)])
    case CloseFd =>
      var e := Event(c.fd, -EBADF);
      t.(readEvents := if t.waiters[c.fd].readEnabled then t.readEvents + [e] else t.readEvents,
         writeEvents := if t.waiters[c.fd].writeEnabled then t.writeEvents + [e] else t.writeEvents)
    case UpdateRead =>
      t.(waiters := t.waiters[c.fd := t.waiters[c.fd].(readEnabled := true, readData := c.data)])
    case UpdateWrite =>
      t.(waiters := t.waiters[c.fd := t.waiters[c.fd].(writeEnabled := true, writeData := c.data)])
    case RemoveRead =>
      t.(waiters := t.waiters[c.fd := t.waiters[c.fd].(readEnabled := false)])
    case RemoveWrite =>
      t.(waiters := t.waiters[c.fd := t.waiters[c.fd].(writeEnabled := false)])
  }

  /**
   * What each command does: `new_fd` grows the table to hold the fd and
   * disables both sides (keeping the data); `update_*` enables one side and
   * stores the data; `remove_*` disables one side and keeps its data;
   * `close_fd` leaves the table alone and queues `-EBADF` for each enabled
   * side only.  No other entry changes.
   */
  lemma CommandEffect<D>(zero: D, t: Table<D>, c: Command<D>)
    requires c.kind == NewFd || c.fd < |t.waiters|
    ensures var r := ApplyCommand(zero, t, c);
      && (forall i :: 0 <= i < |t.waiters| && i != c.fd ==> r.waiters[i] == t.waiters[i])
      && (c.kind == NewFd ==>
            && !r.waiters[c.fd].readEnabled && !r.waiters[c.fd].writeEnabled
            && (forall i :: |t.waiters| <= i < |r.waiters| && i != c.fd ==> r.waiters[i] == Blank(zero))
            && (c.fd < |t.waiters| ==>
                  r.waiters[c.fd].readData == t.waiters[c.fd].readData
                  && r.waiters[c.fd].writeData == t.waiters[c.fd].writeData))
      && (c.kind == UpdateRead ==>
            r.waiters[c.fd] == FdData(true, t.waiters[c.fd].writeEnabled, c.data, t.waiters[c.fd].writeData))
      && (c.kind == UpdateWrite ==>
            r.waiters[c.fd] == FdData(t.waiters[c.fd].readEnabled, true, t.waiters[c.fd].readData, c.data))
      && (c.kind == RemoveRead ==> r.waiters[c.fd] == t.waiters[c.fd].(readEnabled := false))
      && (c.kind == RemoveWrite ==> r.waiters[c.fd] == t.waiters[c.fd].(writeEnabled := false))
      && (c.kind == CloseFd ==>
            && r.waiters == t.waiters
            && r.readEvents == t.readEvents + (if t.waiters[c.fd].readEnabled then [Event(c.fd, -EBADF)] else [])
            && r.writeEvents == t.writeEvents + (if t.waiters[c.fd].writeEnabled then [Event(c.fd, -EBADF)] else []))
      && (c.kind != CloseFd ==> r.readEvents == t.readEvents && r.writeEvents == t.writeEvents)
  {
  }

  /**
   * Applying a list of commands front to back; queued events stay about fds
   * in the table, which never shrinks.
   */
  function ApplyAll<D>(zero: D, t: Table<D>, cmds: seq<Command<D>>): (r: Table<D>)
    requires CommandsFit(|t.waiters|, cmds)
    ensures |r.waiters| == Grown(|t.waiters|, cmds) >= |t.waiters|
    ensures Extends(t.readEvents, r.readEvents, |r.waiters|)
    ensures Extends(t.writeEvents, r.writeEvents, |r.waiters|)
    decreases |cmds|
  {
    if cmds == [] then
      assert t.readEvents[|t.readEvents|..] == [] && t.writeEvents[|t.writeEvents|..] == [];
      t
    else
      var t' := ApplyCommand(zero, t, cmds[0]);
      var r := ApplyAll(zero, t', cmds[1..]);
      ExtendsTrans(t.readEvents, t'.readEvents, r.readEvents, |t'.waiters|, |r.waiters|);
      ExtendsTrans(t.writeEvents, t'.writeEvents, r.writeEvents, |t'.waiters|, |r.waiters|);
      r
  }

  /** Two extensions in a row, the first about fds of a smaller table, make one. */
  lemma ExtendsTrans(a: seq<Event>, b: seq<Event>, c: seq<Event>, m: nat, n: nat)
    requires Extends(a, b, m) && Extends(b, c, n) && m <= n
    ensures Extends(a, c, n)
  {
    assert c[..|a|] == b[..|a|];
    forall k | 0 <= k < |c| - |a| ensures c[|a|..][k].fd < n {
      if |a| + k < |b| {
        assert c[|a|..][k] == b[|a|..][k];
      } else {
        assert c[|a|..][k] == c[|b|..][|a| + k - |b|];
      }
    }
  }

  /** The table fits commands queued one after another when it fits each batch in turn. */
  lemma {:induction false} FitAppend<D>(size: nat, a: seq<Command<D>>, b: seq<Command<D>>)
    ensures CommandsFit(size, a + b) <==> CommandsFit(size, a) && CommandsFit(Grown(size, a), b)
    ensures Grown(size, a + b) == Grown(Grown(size, a), b)
    decreases |a|
  {
    if a != [] {
      assert (a + b)[1..] == a[1..] + b;
      FitAppend(SizeAfter(size, a[0]), a[1..], b);
    } else {
      assert a + b == b;
    }
  }

  /**
   * Commands are applied in queue order: applying two batches one after the
   * other is applying their concatenation.
   */
  lemma {:induction false} ApplyAppend<D>(zero: D, t: Table<D>, a: seq<Command<D>>, b: seq<Command<D>>)
    requires CommandsFit(|t.waiters|, a + b)
    ensures CommandsFit(|t.waiters|, a) && CommandsFit(Grown(|t.waiters|, a), b)
    ensures ApplyAll(zero, t, a + b) == ApplyAll(zero, ApplyAll(zero, t, a), b)
    decreases |a|
  {
    FitAppend(|t.waiters|, a, b);
    if a != [] {
      assert (a + b)[1..] == a[1..] + b;
      ApplyAppend(zero, ApplyCommand(zero, t, a[0]), a[1..], b);
    } else {
      assert a + b == b;
    }
  }

  /** Whether an event's side is enabled in the table. */
  ghost predicate Enabled<D>(w: seq<FdData<D>>, e: Event, forRead: bool)
    requires e.fd < |w|
  {
    if forRead then w[e.fd].readEnabled else w[e.fd].writeEnabled
  }

  /** The handler call an event turns into: the stored data of its side, the event's status. */
  function CallFor<D>(w: seq<FdData<D>>, e: Event, forRead: bool): HandlerCall<D>
    requires e.fd < |w|
  {
    if forRead then ReadCall(w[e.fd].readData, e.status) else WriteCall(w[e.fd].writeData, e.status)
  }

  /**
   * The handler calls the dispatch loop makes for `events`, in order: one per
   * event whose side is enabled, none for the others.
   */
  function Dispatch<D>(w: seq<FdData<D>>, events: seq<Event>, forRead: bool): (r: seq<HandlerCall<D>>)
    requires Below(|w|, events)
    decreases |events|
  {
    if events == [] then []
    else
      var last := events[|events| - 1];
      var rest := Dispatch(w, events[..|events| - 1], forRead);
      if (if forRead then w[last.fd].readEnabled else w[last.fd].writeEnabled)
      then rest + [CallFor(w, last, forRead)]
      else rest
  }

  /** How many of `events` have their side enabled. */
  ghost function EnabledCount<D>(w: seq<FdData<D>>, events: seq<Event>, forRead: bool): nat
    requires Below(|w|, events)
    decreases |events|
  {
    if events == [] then 0
    else EnabledCount(w, events[..|events| - 1], forRead) + (if Enabled(w, events[|events| - 1], forRead) then 1 else 0)
  }

  /** `events` with its last event dropped still names fds of the table. */
  lemma BelowFront(size: nat, events: seq<Event>)
    requires Below(size, events) && events != []
    ensures Below(size, events[..|events| - 1])
  {
    var front := events[..|events| - 1];
    forall k | 0 <= k < |front| ensures front[k].fd < size {
      assert front[k] == events[k];
    }
  }

  /** Dispatch makes at most one call per event, of the side dispatched, and is exact when every event agrees. */
  lemma {:induction false} DispatchKinds<D>(w: seq<FdData<D>>, events: seq<Event>, forRead: bool)
    requires Below(|w|, events)
    ensures var r := Dispatch(w, events, forRead);
      && |r| <= |events|
      && (forall k :: 0 <= k < |r| ==> (if forRead then r[k].ReadCall? else r[k].WriteCall?))
      && ((forall k :: 0 <= k < |events| ==> !Enabled(w, events[k], forRead)) ==> r == [])
      && ((forall k :: 0 <= k < |events| ==> Enabled(w, events[k], forRead)) ==>
            |r| == |events| && forall k :: 0 <= k < |r| ==> r[k] == CallFor(w, events[k], forRead))
    decreases |events|
  {
    if events != [] {
      var front := events[..|events| - 1];
      BelowFront(|w|, events);
      DispatchKinds(w, front, forRead);
      assert forall k :: 0 <= k < |front| ==> front[k] == events[k];
    }
  }

  /** Each enabled event's call sits after the calls of the enabled events before it. */
  lemma {:induction false} DispatchPositions<D>(w: seq<FdData<D>>, events: seq<Event>, forRead: bool)
    requires Below(|w|, events)
    ensures var r := Dispatch(w, events, forRead);
      && |r| == EnabledCount(w, events, forRead)
      && (forall k :: 0 <= k < |events| && Enabled(w, events[k], forRead) ==>
            EnabledCount(w, events[..k], forRead) < |r| &&
            r[EnabledCount(w, events[..k], forRead)] == CallFor(w, events[k], forRead))
    decreases |events|
  {
    if events != [] {
      var n := |events| - 1;
      var front := events[..n];
      BelowFront(|w|, events);
      DispatchPositions(w, front, forRead);
      var rest := Dispatch(w, front, forRead);
      var r := Dispatch(w, events, forRead);
      assert forall i :: 0 <= i < |rest| ==> r[i] == rest[i];
      forall k | 0 <= k < |events| && Enabled(w, events[k], forRead)
        ensures EnabledCount(w, events[..k], forRead) < |r|
        ensures r[EnabledCount(w, events[..k], forRead)] == CallFor(w, events[k], forRead)
      {
        if k < n {
          assert front[k] == events[k];
          assert events[..k] == front[..k];
        } else {
          assert events[..k] == front;
        }
      }
    }
  }

  /** Every call comes from an enabled event, the one with as many enabled events before it as calls before the call. */
  lemma {:induction false} DispatchCovers<D>(w: seq<FdData<D>>, events: seq<Event>, forRead: bool, j: nat)
    requires Below(|w|, events) && j < |Dispatch(w, events, forRead)|
    ensures exists k :: (0 <= k < |events| && Enabled(w, events[k], forRead) &&
      EnabledCount(w, events[..k], forRead) == j && Dispatch(w, events, forRead)[j] == CallFor(w, events[k], forRead))
    decreases |events|
  {
    var n := |events| - 1;
    var front := events[..n];
    BelowFront(|w|, events);
    DispatchPositions(w, front, forRead);
    var rest := Dispatch(w, front, forRead);
    var r := Dispatch(w, events, forRead);
    if j < |rest| {
      DispatchCovers(w, front, forRead, j);
      assert rest[j] == r[j];
      var k :| 0 <= k < |front| && Enabled(w, front[k], forRead) &&
        EnabledCount(w, front[..k], forRead) == j && rest[j] == CallFor(w, front[k], forRead);
      assert front[k] == events[k];
      assert events[..k] == front[..k];
    } else {
      assert events[..n] == front;
      assert Enabled(w, events[n], forRead) && r[j] == CallFor(w, events[n], forRead);
    }
  }

  /**
   * Dispatch is the order-preserving filter of the events: one call per
   * event whose side is enabled, with the stored data of that side and the
   * event's status, placed after the calls of the enabled events before it,
   * and as many calls as enabled events (so nothing for the events whose side
   * is disabled; `DispatchCovers` names the event behind each call).
   */
  lemma DispatchFilters<D>(w: seq<FdData<D>>, events: seq<Event>, forRead: bool)
    requires Below(|w|, events)
    ensures var r := Dispatch(w, events, forRead);
      && |r| == EnabledCount(w, events, forRead) <= |events|
      && (forall k :: 0 <= k < |r| ==> (if forRead then r[k].ReadCall? else r[k].WriteCall?))
      && (forall k :: 0 <= k < |events| && Enabled(w, events[k], forRead) ==>
            EnabledCount(w, events[..k], forRead) < |r| &&
            r[EnabledCount(w, events[..k], forRead)] == CallFor(w, events[k], forRead))
      && ((forall k :: 0 <= k < |events| ==> !Enabled(w, events[k], forRead)) ==> r == [])
      && ((forall k :: 0 <= k < |events| ==> Enabled(w, events[k], forRead)) ==>
            |r| == |events| && forall k :: 0 <= k < |r| ==> r[k] == CallFor(w, events[k], forRead))
  {
    DispatchKinds(w, events, forRead);
    DispatchPositions(w, events, forRead);
  }

  /** Dispatching two event lists one after the other makes the calls of their concatenation. */
  lemma {:induction false} DispatchAppend<D>(w: seq<FdData<D>>, a: seq<Event>, b: seq<Event>)
    requires Below(|w|, a) && Below(|w|, b)
    ensures Below(|w|, a + b)
    ensures forall forRead: bool :: Dispatch(w, a + b, forRead) == Dispatch(w, a, forRead) + Dispatch(w, b, forRead)
    decreases |b|
  {
    if b != [] {
      var front := b[..|b| - 1];
      BelowFront(|w|, b);
      DispatchAppend(w, a, front);
      assert (a + b)[..|a + b| - 1] == a + front;
    } else {
      assert a + b == a;
    }
  }

  /** A single event makes one call when its side is enabled and none otherwise. */
  lemma DispatchOne<D>(w: seq<FdData<D>>, e: Event, forRead: bool)
    requires e.fd < |w|
    ensures Below(|w|, [e])
    ensures Dispatch(w, [e], forRead) == if Enabled(w, e, forRead) then [CallFor(w, e, forRead)] else []
  {
    assert [e][..0] == [];
  }

  /** The read events a platform round queues: readiness reports, and `-EBADF` for a hang-up. */
  function ReadsOf(events: seq<PlatformEvent>): (r: seq<Event>)
    decreases |events|
  {
    if events == [] then []
    else
      var rest := ReadsOf(events[..|events| - 1]);
      match events[|events| - 1]
      case Readable(fd, status) => rest + [Event(fd, status)]
      case Writable(_, _) => rest
      case Hangup(fd) => rest + [Event(fd, -EBADF)]
  }

  /** The write events a platform round queues: readiness reports, and `-EBADF` for a hang-up. */
  function WritesOf(events: seq<PlatformEvent>): (r: seq<Event>)
    decreases |events|
  {
    if events == [] then []
    else
      var rest := WritesOf(events[..|events| - 1]);
      match events[|events| - 1]
      case Readable(_, _) => rest
      case Writable(fd, status) => rest + [Event(fd, status)]
      case Hangup(fd) => rest + [Event(fd, -EBADF)]
  }

  /** Every reported event is about an fd in a table of `size` entries. */
  ghost predicate EventsFit(size: nat, events: seq<PlatformEvent>) {
    forall k :: 0 <= k < |events| ==> events[k].fd < size
  }

  lemma {:induction false} PlatformBelow(size: nat, events: seq<PlatformEvent>)
    requires EventsFit(size, events)
    ensures Below(size, ReadsOf(events)) && Below(size, WritesOf(events))
    decreases |events|
  {
    if events != [] {
      PlatformBelow(size, events[..|events| - 1]);
    }
  }

  /** A round can be run from state `s`: its commands and events are about known fds. */
  ghost predicate RoundFits<D>(s: State<D>, round: Round<D>) {
    var cmds := s.pending + round.commands;
    CommandsFit(|s.waiters|, cmds) && EventsFit(Grown(|s.waiters|, cmds), round.events)
  }

  /**
   * One iteration of `loop`: the round's events are queued, every pending
   * command is applied in order, the enabled read events and then the enabled
   * write events are handed to the handler, and the handler is told the
   * round is over.
   */
  ghost function Step<D>(zero: D, s: State<D>, round: Round<D>): (r: State<D>)
    requires RoundFits(s, round)
    ensures r.pending == [] && |r.waiters| >= |s.waiters|
    ensures |r.calls| > |s.calls| && r.calls[..|s.calls|] == s.calls && r.calls[|r.calls| - 1] == Callback
  {
    var cmds := s.pending + round.commands;
    var t0 := Table(s.waiters, ReadsOf(round.events), WritesOf(round.events));
    var t := ApplyAll(zero, t0, cmds);
    PlatformBelow(|t.waiters|, round.events);
    ExtendsBelow(t0.readEvents, t.readEvents, |t.waiters|);
    ExtendsBelow(t0.writeEvents, t.writeEvents, |t.waiters|);
    var calls := s.calls + Dispatch(t.waiters, t.readEvents, true) + Dispatch(t.waiters, t.writeEvents, false);
    State(t.waiters, [], calls + [Callback])
  }

  /** The rounds can be run one after the other from state `s`. */
  ghost predicate RoundsFit<D>(zero: D, s: State<D>, rounds: seq<Round<D>>)
    decreases |rounds|
  {
    rounds == [] || (RoundFits(s, rounds[0]) && RoundsFit(zero, Step(zero, s, rounds[0]), rounds[1..]))
  }

  /** The state after running the rounds one after the other. */
  ghost function Run<D>(zero: D, s: State<D>, rounds: seq<Round<D>>): State<D>
    requires RoundsFit(zero, s, rounds)
    decreases |rounds|
  {
    if rounds == [] then s else Run(zero, Step(zero, s, rounds[0]), rounds[1..])
  }

  /** The iteration budget left: negative means unbounded. */
  function Less(limit: int): int {
    if limit > 0 then limit - 1 else limit
  }

  /**
   * The rounds are enough for `loop(limit)`: it runs out of iterations, or
   * one round ends on a time-out or an error, before the rounds run out.
   */
  ghost predicate Enough<D>(limit: int, rounds: seq<Round<D>>)
    decreases |rounds|
  {
    limit == 0 || (rounds != [] && (rounds[0].reason != MaxIterReached || Enough(Less(limit), rounds[1..])))
  }

  /** How many rounds `loop(limit)` runs. */
  function Executed<D>(limit: int, rounds: seq<Round<D>>): (n: nat)
    ensures n <= |rounds|
    decreases |rounds|
  {
    if limit == 0 || rounds == [] then 0
    else if rounds[0].reason != MaxIterReached then 1
    else 1 + Executed(Less(limit), rounds[1..])
  }

  /** What `loop(limit)` returns: the first time-out or error, else `max_iter_reached`. */
  function EndOf<D>(limit: int, rounds: seq<Round<D>>): EndReason
    decreases |rounds|
  {
    if limit == 0 || rounds == [] then MaxIterReached
    else if rounds[0].reason != MaxIterReached then rounds[0].reason
    else EndOf(Less(limit), rounds[1..])
  }

  /** The end reason follows the rounds: a non-negative budget with no early stop ends on `max_iter_reached`. */
  lemma {:induction false} EndOfBudget<D>(limit: int, rounds: seq<Round<D>>)
    requires limit >= 0 && |rounds| >= limit
    requires forall k :: 0 <= k < limit ==> rounds[k].reason == MaxIterReached
    ensures EndOf(limit, rounds) == MaxIterReached && Executed(limit, rounds) == limit
    decreases limit
  {
    if limit > 0 {
      EndOfBudget(limit - 1, rounds[1..]);
    }
  }

  /** An early stop: the first round that ends on a time-out or an error is the last one run. */
  lemma {:induction false} EndOfStop<D>(limit: int, rounds: seq<Round<D>>, k: nat)
    requires k < |rounds| && (limit < 0 || k < limit)
    requires rounds[k].reason != MaxIterReached
    requires forall j :: 0 <= j < k ==> rounds[j].reason == MaxIterReached
    ensures EndOf(limit, rounds) == rounds[k].reason && Executed(limit, rounds) == k + 1
    decreases k
  {
    if k > 0 {
      EndOfStop(Less(limit), rounds[1..], k - 1);
    }
  }

  class Netpoller<D> {
    /** `Data{}`, the value new table entries and data-less commands carry. */
    const zero: D

    var waiters: seq<FdData<D>>
    var readEvents: seq<Event>
    var writeEvents: seq<Event>
    /** `pending_updates_`, oldest first. */
    var pending: seq<Command<D>>
    /** The calls made into the handler so far. */
    var calls: seq<HandlerCall<D>>

    /** Between rounds both event lists are empty. */
    ghost predicate Valid()
      reads this
    {
      readEvents == [] && writeEvents == []
    }

    ghost function Snapshot(): State<D>
      reads this
    {
      State(waiters, pending, calls)
    }

    constructor (zero: D)
      ensures Valid() && this.zero == zero
      ensures waiters == [] && pending == [] && calls == []
    {
      this.zero := zero;
      waiters, readEvents, writeEvents, pending, calls := [], [], [], [], [];
    }

    /** Platform callback `read`: queues a read event. */
    method Read(fd: nat, status: int)
      modifies this
      ensures readEvents == old(readEvents) + [Event(fd, status)]
      ensures writeEvents == old(writeEvents) && Snapshot() == old(Snapshot())
    {
      readEvents := readEvents + [Event(fd, status)];
    }

    /** Platform callback `write`: queues a write event. */
    method Write(fd: nat, status: int)
      modifies this
      ensures writeEvents == old(writeEvents) + [Event(fd, status)]
      ensures readEvents == old(readEvents) && Snapshot() == old(Snapshot())
    {
      writeEvents := writeEvents + [Event(fd, status)];
    }

    /** Platform callback `closed`: queues `-EBADF` on both sides, enabled or not. */
    method Closed(fd: nat)
      modifies this
      ensures readEvents == old(readEvents) + [Event(fd, -EBADF)]
      ensures writeEvents == old(writeEvents) + [Event(fd, -EBADF)]
      ensures Snapshot() == old(Snapshot())
    {
      readEvents := readEvents + [Event(fd, -EBADF)];
      writeEvents := writeEvents + [Event(fd, -EBADF)];
    }

    /** `signal_new_fd`: queues a `new_fd` command. */
    method SignalNewFd(fd: nat)
      modifies this
      ensures pending == old(pending) + [Command(NewFd, fd, zero)]
      ensures waiters == old(waiters) && calls == old(calls)
      ensures readEvents == old(readEvents) && writeEvents == old(writeEvents)
    {
      pending := pending + [Command(NewFd, fd, zero)];
    }

    /** `signal_fd_closed`: queues a `close_fd` command. */
    method SignalFdClosed(fd: nat)
      modifies this
      ensures pending == old(pending) + [Command(CloseFd, fd, zero)]
      ensures waiters == old(waiters) && calls == old(calls)
      ensures readEvents == old(readEvents) && writeEvents == old(writeEvents)
    {
      pending := pending + [Command(CloseFd, fd, zero)];
    }

    /** `register_read`: queues an `update_read` command carrying `value`. */
    method RegisterRead(fd: nat, value: D)
      modifies this
      ensures pending == old(pending) + [Command(UpdateRead, fd, value)]
      ensures waiters == old(waiters) && calls == old(calls)
      ensures readEvents == old(readEvents) && writeEvents == old(writeEvents)
    {
      pending := pending + [Command(UpdateRead, fd, value)];
    }

    /** `register_write`: queues an `update_write` command carrying `value`. */
    method RegisterWrite(fd: nat, value: D)
      modifies this
      ensures pending == old(pending) + [Command(UpdateWrite, fd, value)]
      ensures waiters == old(waiters) && calls == old(calls)
      ensures readEvents == old(readEvents) && writeEvents == old(writeEvents)
    {
      pending := pending + [Command(UpdateWrite, fd, value)];
    }

    /** `unregister_read`: queues a `remove_read` command. */
    method UnregisterRead(fd: nat)
      modifies this
      ensures pending == old(pending) + [Command(RemoveRead, fd, zero)]
      ensures waiters == old(waiters) && calls == old(calls)
      ensures readEvents == old(readEvents) && writeEvents == old(writeEvents)
    {
      pending := pending + [Command(RemoveRead, fd, zero)];
    }

    /** `unregister_write`: queues a `remove_write` command. */
    method UnregisterWrite(fd: nat)
      modifies this
      ensures pending == old(pending) + [Command(RemoveWrite, fd, zero)]
      ensures waiters == old(waiters) && calls == old(calls)
      ensures readEvents == old(readEvents) && writeEvents == old(writeEvents)
    {
      pending := pending + [Command(RemoveWrite, fd, zero)];
    }

    /**
     * `local_unregister_read`: queues a `remove_read` command and returns the
     * read data stored now; the side stays enabled until the command is applied.
     */
    method LocalUnregisterRead(fd: nat) returns (data: D)
      requires fd < |waiters|
      modifies this
      ensures data == old(waiters[fd].readData)
      ensures pending == old(pending) + [Command(RemoveRead, fd, zero)]
      ensures waiters == old(waiters) && calls == old(calls)
      ensures readEvents == old(readEvents) && writeEvents == old(writeEvents)
    {
      UnregisterRead(fd);
      data := waiters[fd].readData;
    }

    /** `local_unregister_write`: the write-side counterpart. */
    method LocalUnregisterWrite(fd: nat) returns (data: D)
      requires fd < |waiters|
      modifies this
      ensures data == old(waiters[fd].writeData)
      ensures pending == old(pending) + [Command(RemoveWrite, fd, zero)]
      ensures waiters == old(waiters) && calls == old(calls)
      ensures readEvents == old(readEvents) && writeEvents == old(writeEvents)
    {
      UnregisterWrite(fd);
      data := waiters[fd].writeData;
    }

    /** One case of the command `switch` in `loop`. */
    method Execute(c: Command<D>)
      requires c.kind == NewFd || c.fd < |waiters|
      modifies this
      ensures Table(waiters, readEvents, writeEvents) == ApplyCommand(zero, old(Table(waiters, readEvents, writeEvents)), c)
      ensures pending == old(pending) && calls == old(calls)
    {
      var index := c.fd;
      match c.kind {
        case NewFd =>
          if |waiters| <= index {
            waiters := waiters + seq(index + 1 - |waiters|, _ => Blank(zero));
          }
          waiters := waiters[index := waiters[index].(readEnabled := false, writeEnabled := false)];
        case CloseFd =>
          if waiters[index].readEnabled {
            readEvents := readEvents + [Event(c.fd, -EBADF)];
          }
          if waiters[index].writeEnabled {
            writeEvents := writeEvents + [Event(c.fd, -EBADF)];
          }
        case UpdateRead =>
          waiters := waiters[index := waiters[index].(readEnabled := true, readData := c.data)];
        case UpdateWrite =>
          waiters := waiters[index := waiters[index].(writeEnabled := true, writeData := c.data)];
        case RemoveRead =>
          waiters := waiters[index := waiters[index].(readEnabled := false)];
        case RemoveWrite =>
          waiters := waiters[index := waiters[index].(writeEnabled := false)];
      }
    }

    /** Unqueues the commands one by one and applies each, oldest first. */
    method ApplyPending()
      requires CommandsFit(|waiters|, pending)
      modifies this
      ensures pending == [] && calls == old(calls)
      ensures Table(waiters, readEvents, writeEvents) == ApplyAll(zero, old(Table(waiters, readEvents, writeEvents)), old(pending))
    {
      while pending != []
        invariant CommandsFit(|waiters|, pending) && calls == old(calls)
        invariant ApplyAll(zero, Table(waiters, readEvents, writeEvents), pending)
               == ApplyAll(zero, old(Table(waiters, readEvents, writeEvents)), old(pending))
        decreases |pending|
      {
        var c := pending[0];
        pending := pending[1..];
        Execute(c);
      }
    }

    /** Hands the enabled read events to the handler, then empties the list. */
    method DispatchReads()
      requires Below(|waiters|, readEvents)
      modifies this
      ensures waiters == old(waiters) && pending == old(pending) && writeEvents == old(writeEvents)
      ensures calls == old(calls) + Dispatch(waiters, old(readEvents), true)
      ensures readEvents == []
    {
      var w, events, log := waiters, readEvents, calls;
      for k := 0 to |events|
        invariant log == calls + Dispatch(w, events[..k], true)
      {
        var e := events[k];
        if w[e.fd].readEnabled {
          log := log + [ReadCall(w[e.fd].readData, e.status)];
        }
        assert events[..k + 1][..k] == events[..k];
      }
      assert events[..|events|] == events;
      calls, readEvents := log, [];
    }

    /** Hands the enabled write events to the handler, then empties the list. */
    method DispatchWrites()
      requires Below(|waiters|, writeEvents)
      modifies this
      ensures waiters == old(waiters) && pending == old(pending) && readEvents == old(readEvents)
      ensures calls == old(calls) + Dispatch(waiters, old(writeEvents), false)
      ensures writeEvents == []
    {
      var w, events, log := waiters, writeEvents, calls;
      for k := 0 to |events|
        invariant log == calls + Dispatch(w, events[..k], false)
      {
        var e := events[k];
        if w[e.fd].writeEnabled {
          log := log + [WriteCall(w[e.fd].writeData, e.status)];
        }
        assert events[..k + 1][..k] == events[..k];
      }
      assert events[..|events|] == events;
      calls, writeEvents := log, [];
    }

    /** Queues the events the platform reports during a round. */
    method Report(events: seq<PlatformEvent>)
      requires Valid()
      modifies this
      ensures readEvents == ReadsOf(events) && writeEvents == WritesOf(events)
      ensures Snapshot() == old(Snapshot())
    {
      for k := 0 to |events|
        invariant readEvents == ReadsOf(events[..k]) && writeEvents == WritesOf(events[..k])
        invariant Snapshot() == old(Snapshot())
      {
        assert events[..k + 1][..k] == events[..k];
        match events[k] {
          case Readable(fd, status) => Read(fd, status);
          case Writable(fd, status) => Write(fd, status);
          case Hangup(fd) => Closed(fd);
        }
      }
      assert events[..|events|] == events;
    }

    /** The body of the `loop` iteration, for one platform round. */
    method RunOnce(round: Round<D>) returns (reason: EndReason)
      requires Valid() && RoundFits(Snapshot(), round)
      modifies this
      ensures Valid() && reason == round.reason
      ensures Snapshot() == Step(zero, old(Snapshot()), round)
    {
      ghost var s := Snapshot();
      Report(round.events);
      pending := pending + round.commands;
      ghost var t0 := Table(waiters, readEvents, writeEvents);
      ApplyPending();
      PlatformBelow(|waiters|, round.events);
      ExtendsBelow(t0.readEvents, readEvents, |waiters|);
      ExtendsBelow(t0.writeEvents, writeEvents, |waiters|);
      DispatchReads();
      DispatchWrites();
      calls := calls + [Callback];
      reason := round.reason;
    }

    /**
     * `loop(nb_iter)`: runs rounds until `nb_iter` of them have run (never,
     * when `nb_iter` is negative) or one ends on a time-out or an error, and
     * returns why it stopped.
     */
    method Loop(nbIter: int, rounds: seq<Round<D>>) returns (reason: EndReason)
      requires Valid() && Enough(nbIter, rounds)
      requires RoundsFit(zero, Snapshot(), rounds[..Executed(nbIter, rounds)])
      modifies this
      ensures Valid() && reason == EndOf(nbIter, rounds)
      ensures Snapshot() == Run(zero, old(Snapshot()), rounds[..Executed(nbIter, rounds)])
    {
      var currentIter := 0;
      ghost var n := Executed(nbIter, rounds);
      ghost var s0 := Snapshot();
      ghost var rest := rounds[..n];
      assert rest == rounds[0..n];
      while currentIter < nbIter || nbIter < 0
        invariant Valid() && currentIter <= n && rest == rounds[currentIter..n]
        invariant forall j :: 0 <= j < currentIter ==> rounds[j].reason == MaxIterReached
        invariant nbIter >= 0 ==> currentIter <= nbIter
        invariant RoundsFit(zero, Snapshot(), rest)
        invariant Run(zero, s0, rounds[..n]) == Run(zero, Snapshot(), rest)
        decreases |rounds| - currentIter
      {
        NotDoneYet(nbIter, rounds, currentIter);
        var round := rounds[currentIter];
        RunStep(zero, Snapshot(), rest);
        var endReason := RunOnce(round);
        rest := rest[1..];
        if endReason != MaxIterReached {
          EndOfStop(nbIter, rounds, currentIter);
          return endReason;
        }
        assert forall j :: 0 <= j < currentIter + 1 ==> rounds[j].reason == MaxIterReached;
        currentIter := currentIter + 1;
      }
      EndOfBudget(nbIter, rounds);
      reason := MaxIterReached;
    }
  }

  /** Running a non-empty list of rounds is running its first round, then the others. */
  lemma RunStep<D>(zero: D, s: State<D>, rounds: seq<Round<D>>)
    requires rounds != [] && RoundsFit(zero, s, rounds)
    ensures RoundFits(s, rounds[0])
    ensures RoundsFit(zero, Step(zero, s, rounds[0]), rounds[1..])
    ensures Run(zero, s, rounds) == Run(zero, Step(zero, s, rounds[0]), rounds[1..])
    ensures rounds[1..] == [] ==> Run(zero, s, rounds) == Step(zero, s, rounds[0])
  {
  }

  /**
   * While the budget allows another iteration and no round so far stopped
   * early, the rounds have not run out.
   */
  lemma {:induction false} NotDoneYet<D>(limit: int, rounds: seq<Round<D>>, i: nat)
    requires Enough(limit, rounds)
    requires i < limit || limit < 0
    requires i <= |rounds|
    requires forall j :: 0 <= j < i ==> rounds[j].reason == MaxIterReached
    ensures i < Executed(limit, rounds)
    decreases i
  {
    if i > 0 {
      NotDoneYet(Less(limit), rounds[1..], i - 1);
    }
  }
}

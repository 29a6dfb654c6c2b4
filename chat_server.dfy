/**
 * The broadcast relay example `chat_server`: the simpler version of
 * `full_chat_server`, without a quit command for the server.  Its readers
 * strip two bytes ("\r\n") from each read and send `remove` only when the
 * client types "quit"; its coordinator never stops.
 *
 * As in `FullChatServer`, readers are functions from their read results to
 * the commands they write, and the coordinator consumes the commands in the
 * order the channel delivers them.
 */
module ChatServer {
  import opened ChatCommon

  datatype Command = Add(fd: int) | Write(client: int, message: Message) | Remove(fd: int)

  // -----------------------------------------------------------------------
  // listen_client
  // -----------------------------------------------------------------------

  /** How a reader ends: the loop stops, or building the line throws `std::length_error`. */
  datatype ClientRun = ClientRun(sent: seq<Command>, thrown: bool)

  /**
   * `listen_client` as written: the loop goes on while `recv` returns
   * anything but 0, so a failed read (-1) enters it, and the line is built
   * with `nread - 2` characters, a negative count for a read of fewer than
   * two bytes, which `std::string` rejects by throwing.
   */
  function ClientCommandsAsWritten(fd: int, results: seq<Recv>): ClientRun
    decreases |results|
  {
    if results == [] || NRead(results[0]) == 0 then ClientRun([], false)
    else if NRead(results[0]) < 2 then ClientRun([], true)
    else
      var data := results[0].bytes[..NRead(results[0]) - 2];
      if StartsWithQuit(data) then ClientRun([Remove(fd)], false)
      else
        var rest := ClientCommandsAsWritten(fd, results[1..]);
        ClientRun([Write(fd, Says(fd, data))] + rest.sent, rest.thrown)
  }

  /** A failed read, such as a connection reset, makes the reader throw instead of stopping. */
  lemma FailedReadThrows(fd: int)
    ensures ClientCommandsAsWritten(fd, [Failed]).thrown
    ensures ClientCommandsAsWritten(fd, [Received("x")]).thrown
  {
  }

  /** A read without its last two bytes, or empty when it has fewer. */
  function Line(r: Recv): (data: Text)
    requires NRead(r) > 0
    ensures |data| == if NRead(r) >= 2 then NRead(r) - 2 else 0
  {
    if NRead(r) >= 2 then r.bytes[..NRead(r) - 2] else []
  }

  /**
   * The reader with the evident intent: it stops on a failed read as on
   * the end of the stream, and never builds a line of negative length.
   */
  function ClientCommands(fd: int, results: seq<Recv>): seq<Command>
    decreases |results|
  {
    if results == [] || NRead(results[0]) <= 0 then []
    else if StartsWithQuit(Line(results[0])) then [Remove(fd)]
    else [Write(fd, Says(fd, Line(results[0])))] + ClientCommands(fd, results[1..])
  }

  /**
   * The corrected reader agrees with the one as written whenever every
   * read it reaches brings at least two bytes.
   */
  lemma {:induction false} AgreesOnLongReads(fd: int, results: seq<Recv>)
    requires forall k :: 0 <= k < |results| ==> NRead(results[k]) == 0 || NRead(results[k]) >= 2
    ensures ClientCommandsAsWritten(fd, results) == ClientRun(ClientCommands(fd, results), false)
    decreases |results|
  {
    if results != [] && NRead(results[0]) >= 2 {
      AgreesOnLongReads(fd, results[1..]);
    }
  }

  /** One pass of the corrected reader's loop, on the reads from `i` on. */
  lemma ClientCommandsStep(fd: int, results: seq<Recv>, i: nat)
    requires i < |results| && NRead(results[i]) > 0
    ensures ClientCommands(fd, results[i..]) ==
      if StartsWithQuit(Line(results[i])) then [Remove(fd)]
      else [Write(fd, Says(fd, Line(results[i])))] + ClientCommands(fd, results[i + 1..])
  {
    assert results[i..][0] == results[i] && results[i..][1..] == results[i + 1..];
  }

  /** One pass of `ListenClient`'s loop keeps the commands sent a prefix of the reader's run. */
  lemma ListenStep(fd: int, results: seq<Recv>, i: nat, sent: seq<Command>)
    requires i < |results| && NRead(results[i]) > 0
    requires sent + ClientCommands(fd, results[i..]) == ClientCommands(fd, results)
    ensures StartsWithQuit(Line(results[i])) ==> sent + [Remove(fd)] == ClientCommands(fd, results)
    ensures !StartsWithQuit(Line(results[i])) ==>
      sent + [Write(fd, Says(fd, Line(results[i])))] + ClientCommands(fd, results[i + 1..]) == ClientCommands(fd, results)
  {
    ClientCommandsStep(fd, results, i);
  }

  /** The corrected reader stops at the end of the reads or at the first empty or failed one. */
  lemma ClientCommandsStop(fd: int, results: seq<Recv>, i: nat)
    requires i <= |results| && (i == |results| || NRead(results[i]) <= 0)
    ensures ClientCommands(fd, results[i..]) == []
  {
    if i < |results| {
      assert results[i..][0] == results[i];
    }
  }

  /** `listen_client`, corrected. */
  method ListenClient(fd: int, results: seq<Recv>) returns (sent: seq<Command>)
    ensures sent == ClientCommands(fd, results)
  {
    sent := [];
    var i := 0;
    while i < |results| && NRead(results[i]) > 0
      invariant 0 <= i <= |results|
      invariant sent + ClientCommands(fd, results[i..]) == ClientCommands(fd, results)
    {
      var data := Line(results[i]);
      ListenStep(fd, results, i, sent);
      if StartsWithQuit(data) {
        sent := sent + [Remove(fd)];
        return;
      }
      sent := sent + [Write(fd, Says(fd, data))];
      i := i + 1;
    }
    ClientCommandsStop(fd, results, i);
  }

  /** The reader's commands: one per read, in order, a `remove` for a "quit" line and a "says" for any other. */
  lemma {:induction false} ClientCommandsLines(fd: int, results: seq<Recv>)
    ensures |ClientCommands(fd, results)| <= |results|
    ensures forall k :: 0 <= k < |ClientCommands(fd, results)| ==> NRead(results[k]) > 0
    ensures forall k :: 0 <= k < |ClientCommands(fd, results)| ==>
      (ClientCommands(fd, results)[k].Remove? <==> StartsWithQuit(Line(results[k])))
    ensures forall k :: 0 <= k < |ClientCommands(fd, results)| && !StartsWithQuit(Line(results[k])) ==>
      ClientCommands(fd, results)[k] == Write(fd, Says(fd, Line(results[k])))
    ensures forall k :: 0 <= k < |ClientCommands(fd, results)| && ClientCommands(fd, results)[k].Remove? ==>
      k == |ClientCommands(fd, results)| - 1
    decreases |results|
  {
    if results != [] && NRead(results[0]) > 0 && !StartsWithQuit(Line(results[0])) {
      ClientCommandsLines(fd, results[1..]);
      var rest := ClientCommands(fd, results[1..]);
      forall k | 1 <= k < |rest| + 1
        ensures results[k] == results[1..][k - 1]
      {
      }
    }
  }

  /**
   * Where the corrected reader stops: after a `remove`, or at the read right
   * after its last command, which is past the end of the reads, the end of
   * the stream or an error.
   */
  lemma {:induction false} ClientCommandsEnd(fd: int, results: seq<Recv>)
    ensures |ClientCommands(fd, results)| <= |results|
    ensures var n := |ClientCommands(fd, results)|;
      (n > 0 && ClientCommands(fd, results)[n - 1].Remove?) || n == |results| || NRead(results[n]) <= 0
    decreases |results|
  {
    if results != [] && NRead(results[0]) > 0 && !StartsWithQuit(Line(results[0])) {
      ClientCommandsEnd(fd, results[1..]);
      var rest := ClientCommands(fd, results[1..]);
      assert ClientCommands(fd, results) == [Write(fd, Says(fd, Line(results[0])))] + rest;
      if |rest| < |results[1..]| {
        assert results[1..][|rest|] == results[|rest| + 1];
      }
    }
  }

  /**
   * The reader sends `remove` only when the client typed "quit", and then
   * as its last command; everything before is the lines it read, in order;
   * and a reader that sent no `remove` stopped at the end of the reads, the
   * end of the stream or an error.
   */
  lemma ClientCommandsShape(fd: int, results: seq<Recv>)
    ensures |ClientCommands(fd, results)| <= |results|
    ensures forall k :: 0 <= k < |ClientCommands(fd, results)| ==> NRead(results[k]) > 0
    ensures forall k :: 0 <= k < |ClientCommands(fd, results)| ==>
      (ClientCommands(fd, results)[k].Remove? <==> StartsWithQuit(Line(results[k])))
    ensures forall k :: 0 <= k < |ClientCommands(fd, results)| && !StartsWithQuit(Line(results[k])) ==>
      ClientCommands(fd, results)[k] == Write(fd, Says(fd, Line(results[k])))
    ensures forall k :: 0 <= k < |ClientCommands(fd, results)| && ClientCommands(fd, results)[k].Remove? ==>
      k == |ClientCommands(fd, results)| - 1
    ensures var n := |ClientCommands(fd, results)|;
      (n > 0 && ClientCommands(fd, results)[n - 1].Remove?) || n == |results| || NRead(results[n]) <= 0
  {
    ClientCommandsLines(fd, results);
    ClientCommandsEnd(fd, results);
  }

  /** A client that disconnects without typing "quit" is never removed. */
  lemma NoRemoveWithoutQuit(fd: int, results: seq<Recv>)
    requires forall k :: 0 <= k < |results| && NRead(results[k]) > 0 ==> !StartsWithQuit(Line(results[k]))
    ensures Remove(fd) !in ClientCommands(fd, results)
  {
    ClientCommandsLines(fd, results);
    var sent := ClientCommands(fd, results);
    forall k | 0 <= k < |sent|
      ensures sent[k] != Remove(fd)
    {
    }
  }

  // -----------------------------------------------------------------------
  // listen_new_connections
  // -----------------------------------------------------------------------

  /**
   * `listen_new_connections` as written: it stops on a failure other than
   * `EAGAIN` and sends `add` for every other result, a failure with
   * `EAGAIN` included.
   */
  function AcceptCommandsAsWritten(accepts: seq<Accept>): seq<Command>
    decreases |accepts|
  {
    if accepts == [] || (accepts[0].rc < 0 && !accepts[0].eagain) then []
    else [Add(accepts[0].rc)] + AcceptCommandsAsWritten(accepts[1..])
  }

  /** A failure with `EAGAIN` reaches the coordinator as a new connection with fd -1. */
  lemma EagainBecomesAdd()
    ensures AcceptCommandsAsWritten([Accept(-1, true)]) == [Add(-1)]
  {
  }

  /** The acceptor with the evident intent: a failure with `EAGAIN` is skipped. */
  function AcceptCommands(accepts: seq<Accept>): seq<Command>
    decreases |accepts|
  {
    if accepts == [] || (accepts[0].rc < 0 && !accepts[0].eagain) then []
    else if accepts[0].rc < 0 then AcceptCommands(accepts[1..])
    else [Add(accepts[0].rc)] + AcceptCommands(accepts[1..])
  }

  /** `accept` failed with anything but `EAGAIN`: the acceptor's loop ends. */
  predicate EndsAcceptor(a: Accept) {
    a.rc < 0 && !a.eagain
  }

  /** The position of the first result that ends the acceptor, or the number of results if none does. */
  function AcceptorEnd(accepts: seq<Accept>): (n: nat)
    ensures n <= |accepts|
    ensures forall k :: 0 <= k < n ==> !EndsAcceptor(accepts[k])
    ensures n < |accepts| ==> EndsAcceptor(accepts[n])
    decreases |accepts|
  {
    if accepts == [] || EndsAcceptor(accepts[0]) then 0
    else
      var n := AcceptorEnd(accepts[1..]);
      assert forall k :: 1 <= k < n + 1 ==> accepts[k] == accepts[1..][k - 1];
      n + 1
  }

  /** The fds `accept` returned, in order, leaving out failures. */
  function NewFds(accepts: seq<Accept>): seq<int>
    decreases |accepts|
  {
    if accepts == [] then []
    else (if accepts[0].rc >= 0 then [accepts[0].rc] else []) + NewFds(accepts[1..])
  }

  /** An fd is among `NewFds` exactly when some `accept` returned it. */
  lemma {:induction false} NewFdsMembers(accepts: seq<Accept>, fd: int)
    ensures fd in NewFds(accepts) <==> fd >= 0 && exists k :: 0 <= k < |accepts| && accepts[k].rc == fd
    decreases |accepts|
  {
    if accepts != [] {
      NewFdsMembers(accepts[1..], fd);
      if exists k :: 0 <= k < |accepts| && accepts[k].rc == fd {
        var k :| 0 <= k < |accepts| && accepts[k].rc == fd;
        if k > 0 {
          assert accepts[1..][k - 1].rc == fd;
        }
      }
      if exists k :: 0 <= k < |accepts[1..]| && accepts[1..][k].rc == fd {
        var k :| 0 <= k < |accepts[1..]| && accepts[1..][k].rc == fd;
        assert accepts[k + 1].rc == fd;
      }
    }
  }

  /** One `add` per fd, in the order of the fds. */
  function Adds(fds: seq<int>): (r: seq<Command>)
    ensures |r| == |fds| && forall k :: 0 <= k < |fds| ==> r[k] == Add(fds[k])
  {
    seq(|fds|, k requires 0 <= k < |fds| => Add(fds[k]))
  }

  /** `Adds` keeps exactly the fds it is given. */
  lemma AddsMembers(fds: seq<int>, fd: int)
    ensures Add(fd) in Adds(fds) <==> fd in fds
  {
    if fd in fds {
      var k :| 0 <= k < |fds| && fds[k] == fd;
      assert Adds(fds)[k] == Add(fd);
    }
  }

  /** The acceptor's commands are the `add`s of the fds accepted before the result that ends it. */
  lemma {:induction false} AcceptCommandsFilter(accepts: seq<Accept>)
    ensures AcceptCommands(accepts) == Adds(NewFds(accepts[..AcceptorEnd(accepts)]))
    decreases |accepts|
  {
    var n := AcceptorEnd(accepts);
    if accepts == [] || EndsAcceptor(accepts[0]) {
      assert accepts[..n] == [];
    } else {
      AcceptCommandsFilter(accepts[1..]);
      assert accepts[..n] == [accepts[0]] + accepts[1..][..n - 1];
      assert NewFds(accepts[..n]) == (if accepts[0].rc >= 0 then [accepts[0].rc] else []) + NewFds(accepts[1..][..n - 1]);
    }
  }

  /**
   * The corrected acceptor announces exactly the fds `accept` returned
   * before the first failure other than `EAGAIN`, each once, in order of
   * acceptance, and nothing else.
   */
  lemma AcceptCommandsAreConnections(accepts: seq<Accept>)
    ensures AcceptCommands(accepts) == Adds(NewFds(accepts[..AcceptorEnd(accepts)]))
    ensures forall fd :: Add(fd) in AcceptCommands(accepts) <==>
      fd >= 0 && exists k :: 0 <= k < AcceptorEnd(accepts) && accepts[k].rc == fd
    ensures forall c :: c in AcceptCommands(accepts) ==> c.Add?
  {
    var n := AcceptorEnd(accepts);
    AcceptCommandsFilter(accepts);
    forall fd ensures Add(fd) in AcceptCommands(accepts) <==>
      fd >= 0 && exists k :: 0 <= k < n && accepts[k].rc == fd
    {
      AddsMembers(NewFds(accepts[..n]), fd);
      NewFdsMembers(accepts[..n], fd);
      if exists k :: 0 <= k < n && accepts[k].rc == fd {
        var k :| 0 <= k < n && accepts[k].rc == fd;
        assert accepts[..n][k].rc == fd;
      }
    }
  }

  /** `listen_new_connections`, corrected: `for (;;)` until a failure other than `EAGAIN`. */
  method ListenNewConnections(accepts: seq<Accept>) returns (sent: seq<Command>)
    ensures sent == AcceptCommands(accepts)
  {
    sent := [];
    var i := 0;
    while i < |accepts|
      invariant 0 <= i <= |accepts|
      invariant sent + AcceptCommands(accepts[i..]) == AcceptCommands(accepts)
    {
      var newsockfd := accepts[i].rc;
      assert accepts[i..][0] == accepts[i] && accepts[i..][1..] == accepts[i + 1..];
      if newsockfd < 0 && !accepts[i].eagain {
        return;
      }
      if newsockfd >= 0 {
        sent := sent + [Add(newsockfd)];
      }
      i := i + 1;
    }
  }

  // -----------------------------------------------------------------------
  // the coordinator
  // -----------------------------------------------------------------------

  /** The coordinator's fields as a value. */
  datatype CoordinatorState = CoordinatorState(
    conns: seq<int>, started: seq<int>, sent: seq<Delivery>, closed: seq<int>, requeued: seq<Command>)

  /** What one pass of the `switch` does to the coordinator's state. */
  function Apply(st: CoordinatorState, command: Command): (r: CoordinatorState)
    requires Increasing(st.conns)
    ensures Increasing(r.conns)
  {
    match command
    case Add(fd) =>
      st.(conns := Insert(st.conns, fd), started := st.started + [fd], requeued := st.requeued + [Write(fd, Joined(fd))])
    case Write(_, message) =>
      st.(sent := st.sent + ToAll(st.conns, message))
    case Remove(fd) =>
      st.(conns := Erase(st.conns, fd), closed := st.closed + [fd], requeued := st.requeued + [Write(fd, Exited(fd))])
  }

  /** The state after executing `commands` in order. */
  function Through(st: CoordinatorState, commands: seq<Command>): (r: CoordinatorState)
    requires Increasing(st.conns)
    ensures Increasing(r.conns)
    decreases |commands|
  {
    if commands == [] then st
    else Apply(Through(st, commands[..|commands| - 1]), commands[|commands| - 1])
  }

  /** Whether `fd` is a member after `commands`, starting from the members `initial`. */
  ghost predicate Member(initial: seq<int>, commands: seq<Command>, fd: int)
    decreases |commands|
  {
    if commands == [] then fd in initial
    else
      var last := commands[|commands| - 1];
      if last == Add(fd) then true
      else if last == Remove(fd) then false
      else Member(initial, commands[..|commands| - 1], fd)
  }

  /** The fds the `add` commands carry, in order. */
  function AddedFds(commands: seq<Command>): seq<int>
    decreases |commands|
  {
    if commands == [] then []
    else AddedFds(commands[..|commands| - 1]) + (if commands[|commands| - 1].Add? then [commands[|commands| - 1].fd] else [])
  }

  /** What the coordinator announces for `commands`: "joined" for each `add`, "exited" for each `remove`, in order. */
  function Announcements(commands: seq<Command>): seq<Command>
    decreases |commands|
  {
    if commands == [] then []
    else
      var last := commands[|commands| - 1];
      Announcements(commands[..|commands| - 1])
        + (match last
           case Add(fd) => [Write(fd, Joined(fd))]
           case Remove(fd) => [Write(fd, Exited(fd))]
           case _ => [])
  }

  /**
   * After any run of commands an fd is a connection exactly when its last
   * `add` or `remove` was an `add` (or, with neither, when it was one
   * before); the readers started are the `add`s in order, and the
   * announcements are one per `add` and `remove`, in order.
   */
  lemma {:induction false} ThroughConnections(st: CoordinatorState, commands: seq<Command>)
    requires Increasing(st.conns)
    ensures forall fd :: fd in Through(st, commands).conns <==> Member(st.conns, commands, fd)
    ensures Through(st, commands).started == st.started + AddedFds(commands)
    ensures Through(st, commands).requeued == st.requeued + Announcements(commands)
    decreases |commands|
  {
    if commands != [] {
      ThroughConnections(st, commands[..|commands| - 1]);
    }
  }

  /**
   * Deliveries are only appended, and each one goes to an fd that was a
   * connection before the run or that some `add` of the run brought in: a
   * client that never joined receives nothing.
   */
  lemma {:induction false} ThroughDeliversToMembers(st: CoordinatorState, commands: seq<Command>)
    requires Increasing(st.conns)
    ensures st.sent <= Through(st, commands).sent
    ensures forall y :: y in Through(st, commands).conns ==> y in st.conns || Add(y) in commands
    ensures forall k :: |st.sent| <= k < |Through(st, commands).sent| ==>
      var dest := Through(st, commands).sent[k].dest;
      dest in st.conns || Add(dest) in commands
    decreases |commands|
  {
    if commands != [] {
      var front := commands[..|commands| - 1];
      ThroughDeliversToMembers(st, front);
      assert forall c :: c in front ==> c in commands;
    }
  }

  /** The main loop's state and what it has done so far (see `FullChatServer.Coordinator`). */
  class Coordinator {
    var conns: seq<int>
    var started: seq<int>
    var sent: seq<Delivery>
    var closed: seq<int>
    var requeued: seq<Command>

    ghost predicate Valid()
      reads this
    {
      Increasing(conns)
    }

    function State(): CoordinatorState
      reads this
    {
      CoordinatorState(conns, started, sent, closed, requeued)
    }

    constructor ()
      ensures Valid() && conns == [] && started == [] && sent == [] && closed == [] && requeued == []
    {
      conns, started, sent, closed, requeued := [], [], [], [], [];
    }

    /** `add`: the fd joins the set, its reader starts, and "joined" is announced. */
    method Add(fd: int)
      requires Valid()
      modifies this
      ensures Valid() && conns == Insert(old(conns), fd)
      ensures started == old(started) + [fd] && requeued == old(requeued) + [Write(fd, Joined(fd))]
      ensures sent == old(sent) && closed == old(closed)
    {
      conns := Insert(conns, fd);
      started := started + [fd];
      requeued := requeued + [Write(fd, Joined(fd))];
    }

    /** `write`: the message goes once to every connection, in ascending fd order. */
    method Broadcast(message: Message)
      requires Valid()
      modifies this
      ensures Valid() && sent == old(sent) + ToAll(conns, message)
      ensures conns == old(conns) && started == old(started) && closed == old(closed) && requeued == old(requeued)
    {
      var deliveries := SendToAll(conns, message);
      sent := sent + deliveries;
    }

    /** `remove`: the fd leaves the set, is shut down and closed, and "exited" is announced. */
    method Remove(fd: int)
      requires Valid()
      modifies this
      ensures Valid() && conns == Erase(old(conns), fd)
      ensures closed == old(closed) + [fd] && requeued == old(requeued) + [Write(fd, Exited(fd))]
      ensures sent == old(sent) && started == old(started)
    {
      conns := Erase(conns, fd);
      closed := closed + [fd];
      requeued := requeued + [Write(fd, Exited(fd))];
    }

    /** One pass of the `switch`: the command's effect on every field is the one `Apply` gives. */
    method Handle(command: Command)
      requires Valid()
      modifies this
      ensures Valid() && State() == Apply(old(State()), command)
    {
      match command
      case Add(fd) => Add(fd);
      case Write(_, message) => Broadcast(message);
      case Remove(fd) => Remove(fd);
    }

    /**
     * `while (!exit)`, where nothing sets `exit`: every command is executed
     * in order, the state is the one `Through` gives, and the members are
     * the fds added and not removed since.
     */
    method Run(commands: seq<Command>)
      requires Valid()
      modifies this
      ensures Valid() && State() == Through(old(State()), commands)
      ensures forall fd :: fd in conns <==> Member(old(conns), commands, fd)
    {
      for i := 0 to |commands|
        invariant Valid() && State() == Through(old(State()), commands[..i])
      {
        Handle(commands[i]);
        assert commands[..i + 1][..i] == commands[..i];
      }
      assert commands[..|commands|] == commands;
      ThroughConnections(old(State()), commands);
    }
  }
}

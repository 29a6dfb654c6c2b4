/**
 * The broadcast relay example `full_chat_server`: one reader per client, an
 * acceptor, a reader of the server's standard input, and a coordinator that
 * owns the set of connections and executes the commands the others send it
 * over one channel.
 *
 * The channel is not modelled: each reader is a function from the results
 * of its reads to the commands it writes, and the coordinator consumes a
 * sequence of commands, whatever interleaving the channel produced.
 * Running out of read results counts as the end of the stream.
 */
module FullChatServer {
  import opened ChatCommon

  /** `command`: its `command_type` with the data the variant carries for it. */
  datatype Command = Add(fd: int) | Write(client: int, message: Message) | Remove(fd: int) | Quit

  // -----------------------------------------------------------------------
  // listen_client
  // -----------------------------------------------------------------------

  /** The bytes of a read without the final one (the line feed). */
  function Line(r: Recv): Text
    requires NRead(r) > 0
  {
    r.bytes[..NRead(r) - 1]
  }

  /** The commands `listen_client` writes for the results it gets, in order. */
  function ClientCommands(fd: int, results: seq<Recv>): seq<Command>
    decreases |results|
  {
    if results == [] || NRead(results[0]) <= 0 then [Remove(fd)]
    else if StartsWithQuit(Line(results[0])) then [Remove(fd)]
    else [Write(fd, Says(fd, Line(results[0])))] + ClientCommands(fd, results[1..])
  }

  /** `listen_client`. */
  method ListenClient(fd: int, results: seq<Recv>) returns (sent: seq<Command>)
    ensures sent == ClientCommands(fd, results)
  {
    sent := [];
    var i := 0;
    while i < |results| && NRead(results[i]) > 0
      invariant 0 <= i <= |results|
      invariant sent + ClientCommands(fd, results[i..]) == ClientCommands(fd, results)
    {
      var data := Line(results[i]);
      assert results[i..][0] == results[i] && results[i..][1..] == results[i + 1..];
      if StartsWithQuit(data) {
        break;
      }
      sent := sent + [Write(fd, Says(fd, data))];
      i := i + 1;
    }
    sent := sent + [Remove(fd)];
  }

  /** Where the reader stops: right after its last `write`, at the end of the stream, an error or a "quit" line. */
  lemma {:induction false} ClientCommandsEnd(fd: int, results: seq<Recv>)
    ensures 1 <= |ClientCommands(fd, results)| <= |results| + 1
    ensures var n := |ClientCommands(fd, results)| - 1;
      n == |results| || NRead(results[n]) <= 0 || StartsWithQuit(Line(results[n]))
    decreases |results|
  {
    if results != [] && NRead(results[0]) > 0 && !StartsWithQuit(Line(results[0])) {
      ClientCommandsEnd(fd, results[1..]);
      var n := |ClientCommands(fd, results[1..])|;
      if n - 1 < |results[1..]| {
        assert results[1..][n - 1] == results[n];
      }
    }
  }

  /** The reader's commands: its lines, in order, each forwarded as "Client fd says", then one `remove`. */
  lemma {:induction false} ClientCommandsLines(fd: int, results: seq<Recv>)
    ensures 1 <= |ClientCommands(fd, results)| <= |results| + 1
    ensures ClientCommands(fd, results)[|ClientCommands(fd, results)| - 1] == Remove(fd)
    ensures forall k :: 0 <= k < |ClientCommands(fd, results)| - 1 ==>
      NRead(results[k]) > 0 && !StartsWithQuit(Line(results[k]))
      && ClientCommands(fd, results)[k] == Write(fd, Says(fd, Line(results[k])))
    decreases |results|
  {
    if results != [] && NRead(results[0]) > 0 && !StartsWithQuit(Line(results[0])) {
      ClientCommandsLines(fd, results[1..]);
      var rest := ClientCommands(fd, results[1..]);
      assert ClientCommands(fd, results) == [Write(fd, Says(fd, Line(results[0])))] + rest;
      forall k | 1 <= k < |rest| + 1 - 1
        ensures ClientCommands(fd, results)[k] == Write(fd, Says(fd, Line(results[k])))
      {
        assert results[1..][k - 1] == results[k];
      }
    }
  }

  /**
   * However the reader ends, it sends exactly one `remove`, last; before it
   * come the lines it read, in order, each forwarded as "Client fd says",
   * none of them starting with "quit"; and the read right after them (if
   * there was one) is where the reader stopped: end of stream, an error, or
   * a line starting with "quit".
   */
  lemma ClientCommandsShape(fd: int, results: seq<Recv>)
    ensures 1 <= |ClientCommands(fd, results)| <= |results| + 1
    ensures ClientCommands(fd, results)[|ClientCommands(fd, results)| - 1] == Remove(fd)
    ensures forall k :: 0 <= k < |ClientCommands(fd, results)| - 1 ==>
      NRead(results[k]) > 0 && !StartsWithQuit(Line(results[k]))
      && ClientCommands(fd, results)[k] == Write(fd, Says(fd, Line(results[k])))
    ensures var n := |ClientCommands(fd, results)| - 1;
      n == |results| || NRead(results[n]) <= 0 || StartsWithQuit(Line(results[n]))
  {
    ClientCommandsLines(fd, results);
    ClientCommandsEnd(fd, results);
  }

  /** Each client sends exactly one `remove`. */
  lemma OneRemovePerClient(fd: int, results: seq<Recv>, k: nat)
    requires k < |ClientCommands(fd, results)| && ClientCommands(fd, results)[k].Remove?
    ensures k == |ClientCommands(fd, results)| - 1
  {
    ClientCommandsShape(fd, results);
  }

  // -----------------------------------------------------------------------
  // listen_server_command
  // -----------------------------------------------------------------------

  /**
   * `listen_server_command`: reads lines on standard input until one starts
   * with "quit", which sends `quit`; every other line gets an "Unknown
   * command" reply, returned here as the list of unknown lines.
   */
  method ListenServerCommand(results: seq<Recv>) returns (sent: seq<Command>, unknown: seq<Text>)
    ensures sent == [] || sent == [Quit]
    ensures sent == [Quit] <==> exists k :: 0 <= k < |results| && ServerQuitsAt(results, k)
    ensures |unknown| <= |results|
    ensures forall k :: 0 <= k < |unknown| ==> NRead(results[k]) > 0 && unknown[k] == Line(results[k])
    ensures forall k :: 0 <= k < |unknown| ==> !StartsWithQuit(unknown[k])
    ensures sent == [Quit] ==> |unknown| < |results| && NRead(results[|unknown|]) > 0 && StartsWithQuit(Line(results[|unknown|]))
    ensures sent == [] ==> |unknown| == |results| || NRead(results[|unknown|]) <= 0
  {
    sent, unknown := [], [];
    var i := 0;
    while i < |results| && NRead(results[i]) > 0
      invariant 0 <= i <= |results| && |unknown| == i
      invariant forall k :: 0 <= k < i ==> NRead(results[k]) > 0 && unknown[k] == Line(results[k])
      invariant forall k :: 0 <= k < i ==> !StartsWithQuit(unknown[k])
      invariant forall k :: 0 <= k < i ==> !ServerQuitsAt(results, k)
    {
      var data := Line(results[i]);
      if StartsWithQuit(data) {
        sent := [Quit];
        assert ServerQuitsAt(results, i);
        return;
      }
      unknown := unknown + [data];
      i := i + 1;
    }
    forall k | 0 <= k < |results| ensures !ServerQuitsAt(results, k) {
      if k > i {
        assert !(NRead(results[i]) > 0);
      }
    }
  }

  /** Line `k` is the first to start with "quit", and every read up to it delivered bytes. */
  ghost predicate ServerQuitsAt(results: seq<Recv>, k: nat)
    requires k < |results|
  {
    && (forall j :: 0 <= j <= k ==> NRead(results[j]) > 0)
    && (forall j :: 0 <= j < k ==> !StartsWithQuit(Line(results[j])))
    && StartsWithQuit(Line(results[k]))
  }

  // -----------------------------------------------------------------------
  // listen_new_connections
  // -----------------------------------------------------------------------

  /**
   * The acceptor as written: it stops when `accept` returns 0 or fails
   * with anything but `EAGAIN`, and sends `add` for every other result,
   * including a failure with `EAGAIN`.
   */
  function AcceptCommandsAsWritten(accepts: seq<Accept>): seq<Command>
    decreases |accepts|
  {
    if accepts == [] || accepts[0].rc == 0 then []
    else if accepts[0].rc < 0 && !accepts[0].eagain then []
    else [Add(accepts[0].rc)] + AcceptCommandsAsWritten(accepts[1..])
  }

  /** A failure with `EAGAIN` reaches the coordinator as a new connection with fd -1. */
  lemma EagainBecomesAdd()
    ensures AcceptCommandsAsWritten([Accept(-1, true)]) == [Add(-1)]
  {
  }

  /** The acceptor with the evident intent: a failure with `EAGAIN` is skipped. */
  function AcceptCommands(accepts: seq<Accept>): seq<Command>
    decreases |accepts|
  {
    if accepts == [] || accepts[0].rc == 0 then []
    else if accepts[0].rc < 0 && !accepts[0].eagain then []
    else if accepts[0].rc < 0 then AcceptCommands(accepts[1..])
    else [Add(accepts[0].rc)] + AcceptCommands(accepts[1..])
  }

  /** `accept` returned 0, or failed with anything but `EAGAIN`: the acceptor's loop ends. */
  predicate EndsAcceptor(a: Accept) {
    a.rc == 0 || (a.rc < 0 && !a.eagain)
  }

  /** The position of the first result that ends the acceptor, or the number of results if none does. */
  function AcceptorEnd(accepts: seq<Accept>): (n: nat)
    ensures n <= |accepts|
    ensures forall k :: 0 <= k < n ==> !EndsAcceptor(accepts[k])
    ensures n < |accepts| ==> EndsAcceptor(accepts[n])
    decreases |accepts|
  {
    if accepts == [] || EndsAcceptor(accepts[0]) then 0
    else
      var n := AcceptorEnd(accepts[1..]);
      assert forall k :: 1 <= k < n + 1 ==> accepts[k] == accepts[1..][k - 1];
      n + 1
  }

  /** The fds `accept` returned, in order, leaving out failures. */
  function NewFds(accepts: seq<Accept>): seq<int>
    decreases |accepts|
  {
    if accepts == [] then []
    else (if accepts[0].rc > 0 then [accepts[0].rc] else []) + NewFds(accepts[1..])
  }

  /** An fd is among `NewFds` exactly when some `accept` returned it. */
  lemma {:induction false} NewFdsMembers(accepts: seq<Accept>, fd: int)
    ensures fd in NewFds(accepts) <==> fd > 0 && exists k :: 0 <= k < |accepts| && accepts[k].rc == fd
    decreases |accepts|
  {
    if accepts != [] {
      NewFdsMembers(accepts[1..], fd);
      if exists k :: 0 <= k < |accepts| && accepts[k].rc == fd {
        var k :| 0 <= k < |accepts| && accepts[k].rc == fd;
        if k > 0 {
          assert accepts[1..][k - 1].rc == fd;
        }
      }
      if exists k :: 0 <= k < |accepts[1..]| && accepts[1..][k].rc == fd {
        var k :| 0 <= k < |accepts[1..]| && accepts[1..][k].rc == fd;
        assert accepts[k + 1].rc == fd;
      }
    }
  }

  /** One `add` per fd, in the order of the fds. */
  function Adds(fds: seq<int>): (r: seq<Command>)
    ensures |r| == |fds| && forall k :: 0 <= k < |fds| ==> r[k] == Add(fds[k])
  {
    seq(|fds|, k requires 0 <= k < |fds| => Add(fds[k]))
  }

  /** `Adds` keeps exactly the fds it is given. */
  lemma AddsMembers(fds: seq<int>, fd: int)
    ensures Add(fd) in Adds(fds) <==> fd in fds
  {
    if fd in fds {
      var k :| 0 <= k < |fds| && fds[k] == fd;
      assert Adds(fds)[k] == Add(fd);
    }
  }

  /** The acceptor's commands are the `add`s of the fds accepted before the result that ends it. */
  lemma {:induction false} AcceptCommandsFilter(accepts: seq<Accept>)
    ensures AcceptCommands(accepts) == Adds(NewFds(accepts[..AcceptorEnd(accepts)]))
    decreases |accepts|
  {
    var n := AcceptorEnd(accepts);
    if accepts == [] || EndsAcceptor(accepts[0]) {
      assert accepts[..n] == [];
    } else {
      AcceptCommandsFilter(accepts[1..]);
      assert accepts[..n] == [accepts[0]] + accepts[1..][..n - 1];
      assert NewFds(accepts[..n]) == (if accepts[0].rc > 0 then [accepts[0].rc] else []) + NewFds(accepts[1..][..n - 1]);
    }
  }

  /**
   * The acceptor announces exactly the fds `accept` returned before the
   * first result that ends it, each once, in order of acceptance, and
   * nothing else.
   */
  lemma AcceptCommandsAreConnections(accepts: seq<Accept>)
    ensures AcceptCommands(accepts) == Adds(NewFds(accepts[..AcceptorEnd(accepts)]))
    ensures forall fd :: Add(fd) in AcceptCommands(accepts) <==>
      fd > 0 && exists k :: 0 <= k < AcceptorEnd(accepts) && accepts[k].rc == fd
    ensures forall c :: c in AcceptCommands(accepts) ==> c.Add?
  {
    var n := AcceptorEnd(accepts);
    AcceptCommandsFilter(accepts);
    forall fd ensures Add(fd) in AcceptCommands(accepts) <==>
      fd > 0 && exists k :: 0 <= k < n && accepts[k].rc == fd
    {
      AddsMembers(NewFds(accepts[..n]), fd);
      NewFdsMembers(accepts[..n], fd);
      if exists k :: 0 <= k < n && accepts[k].rc == fd {
        var k :| 0 <= k < n && accepts[k].rc == fd;
        assert accepts[..n][k].rc == fd;
      }
    }
  }

  /** `listen_new_connections`, skipping `EAGAIN` failures; `closed` is the final close of the listening socket. */
  method ListenNewConnections(accepts: seq<Accept>) returns (sent: seq<Command>, closed: bool)
    ensures sent == AcceptCommands(accepts) && closed
  {
    sent := [];
    var i := 0;
    while i < |accepts| && accepts[i].rc != 0
      invariant 0 <= i <= |accepts|
      invariant sent + AcceptCommands(accepts[i..]) == AcceptCommands(accepts)
    {
      var newsockfd := accepts[i].rc;
      assert accepts[i..][0] == accepts[i] && accepts[i..][1..] == accepts[i + 1..];
      if newsockfd < 0 && !accepts[i].eagain {
        break;
      }
      if newsockfd > 0 {
        sent := sent + [Add(newsockfd)];
      }
      i := i + 1;
    }
    closed := true;
  }

  // -----------------------------------------------------------------------
  // the coordinator
  // -----------------------------------------------------------------------

  /** The coordinator's fields as a value. */
  datatype CoordinatorState = CoordinatorState(
    conns: seq<int>, exit: bool, started: seq<int>, sent: seq<Delivery>,
    closed: seq<int>, panicked: seq<int>, requeued: seq<Command>)

  /** What one pass of the `switch` does to the coordinator's state. */
  function Apply(st: CoordinatorState, serverFd: int, command: Command): (r: CoordinatorState)
    requires Increasing(st.conns)
    ensures Increasing(r.conns)
  {
    match command
    case Add(fd) =>
      st.(conns := Insert(st.conns, fd), started := st.started + [fd], requeued := st.requeued + [Write(fd, Joined(fd))])
    case Write(_, message) =>
      st.(sent := st.sent + ToAll(st.conns, message))
    case Remove(fd) =>
      st.(conns := Erase(st.conns, fd), closed := st.closed + [fd], requeued := st.requeued + [Write(fd, Exited(fd))])
    case Quit =>
      st.(exit := true, sent := st.sent + ToAll(st.conns, ServerExited), closed := st.closed + st.conns,
          panicked := st.panicked + st.conns + [serverFd])
  }

  /** The state after executing `commands` in order. */
  function Through(st: CoordinatorState, serverFd: int, commands: seq<Command>): (r: CoordinatorState)
    requires Increasing(st.conns)
    ensures Increasing(r.conns)
    decreases |commands|
  {
    if commands == [] then st
    else Apply(Through(st, serverFd, commands[..|commands| - 1]), serverFd, commands[|commands| - 1])
  }

  /**
   * One more command executed by the loop: the state moves by `Apply`, and
   * the executed prefix holds `quit` exactly when the shorter one did or the
   * new command is `quit`.
   */
  lemma ThroughStep(st: CoordinatorState, serverFd: int, commands: seq<Command>, p: nat)
    requires Increasing(st.conns) && p < |commands|
    ensures Through(st, serverFd, commands[..p + 1]) == Apply(Through(st, serverFd, commands[..p]), serverFd, commands[p])
    ensures Quit in commands[..p + 1] <==> Quit in commands[..p] || commands[p] == Quit
  {
    assert commands[..p + 1] == commands[..p] + [commands[p]];
    assert commands[..p + 1][..p] == commands[..p];
  }

  /** Whether `fd` is a connection after `commands`, given the connections before them. */
  ghost predicate Member(conns: seq<int>, commands: seq<Command>, fd: int)
    decreases |commands|
  {
    if commands == [] then fd in conns
    else
      var last := commands[|commands| - 1];
      if last == Add(fd) then true
      else if last == Remove(fd) then false
      else Member(conns, commands[..|commands| - 1], fd)
  }

  /** The fds the `add` commands carry, in order. */
  function AddedFds(commands: seq<Command>): seq<int>
    decreases |commands|
  {
    if commands == [] then []
    else AddedFds(commands[..|commands| - 1]) + (if commands[|commands| - 1].Add? then [commands[|commands| - 1].fd] else [])
  }

  /** What the coordinator announces for `commands`: "joined" for each `add`, "exited" for each `remove`, in order. */
  function Announcements(commands: seq<Command>): seq<Command>
    decreases |commands|
  {
    if commands == [] then []
    else
      var last := commands[|commands| - 1];
      Announcements(commands[..|commands| - 1])
        + (match last
           case Add(fd) => [Write(fd, Joined(fd))]
           case Remove(fd) => [Write(fd, Exited(fd))]
           case _ => [])
  }

  /**
   * After any run of commands an fd is a connection exactly when its last `add` or `remove` was an `add`
   * (or, with neither, when it was one before); the readers started are the
   * `add`s in order, and the announcements are one per `add` and `remove`,
   * in order.
   */
  lemma {:induction false} ThroughConnections(st: CoordinatorState, serverFd: int, commands: seq<Command>)
    requires Increasing(st.conns)
    ensures forall fd :: fd in Through(st, serverFd, commands).conns <==> Member(st.conns, commands, fd)
    ensures Through(st, serverFd, commands).started == st.started + AddedFds(commands)
    ensures Through(st, serverFd, commands).requeued == st.requeued + Announcements(commands)
    decreases |commands|
  {
    if commands != [] {
      ThroughConnections(st, serverFd, commands[..|commands| - 1]);
    }
  }

  /**
   * Deliveries are only appended, and each one goes to an fd that was a
   * connection before the run or that some `add` of the run brought in: a
   * client that never joined receives nothing.
   */
  lemma {:induction false} ThroughDeliversToMembers(st: CoordinatorState, serverFd: int, commands: seq<Command>)
    requires Increasing(st.conns)
    ensures st.sent <= Through(st, serverFd, commands).sent
    ensures forall y :: y in Through(st, serverFd, commands).conns ==> y in st.conns || Add(y) in commands
    ensures forall k :: |st.sent| <= k < |Through(st, serverFd, commands).sent| ==>
      var dest := Through(st, serverFd, commands).sent[k].dest;
      dest in st.conns || Add(dest) in commands
    decreases |commands|
  {
    if commands != [] {
      var front := commands[..|commands| - 1];
      ThroughDeliversToMembers(st, serverFd, front);
      assert forall c :: c in front ==> c in commands;
    }
  }

  /**
   * The main loop's state: the connections (`std::set<int>`), the exit flag,
   * and what it has done so far: readers started, sends, fds shut down and
   * closed, fds put in panic, and the commands it wrote back to its own
   * channel.
   */
  class Coordinator {
    const serverFd: int
    var conns: seq<int>
    var exit: bool
    var started: seq<int>
    var sent: seq<Delivery>
    var closed: seq<int>
    var panicked: seq<int>
    var requeued: seq<Command>

    ghost predicate Valid()
      reads this
    {
      Increasing(conns)
    }

    function State(): CoordinatorState
      reads this
    {
      CoordinatorState(conns, exit, started, sent, closed, panicked, requeued)
    }

    constructor (serverFd: int)
      ensures Valid() && this.serverFd == serverFd && conns == [] && !exit
      ensures started == [] && sent == [] && closed == [] && panicked == [] && requeued == []
    {
      this.serverFd := serverFd;
      conns, exit := [], false;
      started, sent, closed, panicked, requeued := [], [], [], [], [];
    }

    /** `add`: the fd joins the set, its reader starts, and "joined" is announced. */
    method Add(fd: int)
      requires Valid()
      modifies this
      ensures Valid() && conns == Insert(old(conns), fd)
      ensures started == old(started) + [fd] && requeued == old(requeued) + [Write(fd, Joined(fd))]
      ensures exit == old(exit) && sent == old(sent) && closed == old(closed) && panicked == old(panicked)
    {
      conns := Insert(conns, fd);
      started := started + [fd];
      requeued := requeued + [Write(fd, Joined(fd))];
    }

    /** `write`: the message goes once to every connection, the sender included, in ascending fd order. */
    method Broadcast(message: Message)
      requires Valid()
      modifies this
      ensures Valid() && sent == old(sent) + ToAll(conns, message)
      ensures conns == old(conns) && exit == old(exit) && started == old(started)
      ensures closed == old(closed) && panicked == old(panicked) && requeued == old(requeued)
    {
      var deliveries := SendToAll(conns, message);
      sent := sent + deliveries;
    }

    /** `remove`: the fd leaves the set, is shut down and closed, and "exited" is announced. */
    method Remove(fd: int)
      requires Valid()
      modifies this
      ensures Valid() && conns == Erase(old(conns), fd)
      ensures closed == old(closed) + [fd] && requeued == old(requeued) + [Write(fd, Exited(fd))]
      ensures exit == old(exit) && sent == old(sent) && started == old(started) && panicked == old(panicked)
    {
      conns := Erase(conns, fd);
      closed := closed + [fd];
      requeued := requeued + [Write(fd, Exited(fd))];
    }

    /**
     * `quit`: every connection gets "Server exited.", is shut down, closed
     * and put in panic; then the listening socket is put in panic and the
     * loop ends.  The set itself is left as it is.
     */
    method QuitAll()
      requires Valid()
      modifies this
      ensures Valid() && exit && conns == old(conns)
      ensures sent == old(sent) + ToAll(conns, ServerExited)
      ensures closed == old(closed) + conns
      ensures panicked == old(panicked) + conns + [serverFd]
      ensures started == old(started) && requeued == old(requeued)
    {
      for i := 0 to |conns|
        invariant Valid() && conns == old(conns) && exit == old(exit)
        invariant sent == old(sent) + ToAll(conns[..i], ServerExited)
        invariant closed == old(closed) + conns[..i]
        invariant panicked == old(panicked) + conns[..i]
        invariant started == old(started) && requeued == old(requeued)
      {
        var dest := conns[i];
        sent := sent + [Delivery(dest, ServerExited)];
        closed := closed + [dest];
        panicked := panicked + [dest];
        assert conns[..i + 1] == conns[..i] + [dest];
        assert ToAll(conns[..i + 1], ServerExited) == ToAll(conns[..i], ServerExited) + [Delivery(dest, ServerExited)];
      }
      assert conns[..|conns|] == conns;
      panicked := panicked + [serverFd];
      exit := true;
    }

    /**
     * One pass of the `switch`: the command's effect on every field is the
     * one `Apply` gives, and `exit` is set exactly by `quit`.
     */
    method Handle(command: Command)
      requires Valid() && !exit
      modifies this
      ensures Valid() && State() == Apply(old(State()), serverFd, command)
      ensures exit <==> command.Quit?
    {
      match command
      case Add(fd) => Add(fd);
      case Write(_, message) => Broadcast(message);
      case Remove(fd) => Remove(fd);
      case Quit => QuitAll();
    }

    /**
     * `while (!exit)`: executes the commands in the order the channel
     * delivers them, and stops right after the first `quit`; the state is
     * then the one `Through` gives for the commands executed.
     */
    method Run(commands: seq<Command>) returns (processed: nat)
      requires Valid() && !exit
      modifies this
      ensures Valid() && processed <= |commands|
      ensures State() == Through(old(State()), serverFd, commands[..processed])
      ensures forall fd :: fd in conns <==> Member(old(conns), commands[..processed], fd)
      ensures Quit !in commands[..processed] ==> processed == |commands| && !exit
      ensures Quit in commands[..processed] ==> exit && commands[processed - 1] == Quit
      ensures processed > 0 ==> Quit !in commands[..processed - 1]
    {
      processed := 0;
      while !exit && processed < |commands|
        invariant Valid() && processed <= |commands|
        invariant State() == Through(old(State()), serverFd, commands[..processed])
        invariant exit <==> Quit in commands[..processed]
        invariant exit ==> processed > 0 && commands[processed - 1] == Quit
        invariant processed > 0 ==> Quit !in commands[..processed - 1]
        decreases |commands| - processed
      {
        ThroughStep(old(State()), serverFd, commands, processed);
        Handle(commands[processed]);
        processed := processed + 1;
      }
      ThroughConnections(old(State()), serverFd, commands[..processed]);
    }
  }

  /**
   * Clients 7 and 4 join, 4 speaks, 7 leaves, 4 speaks again: the first
   * message reaches 4 then 7 (ascending order, the sender included), the
   * second only 4.
   */
  method TwoClients(server: int, first: Text, second: Text) returns (deliveries: seq<Delivery>, members: seq<int>, announced: seq<Command>)
    ensures deliveries == [Delivery(4, Says(4, first)), Delivery(7, Says(4, first)), Delivery(4, Says(4, second))]
    ensures members == [4]
    ensures announced == [Write(7, Joined(7)), Write(4, Joined(4)), Write(7, Exited(7))]
  {
    var c := new Coordinator(server);
    c.Add(7);
    c.Add(4);
    c.Broadcast(Says(4, first));
    c.Remove(7);
    c.Broadcast(Says(4, second));
    deliveries, members, announced := c.sent, c.conns, c.requeued;
  }
}

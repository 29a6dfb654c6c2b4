/**
 * `chat_vs_go`: the boson relay benchmarked against the Go one.  Readers
 * forward whole reads; each message goes to ONE connection, drawn at
 * random from the ones seen so far; the main loop stops after a million
 * successful writes, and a reporter prints the writes per second.
 *
 * Reads, accepts, `setsockopt` and `write` results, the random draws and
 * the measured intervals are inputs.  `std::exit` ends the process, which
 * the model records as an exit code.
 */
module ChatVsGo {
  import opened Wrappers
  import opened ChatCommon
  import Chrono
  import GoChat

  // -----------------------------------------------------------------------
  // listen_client
  // -----------------------------------------------------------------------

  /** How a reader ends: `std::exit(code)`, or a plain return. */
  datatype ReaderEnd = Exit(code: int) | Returned

  /** What a reader forwards, and how it ends; it closes its fd in both cases. */
  datatype ReaderRun = ReaderRun(forwarded: seq<Text>, end: ReaderEnd)

  /**
   * A read of at most one byte (end of stream and errors included) ends
   * the process with status 1; a read of exactly "quit" ends the reader;
   * every other read is forwarded whole.
   */
  function Reader(results: seq<Recv>): ReaderRun
    decreases |results|
  {
    if results == [] || NRead(results[0]) <= 1 then ReaderRun([], Exit(1))
    else if results[0].bytes == Quit then ReaderRun([], Returned)
    else
      var rest := Reader(results[1..]);
      ReaderRun([results[0].bytes] + rest.forwarded, rest.end)
  }

  /**
   * The reader forwards its first reads unchanged, none of them "quit",
   * and the first read it does not forward says how it ended: "quit" for
   * a return, a read of at most one byte (or none left) for an exit.
   */
  lemma {:induction false} ReaderShape(results: seq<Recv>)
    ensures |Reader(results).forwarded| <= |results|
    ensures forall k :: 0 <= k < |Reader(results).forwarded| ==>
      NRead(results[k]) > 1 && Reader(results).forwarded[k] == results[k].bytes &&
      Reader(results).forwarded[k] != Quit
    ensures Reader(results).end.Returned? ==>
      |Reader(results).forwarded| < |results| && results[|Reader(results).forwarded|] == Received(Quit)
    ensures Reader(results).end.Exit? ==>
      Reader(results).end.code == 1 &&
      (|Reader(results).forwarded| == |results| || NRead(results[|Reader(results).forwarded|]) <= 1)
    decreases |results|
  {
    if results != [] && NRead(results[0]) > 1 && results[0].bytes != Quit {
      ReaderShape(results[1..]);
      forall k | 1 <= k <= |Reader(results[1..]).forwarded| && k < |results|
        ensures results[k] == results[1..][k - 1]
      {
      }
    }
  }

  /** Nothing is stripped, so a line typed with its "\r\n" is not the quit command. */
  lemma TerminatedQuitIsForwarded()
    ensures Reader([Received("quit\r\n")]).forwarded == ["quit\r\n"]
    ensures Reader([Received("quit")]) == ReaderRun([], Returned)
  {
  }

  /** `listen_client`. */
  method ListenClient(results: seq<Recv>) returns (forwarded: seq<Text>, end: ReaderEnd, closed: bool)
    ensures ReaderRun(forwarded, end) == Reader(results)
    ensures closed
  {
    forwarded := [];
    closed := true;
    var i := 0;
    while i < |results|
      invariant 0 <= i <= |results|
      invariant Reader(results) == ReaderRun(forwarded + Reader(results[i..]).forwarded, Reader(results[i..]).end)
    {
      assert results[i..][0] == results[i] && results[i..][1..] == results[i + 1..];
      var nread := NRead(results[i]);
      if nread <= 1 {
        end := Exit(1);
        return;
      }
      var message := results[i].bytes;
      if message == Quit {
        end := Returned;
        return;
      }
      forwarded := forwarded + [message];
      i := i + 1;
    }
    end := Exit(1);
  }

  // -----------------------------------------------------------------------
  // handleNewConnections
  // -----------------------------------------------------------------------

  /** What `accept` returns, and whether `setsockopt(TCP_NODELAY)` then succeeds. */
  datatype Accepted = Accepted(fd: int, nodelay: bool)

  /** The fds the acceptor forwards, and whether it ended by throwing. */
  datatype AcceptRun = AcceptRun(forwarded: seq<int>, thrown: bool)

  /**
   * Failed accepts are skipped; an accepted fd is forwarded once
   * `TCP_NODELAY` is set on it, and failing to set it throws.
   */
  function Acceptor(accepts: seq<Accepted>): AcceptRun
    decreases |accepts|
  {
    if accepts == [] then AcceptRun([], false)
    else if accepts[0].fd < 0 then Acceptor(accepts[1..])
    else if !accepts[0].nodelay then AcceptRun([], true)
    else
      var rest := Acceptor(accepts[1..]);
      AcceptRun([accepts[0].fd] + rest.forwarded, rest.thrown)
  }

  /** An accepted fd on which `TCP_NODELAY` cannot be set: the acceptor throws there. */
  predicate Refuses(a: Accepted) {
    a.fd >= 0 && !a.nodelay
  }

  /** The position of the first accept that makes the acceptor throw, or the number of accepts if none does. */
  function AcceptorEnd(accepts: seq<Accepted>): (n: nat)
    ensures n <= |accepts|
    ensures forall k :: 0 <= k < n ==> !Refuses(accepts[k])
    ensures n < |accepts| ==> Refuses(accepts[n])
    decreases |accepts|
  {
    if accepts == [] || Refuses(accepts[0]) then 0
    else
      var n := AcceptorEnd(accepts[1..]);
      assert forall k :: 1 <= k < n + 1 ==> accepts[k] == accepts[1..][k - 1];
      n + 1
  }

  /** The fds `accept` returned, in order, leaving out failures. */
  function AcceptedFds(accepts: seq<Accepted>): seq<int>
    decreases |accepts|
  {
    if accepts == [] then []
    else (if accepts[0].fd >= 0 then [accepts[0].fd] else []) + AcceptedFds(accepts[1..])
  }

  /** An fd is among `AcceptedFds` exactly when some `accept` returned it. */
  lemma {:induction false} AcceptedFdsMembers(accepts: seq<Accepted>, fd: int)
    ensures fd in AcceptedFds(accepts) <==> fd >= 0 && exists k :: 0 <= k < |accepts| && accepts[k].fd == fd
    decreases |accepts|
  {
    if accepts != [] {
      AcceptedFdsMembers(accepts[1..], fd);
      if exists k :: 0 <= k < |accepts| && accepts[k].fd == fd {
        var k :| 0 <= k < |accepts| && accepts[k].fd == fd;
        if k > 0 {
          assert accepts[1..][k - 1].fd == fd;
        }
      }
      if exists k :: 0 <= k < |accepts[1..]| && accepts[1..][k].fd == fd {
        var k :| 0 <= k < |accepts[1..]| && accepts[1..][k].fd == fd;
        assert accepts[k + 1].fd == fd;
      }
    }
  }

  /**
   * The acceptor forwards the fds accepted before the first one that
   * refuses `TCP_NODELAY`, in order, and throws exactly when there is one.
   */
  lemma {:induction false} AcceptorFilter(accepts: seq<Accepted>)
    ensures Acceptor(accepts).forwarded == AcceptedFds(accepts[..AcceptorEnd(accepts)])
    ensures Acceptor(accepts).thrown <==> AcceptorEnd(accepts) < |accepts|
    decreases |accepts|
  {
    var n := AcceptorEnd(accepts);
    if accepts == [] || Refuses(accepts[0]) {
      assert accepts[..n] == [];
    } else {
      AcceptorFilter(accepts[1..]);
      assert accepts[..n] == [accepts[0]] + accepts[1..][..n - 1];
      assert AcceptedFds(accepts[..n]) == (if accepts[0].fd >= 0 then [accepts[0].fd] else []) + AcceptedFds(accepts[1..][..n - 1]);
    }
  }

  /**
   * The acceptor throws exactly when some accepted fd refuses
   * `TCP_NODELAY`; it forwards exactly the fds accepted before the first
   * such one, in order of acceptance, each with the option set.
   */
  lemma AcceptorShape(accepts: seq<Accepted>)
    ensures Acceptor(accepts).thrown <==>
      exists k :: 0 <= k < |accepts| && accepts[k].fd >= 0 && !accepts[k].nodelay
    ensures Acceptor(accepts).forwarded == AcceptedFds(accepts[..AcceptorEnd(accepts)])
    ensures forall fd :: fd in Acceptor(accepts).forwarded <==>
      fd >= 0 && exists k :: 0 <= k < AcceptorEnd(accepts) && accepts[k] == Accepted(fd, true)
  {
    var n := AcceptorEnd(accepts);
    AcceptorFilter(accepts);
    if exists k :: 0 <= k < |accepts| && accepts[k].fd >= 0 && !accepts[k].nodelay {
      var k :| 0 <= k < |accepts| && accepts[k].fd >= 0 && !accepts[k].nodelay;
      assert Refuses(accepts[k]);
    }
    forall fd ensures fd in Acceptor(accepts).forwarded <==>
      fd >= 0 && exists k :: 0 <= k < n && accepts[k] == Accepted(fd, true)
    {
      AcceptedFdsMembers(accepts[..n], fd);
      if exists k :: 0 <= k < n && accepts[k] == Accepted(fd, true) {
        var k :| 0 <= k < n && accepts[k] == Accepted(fd, true);
        assert accepts[..n][k].fd == fd;
      }
      if exists k :: 0 <= k < |accepts[..n]| && accepts[..n][k].fd == fd {
        var k :| 0 <= k < |accepts[..n]| && accepts[..n][k].fd == fd;
        assert accepts[k] == accepts[..n][k] && !Refuses(accepts[k]);
      }
    }
  }

  /** `handleNewConnections`, for as many `accept` calls as there are results. */
  method HandleNewConnections(accepts: seq<Accepted>) returns (forwarded: seq<int>, thrown: bool)
    ensures AcceptRun(forwarded, thrown) == Acceptor(accepts)
  {
    forwarded := [];
    for i := 0 to |accepts|
      invariant Acceptor(accepts) == AcceptRun(forwarded + Acceptor(accepts[i..]).forwarded, Acceptor(accepts[i..]).thrown)
    {
      assert accepts[i..][0] == accepts[i] && accepts[i..][1..] == accepts[i + 1..];
      if 0 <= accepts[i].fd {
        if !accepts[i].nodelay {
          thrown := true;
          return;
        }
        forwarded := forwarded + [accepts[i].fd];
      }
    }
    thrown := false;
    assert accepts[|accepts|..] == [];
  }

  // -----------------------------------------------------------------------
  // displayCounter
  // -----------------------------------------------------------------------

  /** The range of `uint64_t`. */
  const U64: nat := 0x1_0000_0000_0000_0000

  /** Nanoseconds to milliseconds, for `duration_cast<milliseconds>`. */
  const NanosToMillis := Chrono.Ratio(1, 1_000_000)

  /** The printed rate: `count * 1000 / step_ms` in `uint64_t` arithmetic. */
  function Rate(count: nat, stepMs: nat): nat
    requires count < U64 && stepMs > 0
  {
    (count * 1000 % U64) / stepMs
  }

  /** The interval before the `i`-th print, in milliseconds: 1000 first, then the measured ones truncated. */
  function StepMsBefore(elapsedNs: seq<nat>, i: nat): int
    requires i <= |elapsedNs|
  {
    if i == 0 then 1000 else Chrono.DurationCast(NanosToMillis, elapsedNs[i - 1])
  }

  /**
   * Below 2^54 writes per interval the product does not wrap, so the rate
   * over one second is the count and over a longer interval at most the count.
   */
  lemma RateBounds(count: nat, stepMs: nat)
    requires count < 0x40_0000_0000_0000 && stepMs >= 1000
    ensures Rate(count, 1000) == count
    ensures Rate(count, stepMs) <= count
  {
    GoChat.ScaleAtMost(count, 1000, stepMs);
    GoChat.DivAtMost(count * 1000, stepMs, count);
  }

  /** 1.5 s measured prints over 1500 ms; an interval under 1 ms truncates to 0. */
  lemma MeasuredSteps()
    ensures StepMsBefore([1_500_000_000], 1) == 1500
    ensures StepMsBefore([999_999], 1) == 0
  {
  }

  /**
   * `displayCounter`, for as many rounds as there are swapped counts.
   * Every measured interval must truncate to at least one millisecond,
   * since the rate divides by it.
   */
  method DisplayCounter(swapped: seq<nat>, elapsedNs: seq<nat>) returns (printed: seq<nat>)
    requires |elapsedNs| == |swapped|
    requires forall k :: 0 <= k < |swapped| ==> swapped[k] < U64
    requires forall k :: 0 <= k < |elapsedNs| ==> Chrono.DurationCast(NanosToMillis, elapsedNs[k]) > 0
    ensures |printed| == |swapped|
    ensures forall i :: 0 <= i < |printed| ==> printed[i] == Rate(swapped[i], StepMsBefore(elapsedNs, i))
  {
    printed := [];
    var stepDuration := 1000;
    for i := 0 to |swapped|
      invariant |printed| == i
      invariant stepDuration == StepMsBefore(elapsedNs, i) && stepDuration > 0
      invariant forall k :: 0 <= k < i ==> printed[k] == Rate(swapped[k], StepMsBefore(elapsedNs, k))
    {
      printed := printed + [(swapped[i] * 1000 % U64) / stepDuration];
      stepDuration := Chrono.DurationCast(NanosToMillis, elapsedNs[i]);
    }
  }

  // -----------------------------------------------------------------------
  // main
  // -----------------------------------------------------------------------

  /** The loop stops once this many writes succeeded. */
  const Target: nat := 1_000_000

  /** One `boson::write`: the fd and the bytes. */
  datatype Write = Write(fd: int, data: Text)

  /**
   * What `select_any` receives: a new connection, or a message read (`ok`)
   * or not from the channel, with the index the random draw gives and what
   * the write returns.
   */
  datatype Event = NewConnection(fd: int) | Message(ok: bool, text: Text, pick: nat, rc: int)

  /**
   * The main loop's state: the connection vector, the readers started, the
   * writes made, the shared counter, `cumulatedCounter`, and the status the
   * process exited with, if it did.
   */
  datatype State = State(
    conns: seq<int>, readers: seq<int>, written: seq<Write>,
    counter: int, cumulated: nat, exitCode: Option<int>)

  /**
   * One pass of `select_any`.  A new connection is appended (repeats are
   * kept) and gets a reader; a received message, with "\n" appended, is
   * written to the one connection the draw picks, and then a failed write
   * ends the process with status 1 while a successful one counts once in
   * both counters.  A draw outside the vector does not happen (`Picks`).
   */
  function Step(s: State, event: Event): (r: State)
    ensures r.conns == s.conns + if event.NewConnection? then [event.fd] else []
    ensures event.Message? && event.ok && event.pick < |s.conns| ==>
      r.written == s.written + [Write(s.conns[event.pick], event.text + "\n")] &&
      (event.rc < 0 ==> r.exitCode == Some(1) && r.counter == s.counter && r.cumulated == s.cumulated) &&
      (event.rc >= 0 ==> r.exitCode == s.exitCode && r.counter == s.counter + 1 && r.cumulated == s.cumulated + 1)
    ensures !(event.Message? && event.ok) ==>
      r.written == s.written && r.counter == s.counter && r.cumulated == s.cumulated && r.exitCode == s.exitCode
  {
    match event
    case NewConnection(fd) => s.(conns := s.conns + [fd], readers := s.readers + [fd])
    case Message(ok, text, pick, rc) =>
      if !ok || pick >= |s.conns| then s
      else
        var message := text + "\n";
        var sent := s.(written := s.written + [Write(s.conns[pick], message)]);
        if rc < 0 then sent.(exitCode := Some(1))
        else sent.(counter := s.counter + 1, cumulated := s.cumulated + 1)
  }

  /** `while (cumulatedCounter < 1e6)`, from `s`, until the process exits or the events run out. */
  function RunFrom(s: State, events: seq<Event>): State
    decreases |events|
  {
    if events == [] || s.cumulated >= Target || s.exitCode != None then s
    else RunFrom(Step(s, events[0]), events[1..])
  }

  /** `std::exit(0)` once the loop has ended. */
  function Finish(s: State): State {
    if s.exitCode == None && s.cumulated >= Target then s.(exitCode := Some(0)) else s
  }

  /**
   * Every draw falls in `[0, conns.size() - 1]`, for `size` connections
   * before the events: a message only comes from the reader of a
   * connection already in the vector.
   */
  predicate Picks(size: nat, events: seq<Event>)
    decreases |events|
  {
    events == [] ||
    ((events[0].Message? && events[0].ok ==> events[0].pick < size) &&
     Picks(size + if events[0].NewConnection? then 1 else 0, events[1..]))
  }

  /**
   * Over any run the two counters grow together, `cumulatedCounter` never
   * passes the target, the vector and the writes only grow, every write
   * goes to a connection in the vector with its message's "\n", and the
   * process exits with status 1 only on a failed write, which is not
   * counted.
   */
  lemma {:induction false} RunFromAccounts(s: State, events: seq<Event>)
    requires s.exitCode == None || (s.exitCode == Some(1) && s.cumulated < Target)
    ensures RunFrom(s, events).counter - s.counter == RunFrom(s, events).cumulated - s.cumulated
    ensures s.cumulated <= Target ==> RunFrom(s, events).cumulated <= Target
    ensures s.conns <= RunFrom(s, events).conns && s.written <= RunFrom(s, events).written
    ensures forall k :: |s.written| <= k < |RunFrom(s, events).written| ==>
      RunFrom(s, events).written[k].fd in RunFrom(s, events).conns &&
      exists e :: e in events && e.Message? && e.ok && RunFrom(s, events).written[k].data == e.text + "\n"
    ensures s.exitCode == None ==>
      RunFrom(s, events).exitCode == None || (RunFrom(s, events).exitCode == Some(1) && RunFrom(s, events).cumulated < Target)
    ensures s.exitCode == None && RunFrom(s, events).exitCode == None ==>
      RunFrom(s, events).cumulated - s.cumulated == |RunFrom(s, events).written| - |s.written|
    ensures s.exitCode == None && RunFrom(s, events).exitCode == Some(1) ==>
      RunFrom(s, events).cumulated - s.cumulated + 1 == |RunFrom(s, events).written| - |s.written|
    decreases |events|
  {
    if !(events == [] || s.cumulated >= Target || s.exitCode != None) {
      var next := Step(s, events[0]);
      RunFromAccounts(next, events[1..]);
      var r := RunFrom(s, events);
      assert r == RunFrom(next, events[1..]);
      forall k | |s.written| <= k < |r.written|
        ensures r.written[k].fd in r.conns
        ensures exists e :: e in events && e.Message? && e.ok && r.written[k].data == e.text + "\n"
      {
        if k < |next.written| {
          assert next.written[k] == Write(s.conns[events[0].pick], events[0].text + "\n");
          assert s.conns[events[0].pick] in r.conns by {
            assert r.conns[events[0].pick] == s.conns[events[0].pick];
          }
          assert events[0] in events;
        } else {
          assert |next.written| <= k < |RunFrom(next, events[1..]).written|;
          assert exists e :: e in events[1..] && e.Message? && e.ok && RunFrom(next, events[1..]).written[k].data == e.text + "\n";
          var e :| e in events[1..] && e.Message? && e.ok && r.written[k].data == e.text + "\n";
          assert e in events;
        }
      }
    }
  }

  /**
   * How the loop ends: with status 0 exactly when a million writes
   * succeeded, with status 1 after a failed write, or not at all when the
   * events run out first.
   */
  lemma RunOutcome(s: State, events: seq<Event>)
    requires s.exitCode == None
    ensures var r := Finish(RunFrom(s, events));
      (r.exitCode == Some(0) <==> r.cumulated >= Target) &&
      (r.exitCode == None || r.exitCode == Some(0) || r.exitCode == Some(1)) &&
      r.counter - s.counter == r.cumulated - s.cumulated
  {
    RunFromAccounts(s, events);
  }

  /** The main loop, over the fields of a `State`. */
  class Relay {
    var conns: seq<int>
    var readers: seq<int>
    var written: seq<Write>
    var counter: int
    var cumulated: nat
    var exitCode: Option<int>

    function Snapshot(): State
      reads this
    {
      State(conns, readers, written, counter, cumulated, exitCode)
    }

    constructor ()
      ensures Snapshot() == State([], [], [], 0, 0, None)
    {
      conns, readers, written, counter, cumulated, exitCode := [], [], [], 0, 0, None;
    }

    /** `conns.push_back(conn)` and `start(listen_client, conn, ...)`. */
    method NewConnection(fd: int)
      modifies this
      ensures Snapshot() == Step(old(Snapshot()), Event.NewConnection(fd))
    {
      conns := conns + [fd];
      readers := readers + [fd];
    }

    /** The handler of a received message. */
    method Forward(text: Text, pick: nat, rc: int)
      requires pick < |conns|
      modifies this
      ensures Snapshot() == Step(old(Snapshot()), Message(true, text, pick, rc))
    {
      var message := text + "\n";
      written := written + [Write(conns[pick], message)];
      if rc < 0 {
        exitCode := Some(1);
        return;
      }
      counter := counter + 1;
      cumulated := cumulated + 1;
    }

    /**
     * The `while (cumulatedCounter < 1e6)` loop and the `std::exit(0)`
     * after it, over the events it receives; `processed` is how many it
     * handled before the process ended or the events ran out.
     */
    method Run(events: seq<Event>) returns (processed: nat)
      requires Picks(|conns|, events)
      modifies this
      ensures processed <= |events|
      ensures Snapshot() == Finish(RunFrom(old(Snapshot()), events))
      ensures processed < |events| ==> exitCode != None
    {
      processed := 0;
      while processed < |events| && cumulated < Target && exitCode == None
        invariant processed <= |events|
        invariant Picks(|conns|, events[processed..])
        invariant RunFrom(Snapshot(), events[processed..]) == RunFrom(old(Snapshot()), events)
      {
        var event := events[processed];
        assert events[processed..][0] == event && events[processed..][1..] == events[processed + 1..];
        match event {
          case NewConnection(fd) =>
            NewConnection(fd);
          case Message(ok, text, pick, rc) =>
            if ok {
              Forward(text, pick, rc);
            }
        }
        processed := processed + 1;
      }
      assert RunFrom(Snapshot(), events[processed..]) == Snapshot();
      if exitCode == None && cumulated >= Target {
        exitCode := Some(0);
      }
    }
  }

  /**
   * Two connections and one message drawn for the second: the message
   * reaches that connection only, and both counters are 1.
   */
  method DrawnRecipient() returns (relay: Relay)
    ensures relay.written == [Write(9, "hi\n")]
    ensures relay.counter == 1 && relay.cumulated == 1 && relay.exitCode == None
  {
    relay := new Relay();
    relay.NewConnection(4);
    relay.NewConnection(9);
    relay.Forward("hi", 1, 3);
    assert "hi" + "\n" == "hi\n";
  }
}

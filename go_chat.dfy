/**
 * The Go version of the broadcast relay (`simplechat/chat.go`), which the
 * C++ relays are measured against: readers publish lines on a channel, an
 * acceptor hands new connections to the main loop, the main loop writes
 * each line to every connection it has ever seen and counts the writes,
 * and a reporter prints the count per second.
 *
 * Connections are named by integers.  A reader's `Read` calls, the
 * acceptor's `Accept` calls, the interval the reporter measures and the
 * order in which `select` receives are inputs.
 */
module GoChat {
  import opened ChatCommon

  // -----------------------------------------------------------------------
  // listenClient
  // -----------------------------------------------------------------------

  /** What `clientConn.Read(buf)` returns: the bytes read and whether `err` is non-nil. */
  datatype Read = Read(bytes: Text, err: bool)

  /**
   * The lines a reader publishes: it stops on an error, on an empty read
   * and on the line "quit"; a line is the read without its last byte.
   */
  function Published(results: seq<Read>): seq<Text>
    decreases |results|
  {
    if results == [] || results[0].err || |results[0].bytes| < 1 then []
    else
      var message := results[0].bytes[..|results[0].bytes| - 1];
      if message == Quit then [] else [message] + Published(results[1..])
  }

  /** The reader publishes the lines of its first reads, in order, each the read without its last byte. */
  lemma {:induction false} PublishedLines(results: seq<Read>)
    ensures |Published(results)| <= |results|
    ensures forall k :: 0 <= k < |Published(results)| ==>
      !results[k].err && |results[k].bytes| >= 1 &&
      Published(results)[k] == results[k].bytes[..|results[k].bytes| - 1] &&
      Published(results)[k] != Quit
    decreases |results|
  {
    if results != [] && !results[0].err && |results[0].bytes| >= 1 &&
       results[0].bytes[..|results[0].bytes| - 1] != Quit {
      PublishedLines(results[1..]);
      forall k | 1 <= k < |Published(results)|
        ensures results[k] == results[1..][k - 1]
      {
      }
    }
  }

  /**
   * The read right after the published lines, if there was one, is where
   * the reader returned: an error, an empty read, or the line "quit".
   */
  lemma {:induction false} PublishedEnd(results: seq<Read>)
    ensures |Published(results)| <= |results|
    ensures var n := |Published(results)|;
      n == |results| || results[n].err || |results[n].bytes| < 1 ||
      results[n].bytes[..|results[n].bytes| - 1] == Quit
    decreases |results|
  {
    if results != [] && !results[0].err && |results[0].bytes| >= 1 &&
       results[0].bytes[..|results[0].bytes| - 1] != Quit {
      PublishedEnd(results[1..]);
      var n := |Published(results[1..])|;
      if n < |results[1..]| {
        assert results[1..][n] == results[n + 1];
      }
    }
  }

  /**
   * A reader publishes the lines of its first reads, in order, each one
   * the read without its last byte, and never the line "quit"; every read
   * before the one where it returned is published, and it returns at the
   * first error, empty read or "quit" line.
   */
  lemma PublishedShape(results: seq<Read>)
    ensures |Published(results)| <= |results|
    ensures forall k :: 0 <= k < |Published(results)| ==>
      !results[k].err && |results[k].bytes| >= 1 &&
      Published(results)[k] == results[k].bytes[..|results[k].bytes| - 1] &&
      Published(results)[k] != Quit
    ensures var n := |Published(results)|;
      n == |results| || results[n].err || |results[n].bytes| < 1 ||
      results[n].bytes[..|results[n].bytes| - 1] == Quit
  {
    PublishedLines(results);
    PublishedEnd(results);
  }

  /** Unlike the C++ relays, the quit test is an exact match: "quit now" is published. */
  lemma QuitIsExact()
    ensures Published([Read("quit\n", false)]) == []
    ensures Published([Read("quit now\n", false)]) == ["quit now"]
  {
    assert "quit\n"[..4] == Quit;
    assert "quit now\n"[..8] == "quit now";
  }

  /** `listenClient`: the lines it publishes, and `defer clientConn.Close()`. */
  method ListenClient(results: seq<Read>) returns (published: seq<Text>, closed: bool)
    ensures published == Published(results)
    ensures closed
  {
    published := [];
    var i := 0;
    while i < |results|
      invariant 0 <= i <= |results|
      invariant published + Published(results[i..]) == Published(results)
    {
      assert results[i..][0] == results[i] && results[i..][1..] == results[i + 1..];
      var nread := |results[i].bytes|;
      if results[i].err || nread < 1 {
        break;
      }
      var message := results[i].bytes[..nread - 1];
      if message == Quit {
        break;
      }
      published := published + [message];
      i := i + 1;
    }
    closed := true;
  }

  // -----------------------------------------------------------------------
  // handleNewConnections
  // -----------------------------------------------------------------------

  /** What `socket.Accept()` returns: a connection, or an error. */
  datatype Accepted = Conn(conn: int) | AcceptError

  /** The connections the acceptor forwards: every accepted one, in order; errors are skipped. */
  function Forwarded(accepts: seq<Accepted>): seq<int>
    decreases |accepts|
  {
    if accepts == [] then []
    else if accepts[0].Conn? then [accepts[0].conn] + Forwarded(accepts[1..])
    else Forwarded(accepts[1..])
  }

  /** A connection is forwarded exactly when `Accept` returned it. */
  lemma {:induction false} ForwardedAreAccepted(accepts: seq<Accepted>)
    ensures |Forwarded(accepts)| <= |accepts|
    ensures forall c :: c in Forwarded(accepts) <==> Conn(c) in accepts
    decreases |accepts|
  {
    if accepts != [] {
      ForwardedAreAccepted(accepts[1..]);
      assert accepts == [accepts[0]] + accepts[1..];
    }
  }

  /** `handleNewConnections`, for as many `Accept` calls as there are results. */
  method HandleNewConnections(accepts: seq<Accepted>) returns (sent: seq<int>)
    ensures sent == Forwarded(accepts)
  {
    sent := [];
    for i := 0 to |accepts|
      invariant sent + Forwarded(accepts[i..]) == Forwarded(accepts)
    {
      assert accepts[i..][0] == accepts[i] && accepts[i..][1..] == accepts[i + 1..];
      if accepts[i].Conn? {
        sent := sent + [accepts[i].conn];
      }
    }
  }

  // -----------------------------------------------------------------------
  // displayCount
  // -----------------------------------------------------------------------

  /** `time.Second.Nanoseconds()`. */
  const Second: nat := 1_000_000_000

  /** The printed rate: the writes counted in an interval, per second. */
  function Rate(count: nat, stepNs: nat): nat
    requires stepNs > 0
  {
    count * Second / stepNs
  }

  /** The interval before the `i`-th print: one second first, then the measured ones. */
  function StepBefore(elapsed: seq<nat>, i: nat): nat
    requires i <= |elapsed|
  {
    if i == 0 then Second else elapsed[i - 1]
  }

  /**
   * The rate over one second is the count itself, and over a longer
   * interval, as the sleep of one second guarantees, it is no more than
   * the count.
   */
  lemma RateBounds(count: nat, stepNs: nat)
    requires stepNs >= Second
    ensures Rate(count, Second) == count
    ensures Rate(count, stepNs) <= count
  {
    ScaleAtMost(count, Second, stepNs);
    DivAtMost(count * Second, stepNs, count);
  }

  lemma ScaleAtMost(a: nat, b: nat, c: nat)
    requires b <= c
    ensures a * b <= a * c
  {
    assert a * c - a * b == a * (c - b);
  }

  /** `x / d` is at most `q` when `x` is at most `q * d`. */
  lemma DivAtMost(x: nat, d: nat, q: nat)
    requires d > 0 && x <= q * d
    ensures x / d <= q
  {
  }

  /**
   * `displayCount`, for as many rounds as there are swapped counts: each
   * round prints the swapped count over the interval measured in the
   * round before.
   */
  method DisplayCount(swapped: seq<nat>, elapsed: seq<nat>) returns (printed: seq<nat>)
    requires |elapsed| == |swapped|
    requires forall k :: 0 <= k < |elapsed| ==> elapsed[k] > 0
    ensures |printed| == |swapped|
    ensures forall i :: 0 <= i < |printed| ==> printed[i] == Rate(swapped[i], StepBefore(elapsed, i))
  {
    printed := [];
    var stepDuration := Second;
    for i := 0 to |swapped|
      invariant |printed| == i
      invariant stepDuration == StepBefore(elapsed, i)
      invariant forall k :: 0 <= k < i ==> printed[k] == Rate(swapped[k], StepBefore(elapsed, k))
    {
      printed := printed + [swapped[i] * Second / stepDuration];
      stepDuration := elapsed[i];
    }
  }

  // -----------------------------------------------------------------------
  // main
  // -----------------------------------------------------------------------

  /** One `conn.Write`: the connection and the bytes. */
  datatype Sent = Sent(conn: int, data: Text)

  /** What the `select` receives: a new connection, or a published line. */
  datatype Event = NewConn(conn: int) | Message(text: Text, order: seq<int>)

  /** The connections in the map after `events`, starting from `initial`. */
  ghost function KeysAfter(initial: set<int>, events: seq<Event>): set<int>
    decreases |events|
  {
    if events == [] then initial
    else
      var last := events[|events| - 1];
      var before := KeysAfter(initial, events[..|events| - 1]);
      if last.NewConn? then before + {last.conn} else before
  }

  /** How much the counter grows over `events`: the map's size at each line. */
  ghost function Fanout(initial: set<int>, events: seq<Event>): nat
    decreases |events|
  {
    if events == [] then 0
    else
      var last := events[|events| - 1];
      var front := events[..|events| - 1];
      Fanout(initial, front) + if last.Message? then |KeysAfter(initial, front)| else 0
  }

  /** Each line's iteration order lists the connections in the map when it arrives. */
  ghost predicate Orders(initial: set<int>, events: seq<Event>) {
    forall i :: 0 <= i < |events| && events[i].Message? ==>
      IsOrder(events[i].order, KeysAfter(initial, events[..i]))
  }

  /** Connections are never removed from the map: it only grows. */
  lemma {:induction false} KeysNeverShrink(initial: set<int>, events: seq<Event>, i: nat)
    requires i <= |events|
    ensures initial <= KeysAfter(initial, events[..i]) <= KeysAfter(initial, events)
    ensures forall e :: e in events && e.NewConn? ==> e.conn in KeysAfter(initial, events)
    decreases |events|
  {
    if events != [] {
      var front := events[..|events| - 1];
      if i == |events| {
        assert events[..i] == events;
        KeysNeverShrink(initial, front, |front|);
        assert front[..|front|] == front;
      } else {
        KeysNeverShrink(initial, front, i);
        assert front[..i] == events[..i];
      }
      assert events == front + [events[|events| - 1]];
    } else {
      assert events[..i] == events;
    }
  }

  /** One write of `data` to each of `order`, in that order. */
  function Fan(order: seq<int>, data: Text): (r: seq<Sent>)
    ensures |r| == |order|
    ensures forall i :: 0 <= i < |r| ==> r[i] == Sent(order[i], data)
  {
    seq(|order|, i requires 0 <= i < |order| => Sent(order[i], data))
  }

  /** No connection appears twice. */
  predicate Distinct(order: seq<int>) {
    forall j, k :: 0 <= j < k < |order| ==> order[j] != order[k]
  }

  /** `order` lists the connections of `keys`, each once: an iteration order of the map. */
  ghost predicate IsOrder(order: seq<int>, keys: set<int>) {
    Distinct(order) && forall c :: c in order <==> c in keys
  }

  /** An iteration order is as long as the map is large. */
  lemma {:induction false} OrderSize(order: seq<int>, keys: set<int>)
    requires IsOrder(order, keys)
    ensures |order| == |keys|
    decreases |order|
  {
    if order != [] {
      var last := order[|order| - 1];
      var front := order[..|order| - 1];
      assert IsOrder(front, keys - {last}) by {
        forall c
          ensures c in front <==> c in keys - {last}
        {
          if c in front {
            var j :| 0 <= j < |front| && front[j] == c;
            assert order[j] == c;
          }
          if c in order && c != last {
            var j :| 0 <= j < |order| && order[j] == c;
            assert j < |order| - 1 && front[j] == c;
          }
        }
      }
      OrderSize(front, keys - {last});
    } else {
      assert forall c :: c !in keys;
    }
  }

  /** The writes the main loop makes for `events`: each line, with "\n" appended, to each connection of its order. */
  function Writes(events: seq<Event>): seq<Sent>
    decreases |events|
  {
    if events == [] then []
    else
      var last := events[|events| - 1];
      Writes(events[..|events| - 1]) + if last.Message? then Fan(last.order, last.text + "\n") else []
  }

  /** The connections `events` bring in, in order of arrival. */
  function NewConns(events: seq<Event>): seq<int>
    decreases |events|
  {
    if events == [] then []
    else
      var last := events[|events| - 1];
      NewConns(events[..|events| - 1]) + if last.NewConn? then [last.conn] else []
  }

  /**
   * The counter counts the writes: there are as many as the map's size at
   * each line; and every write goes to a connection the map holds after
   * the events.
   */
  lemma {:induction false} WritesCounted(initial: set<int>, events: seq<Event>)
    requires Orders(initial, events)
    ensures |Writes(events)| == Fanout(initial, events)
    ensures forall w :: w in Writes(events) ==> w.conn in KeysAfter(initial, events)
    decreases |events|
  {
    if events != [] {
      var front := events[..|events| - 1];
      var last := events[|events| - 1];
      assert Orders(initial, front) by {
        forall i | 0 <= i < |front| && front[i].Message?
          ensures IsOrder(front[i].order, KeysAfter(initial, front[..i]))
        {
          assert front[i] == events[i] && front[..i] == events[..i];
        }
      }
      WritesCounted(initial, front);
      KeysNeverShrink(initial, events, |events| - 1);
      if last.Message? {
        assert events[..|events| - 1] == front;
        OrderSize(last.order, KeysAfter(initial, front));
        forall w | w in Fan(last.order, last.text + "\n")
          ensures w.conn in KeysAfter(initial, events)
        {
          var j :| 0 <= j < |last.order| && Fan(last.order, last.text + "\n")[j] == w;
          assert last.order[j] in last.order;
        }
      }
    }
  }

  /** The main loop's fields as a value, with the map as its set of keys. */
  datatype RelayState = RelayState(keys: set<int>, readers: seq<int>, written: seq<Sent>, counter: int)

  /** What one `select` case does to the main loop's state. */
  function Step(st: RelayState, e: Event): RelayState {
    match e
    case NewConn(conn) => st.(keys := st.keys + {conn}, readers := st.readers + [conn])
    case Message(text, order) => st.(written := st.written + Fan(order, text + "\n"), counter := st.counter + |st.keys|)
  }

  /** The state after the events, in order. */
  function Steps(st: RelayState, events: seq<Event>): RelayState
    decreases |events|
  {
    if events == [] then st else Step(Steps(st, events[..|events| - 1]), events[|events| - 1])
  }

  /**
   * After the events the map holds the connections `KeysAfter` gives, the
   * readers are the new connections in order, the writes are `Writes`, and
   * the counter has grown by `Fanout`.
   */
  lemma {:induction false} StepsTotals(st: RelayState, events: seq<Event>)
    ensures Steps(st, events) == RelayState(KeysAfter(st.keys, events), st.readers + NewConns(events),
      st.written + Writes(events), st.counter + Fanout(st.keys, events))
    decreases |events|
  {
    if events != [] {
      StepsTotals(st, events[..|events| - 1]);
    }
  }

  /** The main loop's state: the connection map, the writes made and the shared counter. */
  class Relay {
    var connections: map<int, bool>
    var readers: seq<int>
    var written: seq<Sent>
    var counter: int

    function State(): RelayState
      reads this
    {
      RelayState(connections.Keys, readers, written, counter)
    }

    constructor ()
      ensures connections == map[] && readers == [] && written == [] && counter == 0
    {
      connections, readers, written, counter := map[], [], [], 0;
    }

    /** `connections[newConn] = true` and `go listenClient(newConn, ...)`. */
    method NewConnection(conn: int)
      modifies this
      ensures connections == old(connections)[conn := true]
      ensures connections.Keys == old(connections.Keys) + {conn}
      ensures readers == old(readers) + [conn]
      ensures written == old(written) && counter == old(counter)
    {
      connections := connections[conn := true];
      readers := readers + [conn];
    }

    /**
     * The line, with "\n" appended, is written once to each connection in
     * the map, in the map's iteration order `order`; the counter grows by
     * one per connection, whatever the write returns.
     */
    method Publish(message: Text, order: seq<int>)
      requires IsOrder(order, connections.Keys)
      modifies this
      ensures connections == old(connections) && readers == old(readers)
      ensures written == old(written) + Fan(order, message + "\n")
      ensures counter == old(counter) + |connections.Keys|
    {
      OrderSize(order, connections.Keys);
      for i := 0 to |order|
        invariant connections == old(connections) && readers == old(readers)
        invariant written == old(written) + Fan(order[..i], message + "\n")
        invariant counter == old(counter) + i
      {
        assert Fan(order[..i + 1], message + "\n") == Fan(order[..i], message + "\n") + [Sent(order[i], message + "\n")];
        written := written + [Sent(order[i], message + "\n")];
        counter := counter + 1;
      }
      assert order[..|order|] == order;
    }

    /**
     * The `for { select { ... } }` loop, over the events it receives: the
     * map holds every connection received, a reader is started for each in
     * order, each line is written to the connections in the map when it
     * arrives, and the counter grows by the number of writes.
     */
    method Run(events: seq<Event>)
      requires Orders(connections.Keys, events)
      modifies this
      ensures connections.Keys == KeysAfter(old(connections.Keys), events)
      ensures readers == old(readers) + NewConns(events)
      ensures written == old(written) + Writes(events)
      ensures counter == old(counter) + Fanout(old(connections.Keys), events)
      ensures counter - old(counter) == |written| - |old(written)|
    {
      ghost var initial := connections.Keys;
      for i := 0 to |events|
        invariant State() == Steps(old(State()), events[..i])
      {
        StepsTotals(old(State()), events[..i]);
        assert events[..i + 1][..i] == events[..i];
        assert events[i] == events[..i + 1][i];
        match events[i]
        case NewConn(conn) => NewConnection(conn);
        case Message(text, order) => Publish(text, order);
      }
      assert events[..|events|] == events;
      StepsTotals(old(State()), events);
      WritesCounted(initial, events);
    }
  }

  /**
   * Two connections and one line, with the map iterated from 5: the line
   * reaches both, once each, and the counter is 2.
   */
  method OneLineTwoConnections() returns (relay: Relay)
    ensures relay.counter == 2
    ensures relay.written == [Sent(5, "hello\n"), Sent(3, "hello\n")]
  {
    relay := new Relay();
    relay.NewConnection(3);
    relay.NewConnection(5);
    assert relay.connections.Keys == {3, 5};
    relay.Publish("hello", [5, 3]);
    assert "hello" + "\n" == "hello\n";
    var fan := Fan([5, 3], "hello\n");
    assert fan == [fan[0], fan[1]];
  }
}

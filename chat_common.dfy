/**
 * What the broadcast relays built on boson share: the kernel results their
 * readers and acceptors see, the texts the C++ relays format, the
 * `std::set<int>` of connections (iterated in ascending order), and the
 * "send to every connection" loop.
 */
module ChatCommon {

  type Text = seq<char>

  /** The command a client types to leave. */
  const Quit: Text := "quit"

  /** `data.substr(0, 4)`: the first four characters, or all of a shorter string. */
  function Prefix4(data: Text): (r: Text)
    ensures |r| <= 4 && r <= data
  {
    if |data| < 4 then data else data[..4]
  }

  /** `data.substr(0, 4) == "quit"`. */
  predicate StartsWithQuit(data: Text) {
    Prefix4(data) == Quit
  }

  /** The test is a prefix match: "quit" followed by anything. */
  lemma StartsWithQuitIsPrefix(data: Text)
    ensures StartsWithQuit(data) <==> Quit <= data
  {
    if Quit <= data {
      assert data[..4] == Quit;
    }
  }

  /** What a read on a socket returns: some bytes, end of stream (0) or an error (-1). */
  datatype Recv = Received(bytes: Text) | Closed | Failed

  /** The `ssize_t` a read returns. */
  function NRead(r: Recv): (n: int)
    ensures n > 0 ==> r.Received? && n == |r.bytes|
    ensures n >= -1
  {
    match r
    case Received(bytes) => |bytes|
    case Closed => 0
    case Failed => -1
  }

  /** What `accept` returns, and whether `errno` is `EAGAIN` when it fails. */
  datatype Accept = Accept(rc: int, eagain: bool)

  /** The texts the C++ relays format with `fmt::format`. */
  datatype Message =
    | Says(client: int, data: Text)  // "Client {} says: {}\n"
    | Joined(client: int)            // "Client {} joined.\n"
    | Exited(client: int)            // "Client {} exited.\n"
    | ServerExited                   // "Server exited.\n"

  /** One `send` of a message to a connection. */
  datatype Delivery = Delivery(dest: int, message: Message)

  // -----------------------------------------------------------------------
  // std::set<int>
  // -----------------------------------------------------------------------

  /** A `std::set<int>`, as the ascending sequence of its members. */
  ghost predicate Increasing(s: seq<int>) {
    forall i, j :: 0 <= i < j < |s| ==> s[i] < s[j]
  }

  /** The first member of an ascending sequence is below all the others, which stay ascending. */
  lemma HeadBelowTail(s: seq<int>)
    requires Increasing(s) && s != []
    ensures Increasing(s[1..])
    ensures forall y :: y in s[1..] ==> s[0] < y
  {
    forall y | y in s[1..] ensures s[0] < y {
      var k :| 0 <= k < |s[1..]| && s[1..][k] == y;
      assert s[k + 1] == y;
    }
  }

  /** A value below every member of an ascending sequence may be put in front of it. */
  lemma ConsIncreasing(a: int, r: seq<int>)
    requires Increasing(r) && forall y :: y in r ==> a < y
    ensures Increasing([a] + r)
  {
    forall i, j | 0 <= i < j < |[a] + r| ensures ([a] + r)[i] < ([a] + r)[j] {
      assert ([a] + r)[j] == r[j - 1] && r[j - 1] in r;
      if i == 0 {
        assert ([a] + r)[i] == a;
      } else {
        assert ([a] + r)[i] == r[i - 1];
      }
    }
  }

  /** `insert`: adds `x` at its place unless it is already there. */
  function Insert(s: seq<int>, x: int): (r: seq<int>)
    requires Increasing(s)
    ensures Increasing(r)
    ensures forall y :: y in r <==> y in s || y == x
    ensures x in s ==> r == s
    decreases |s|
  {
    if s == [] then [x]
    else if x < s[0] then [x] + s
    else if x == s[0] then s
    else
      var rest := Insert(s[1..], x);
      HeadBelowTail(s);
      ConsIncreasing(s[0], rest);
      [s[0]] + rest
  }

  /** `erase`: removes `x` if it is there. */
  function Erase(s: seq<int>, x: int): (r: seq<int>)
    requires Increasing(s)
    ensures Increasing(r)
    ensures forall y :: y in r <==> y in s && y != x
    ensures x !in s ==> r == s
    decreases |s|
  {
    if s == [] then []
    else if s[0] == x then
      HeadBelowTail(s);
      s[1..]
    else
      var rest := Erase(s[1..], x);
      HeadBelowTail(s);
      ConsIncreasing(s[0], rest);
      [s[0]] + rest
  }

  /** One delivery of `message` to each of `conns`, in their order. */
  function ToAll(conns: seq<int>, message: Message): (r: seq<Delivery>)
    ensures |r| == |conns|
    ensures forall i :: 0 <= i < |r| ==> r[i] == Delivery(conns[i], message)
  {
    seq(|conns|, i requires 0 <= i < |conns| => Delivery(conns[i], message))
  }

  /** `for (auto dest : conns) boson::send(dest, ...)`. */
  method SendToAll(conns: seq<int>, message: Message) returns (sent: seq<Delivery>)
    ensures sent == ToAll(conns, message)
  {
    sent := [];
    for i := 0 to |conns|
      invariant sent == ToAll(conns[..i], message)
    {
      sent := sent + [Delivery(conns[i], message)];
    }
    assert conns[..|conns|] == conns;
  }
}

/**
 * `boson::queues::mpsc`: Vyukov's node-based queue.  The nodes form a chain
 * from `tail`, a sentinel whose value is spent, to `head`, the newest node;
 * `write` links a new node after `head`, and `read` takes the value of the
 * node after `tail`, which then becomes the sentinel while the old one is
 * released.  Only the sequential behaviour is modelled: the atomics are plain
 * fields.
 */
module Mpsc {

  /** The objects a sequence holds. */
  ghost function Members<X>(s: seq<X>): set<X> {
    set k | 0 <= k < |s| :: s[k]
  }

  /** Appending one element adds exactly that element to the members. */
  lemma MembersSnoc<X>(s: seq<X>, x: X)
    ensures Members(s + [x]) == Members(s) + {x}
  {
    var t := s + [x];
    forall y | y in Members(s) + {x} ensures y in Members(t) {
      if y == x {
        assert t[|s|] == y;
      } else {
        var k :| 0 <= k < |s| && s[k] == y;
        assert t[k] == y;
      }
    }
  }

  class Node<T> {
    var data: T
    var next: Node?<T>

    constructor (data: T)
      ensures this.data == data && next == null
    {
      this.data := data;
      next := null;
    }
  }

  class Mpsc<T> {
    var head: Node<T>
    var tail: Node<T>

    /** The chain from the sentinel `tail` to `head`. */
    ghost var nodes: seq<Node<T>>
    /** The values written and not yet read, oldest first. */
    ghost var contents: seq<T>
    ghost var Repr: set<Node<T>>

    ghost predicate Valid()
      reads this, Repr
    {
      && |nodes| >= 1 && nodes[0] == tail && nodes[|nodes| - 1] == head
      && Repr == Members(nodes)
      && head in Repr
      && (forall k :: 0 <= k < |nodes| - 1 ==> nodes[k].next == nodes[k + 1])
      && head.next == null
      && tail.next == (if |nodes| > 1 then nodes[1] else null)
      && |contents| == |nodes| - 1
      && (forall k :: 0 <= k < |contents| ==> contents[k] == nodes[k + 1].data)
    }

    /** `mpsc()`: a single zeroed sentinel node, both ends on it. */
    constructor (zero: T)
      ensures Valid() && fresh(Repr)
      ensures contents == [] && head == tail
    {
      var sentinel := new Node(zero);
      head, tail := sentinel, sentinel;
      nodes, contents := [sentinel], [];
      Repr := {sentinel};
    }

    /** Links a fresh node holding `input` after the newest one. */
    method Write(input: T)
      requires Valid()
      modifies this, head
      ensures Valid() && fresh(Repr - old(Repr))
      ensures contents == old(contents) + [input]
      ensures tail == old(tail)
    {
      var node := new Node(input);
      var previous := head;
      head := node;
      previous.next := node;
      MembersSnoc(nodes, node);
      nodes, contents := nodes + [node], contents + [input];
      Repr := Repr + {node};
    }

    /**
     * Takes the value after the sentinel, if any; on an empty queue `output`
     * is returned unchanged.
     */
    method Read(output: T) returns (ok: bool, result: T)
      requires Valid()
      modifies this
      ensures Valid() && Repr <= old(Repr)
      ensures ok <==> old(contents) != []
      ensures ok ==> result == old(contents[0]) && contents == old(contents[1..]) && tail == old(nodes[1])
      ensures !ok ==> result == output && contents == old(contents) && tail == old(tail)
      ensures head == old(head)
    {
      var next := tail.next;
      if next == null {
        return false, output;
      }
      result := next.data;
      tail := next;
      nodes, contents := nodes[1..], contents[1..];
      Repr := Members(nodes);
      ok := true;
    }

    /** `~mpsc()`: reads until the queue is empty, yielding every value still queued. */
    method Drain(zero: T) returns (drained: seq<T>)
      requires Valid()
      modifies this
      ensures Valid() && contents == []
      ensures drained == old(contents)
    {
      drained := [];
      var ok := true;
      var output := zero;
      while ok
        invariant Valid() && Repr <= old(Repr)
        invariant drained + contents == old(contents)
        invariant !ok ==> contents == []
        decreases |contents| + (if ok then 1 else 0)
      {
        ok, output := Read(output);
        if ok {
          drained := drained + [output];
        }
      }
    }
  }

  /**
   * Writing every value of `inputs` into a fresh queue and reading until the
   * queue reports empty gives the values back in writing order.
   */
  method Transfer<T>(inputs: seq<T>, zero: T) returns (outputs: seq<T>)
    ensures outputs == inputs
  {
    var queue := new Mpsc(zero);
    for i := 0 to |inputs|
      invariant queue.Valid() && fresh(queue.Repr)
      invariant queue.contents == inputs[..i]
    {
      queue.Write(inputs[i]);
    }
    assert inputs[..|inputs|] == inputs;
    outputs := queue.Drain(zero);
  }
}

/**
 * `boson::queues::weakrb`: a bounded single-producer single-consumer ring
 * buffer.  `back` counts pushes and `front` counts pops; slot `i % size` of
 * the fixed array holds the i-th value pushed.  Each side keeps a cached copy
 * of the other side's counter (`pfront` for the producer, `cback` for the
 * consumer) and reloads it only when the cached copy says full or empty.
 * Only the sequential behaviour is modelled: the atomics are plain fields.
 */
module WeakRB {

  /** A multiple of `n` is either at most zero or at least `n`. */
  lemma MultipleGap(q: int, n: nat)
    ensures q <= 0 ==> q * n <= 0
    ensures q >= 1 ==> q * n >= n
  {
    if q >= 1 {
      assert q * n == n + (q - 1) * n;
    }
  }

  /** Two counters less than `n` apart fall in different slots of a ring of `n` slots. */
  lemma SlotsApart(a: nat, b: nat, n: nat)
    requires a < b < a + n
    ensures a % n != b % n
  {
    var qa, qb := a / n, b / n;
    assert a == qa * n + a % n && b == qb * n + b % n;
    if a % n == b % n {
      assert b - a == qb * n - qa * n;
      assert qb * n - qa * n == (qb - qa) * n;
      MultipleGap(qb - qa, n);
    }
  }

  /** The ring `slots` holds `contents`, the oldest value in slot `front % |slots|`. */
  ghost predicate Holds<T>(slots: seq<T>, front: nat, contents: seq<T>) {
    && |contents| <= |slots|
    && forall k :: 0 <= k < |contents| ==> contents[k] == slots[(front + k) % |slots|]
  }

  /** Writing the slot after the newest value extends what a ring that is not full holds. */
  lemma RingPush<T>(slots: seq<T>, front: nat, contents: seq<T>, value: T)
    requires |contents| < |slots| && Holds(slots, front, contents)
    ensures Holds(slots[(front + |contents|) % |slots| := value], front, contents + [value])
  {
    var n, b := |slots|, front + |contents|;
    var slots', contents' := slots[b % n := value], contents + [value];
    forall k | 0 <= k < |contents'| ensures contents'[k] == slots'[(front + k) % n] {
      if k < |contents| {
        SlotsApart(front + k, b, n);
        assert contents'[k] == contents[k];
      }
    }
  }

  /** Dropping the oldest value moves the front one slot on. */
  lemma RingPop<T>(slots: seq<T>, front: nat, contents: seq<T>)
    requires contents != [] && Holds(slots, front, contents)
    ensures Holds(slots, front + 1, contents[1..])
  {
    var n := |slots|;
    forall k | 0 <= k < |contents| - 1 ensures contents[1..][k] == slots[(front + 1 + k) % n] {
      assert contents[k + 1] == slots[(front + (k + 1)) % n];
    }
  }

  class WeakRB<T> {
    const size: nat
    const data: array<T>
    var front: nat
    var pfront: nat
    var back: nat
    var cback: nat

    /** The values pushed and not yet popped, oldest first. */
    ghost var contents: seq<T>

    ghost predicate Valid()
      reads this, data
    {
      && data.Length == size
      && pfront <= front <= cback <= back <= pfront + size
      && |contents| == back - front
      && Holds(data[..], front, contents)
    }

    /** `weakrb(capacity)`: `capacity` value-initialised slots, all counters at zero. */
    constructor (capacity: nat, zero: T)
      ensures Valid() && fresh(data)
      ensures size == capacity && contents == []
      ensures front == pfront == back == cback == 0
    {
      size := capacity;
      data := new T[capacity](_ => zero);
      front, pfront, back, cback := 0, 0, 0, 0;
      contents := [];
    }

    /**
     * Stores `value` in slot `back % size` unless the buffer is full, that is
     * unless `size` values are waiting; the cached front is reloaded only
     * when it alone says full.
     */
    method Push(value: T) returns (ok: bool)
      requires Valid()
      modifies this, data
      ensures Valid()
      ensures ok <==> old(|contents|) < size
      ensures ok ==> contents == old(contents) + [value] && back == old(back) + 1
      ensures ok ==> data[..] == old(data[..])[old(back) % size := value]
      ensures !ok ==> contents == old(contents) && back == old(back) && data[..] == old(data[..])
      ensures front == old(front) && cback == old(cback)
      ensures pfront == (if old(pfront) + size - old(back) < 1 then old(front) else old(pfront))
    {
      var b := back;
      if pfront + size - b < 1 {
        pfront := front;
        if pfront + size - b < 1 {
          return false;
        }
      }
      RingPush(data[..], front, contents, value);
      data[b % size] := value;
      back := b + 1;
      contents := contents + [value];
      ok := true;
    }

    /**
     * Takes the oldest value from slot `front % size` unless the buffer is
     * empty, in which case `element` is returned unchanged; the cached back
     * is reloaded only when it alone says empty.
     */
    method Pop(element: T) returns (ok: bool, result: T)
      requires Valid()
      modifies this
      ensures Valid()
      ensures ok <==> old(contents) != []
      ensures ok ==> result == old(contents[0]) && contents == old(contents[1..]) && front == old(front) + 1
      ensures !ok ==> result == element && contents == old(contents) && front == old(front)
      ensures back == old(back) && pfront == old(pfront)
      ensures cback == (if old(cback) - old(front) < 1 then old(back) else old(cback))
    {
      var f := front;
      if cback - f < 1 {
        cback := back;
        if cback - f < 1 {
          return false, element;
        }
      }
      assert contents[0] == data[(f + 0) % size];
      RingPop(data[..], f, contents);
      result := data[f % size];
      front := f + 1;
      contents := contents[1..];
      ok := true;
    }
  }

  /**
   * One producer and one consumer taking turns: every value pushed into a
   * ring of at least one slot is popped back, so the values come out in the
   * order they went in.
   */
  method Relay<T>(capacity: nat, sample: seq<T>, zero: T) returns (destination: seq<T>)
    requires capacity >= 1
    ensures destination == sample
  {
    var queue := new WeakRB<T>(capacity, zero);
    destination := [];
    for i := 0 to |sample|
      invariant queue.Valid() && queue.contents == [] && queue.size == capacity
      invariant destination == sample[..i]
    {
      var pushed := queue.Push(sample[i]);
      var popped, value := queue.Pop(zero);
      destination := destination + [value];
    }
  }
}

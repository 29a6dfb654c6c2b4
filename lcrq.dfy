/**
 * The word-level helpers of `boson::queues::lcrq`, the lock-free queue of
 * ring buffers: bit 63 of a cell index marks the cell unsafe, bit 63 of a
 * ring's tail marks the ring closed, and an all-ones value marks an empty
 * cell.  `init_ring` prepares a ring in that encoding.  The lock-free
 * enqueue and dequeue and the hazard pointers are not part of this model.
 */
module Lcrq {

  /** `RING_SIZE`, the number of cells of a ring. */
  const RingSize: nat := 4096

  /** `1ull << 63`. */
  const TopBit: bv64 := 0x8000_0000_0000_0000

  /** `(uint64_t)-1`, the value of a cell that holds nothing. */
  const EmptyValue: bv64 := 0xffff_ffff_ffff_ffff

  /** `HZDPTR_THRESHOLD`: retired pointers a thread keeps before scanning. */
  function HzdptrThreshold(nprocs: int): (r: int)
    ensures nprocs >= 0 ==> r >= nprocs
  {
    2 * nprocs
  }

  /** `HZDPTR_HTBL_SIZE`: the hash table used during a scan. */
  function HzdptrHtblSize(nprocs: int, nptrs: int): (r: int)
    ensures nprocs >= 0 && nptrs >= 1 ==> r >= HzdptrThreshold(nprocs)
  {
    4 * nprocs * nptrs
  }

  /** `is_empty`. */
  predicate IsEmpty(v: bv64) {
    v == EmptyValue
  }

  /** `node_index`: the index without its unsafe mark. */
  function NodeIndex(i: bv64): (r: bv64)
    ensures r < TopBit
  {
    i & !TopBit
  }

  /** `set_unsafe`: marks the index unsafe. */
  function SetUnsafe(i: bv64): (r: bv64)
    ensures r >= TopBit
  {
    i | TopBit
  }

  /** `node_unsafe`: the unsafe mark alone. */
  function NodeUnsafe(i: bv64): (r: bv64)
    ensures r == 0 || r == TopBit
  {
    i & TopBit
  }

  /** `tail_index`: the tail counter without its closed mark. */
  function TailIndex(t: bv64): (r: bv64)
    ensures r < TopBit
  {
    t & !TopBit
  }

  /** `crq_is_closed`. */
  predicate CrqIsClosed(t: bv64) {
    t & TopBit != 0
  }

  /** Marking an index unsafe keeps the index. */
  lemma IndexSurvivesUnsafe(i: bv64)
    ensures NodeIndex(SetUnsafe(i)) == NodeIndex(i)
  {
  }

  /** A marked index reads as unsafe. */
  lemma SetUnsafeIsUnsafe(i: bv64)
    ensures NodeUnsafe(SetUnsafe(i)) == TopBit
  {
  }

  /** An index reads as unsafe exactly when bit 63 is set. */
  lemma UnsafeIsTopBit(i: bv64)
    ensures NodeUnsafe(i) != 0 <==> i >= TopBit
  {
  }

  /** A plain index is never unsafe. */
  lemma IndexIsSafe(i: bv64)
    ensures NodeUnsafe(NodeIndex(i)) == 0
  {
  }

  /** The mark and the index together give back the word. */
  lemma IndexAndMark(i: bv64)
    ensures NodeIndex(i) | NodeUnsafe(i) == i
  {
  }

  /** An index below 2^63 is its own `node_index`. */
  lemma SmallIndexUnchanged(i: bv64)
    requires i < TopBit
    ensures NodeIndex(i) == i
  {
  }

  /** A ring is closed exactly when bit 63 of its tail is set. */
  lemma ClosedIsTopBit(t: bv64)
    ensures CrqIsClosed(t) <==> t >= TopBit
  {
  }

  /** Closing a ring (setting bit 63 of its tail) keeps the tail index. */
  lemma ClosingKeepsTail(t: bv64)
    ensures CrqIsClosed(t | TopBit) && TailIndex(t | TopBit) == TailIndex(t)
  {
  }

  /** The empty value is marked unsafe and closed: its bit 63 is set. */
  lemma EmptyIsMarked()
    ensures IsEmpty(EmptyValue) && NodeUnsafe(EmptyValue) == TopBit && CrqIsClosed(EmptyValue)
    ensures NodeIndex(EmptyValue) == 0x7fff_ffff_ffff_ffff
  {
  }

  /** `RingNode`: a value and the index of the round that may use the cell. */
  datatype RingNode = RingNode(val: bv64, idx: nat)

  /** `RingQueue`: one ring of the queue. */
  class RingQueue {
    var head: int
    var tail: int
    var next: RingQueue?
    const cells: array<RingNode>

    /** A freshly obtained ring, before `init_ring`: `garbage` in every cell. */
    constructor (garbage: RingNode)
      ensures cells.Length == RingSize && fresh(cells)
    {
      cells := new RingNode[RingSize](_ => garbage);
    }

    /** Every cell is empty and carries its own index as its round. */
    ghost predicate Initialised()
      reads this, cells
    {
      && cells.Length == RingSize
      && (forall i :: 0 <= i < cells.Length ==> cells[i] == RingNode(EmptyValue, i))
      && head == 0 && tail == 0 && next == null
    }

    /** `init_ring`. */
    method InitRing()
      requires cells.Length == RingSize
      modifies this, cells
      ensures Initialised()
    {
      var i := 0;
      while i < RingSize
        invariant 0 <= i <= RingSize
        invariant forall k :: 0 <= k < i ==> cells[k] == RingNode(EmptyValue, k)
      {
        cells[i] := RingNode(EmptyValue, i);
        i := i + 1;
      }
      head, tail := 0, 0;
      next := null;
    }
  }

  /**
   * After `init_ring` every cell reads as empty, with a safe index, and the
   * ring is open with tail index 0.
   */
  method FreshRing(garbage: RingNode, k: nat) returns (empty: bool, closed: bool, round: nat)
    requires k < RingSize
    ensures empty && !closed && round == k
  {
    var r := new RingQueue(garbage);
    r.InitRing();
    empty := IsEmpty(r.cells[k].val);
    closed := CrqIsClosed(r.tail as bv64);
    round := r.cells[k].idx;
  }
}

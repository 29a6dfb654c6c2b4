/**
 * `boson::queues::vectorized_queue`: a FIFO whose elements live in the cells
 * of a vector and are linked both ways, so that any element can be removed in
 * constant time through the cell index `write` returned.  Released cells are
 * chained through their `next` field and reused last-in first-out.
 *
 * `empty` (the largest `std::size_t`) is represented by -1.
 */
module VectorizedQueue {
  import opened Seqs

  const EmptyIndex: int := -1

  /**
   * A cell.  A free cell that went through `free` has `previous` equal to its
   * own index; an occupied cell links to its neighbours in the queue.
   */
  datatype Cell<T> = Cell(value: T, previous: int, next: int)

  /** The neighbour before position k of a chain, or `EmptyIndex`. */
  function PrevOf(chain: seq<nat>, k: nat): int
    requires k < |chain|
  {
    if k == 0 then EmptyIndex else chain[k - 1]
  }

  /** The neighbour after position k of a chain, or `EmptyIndex`. */
  function NextOf(chain: seq<nat>, k: nat): int
    requires k < |chain|
  {
    if k + 1 == |chain| then EmptyIndex else chain[k + 1]
  }

  /**
   * Every cell is either in the queue or on the free chain: the two chains
   * hold distinct indices of the vector, share none, and together number as
   * many as there are cells.
   */
  ghost predicate Layout(size: nat, order: seq<nat>, freeList: seq<nat>) {
    && (forall k :: 0 <= k < |order| ==> order[k] < size && order[k] !in freeList)
    && (forall k :: 0 <= k < |freeList| ==> freeList[k] < size)
    && Unique(order) && Unique(freeList)
    && |order| + |freeList| == size
  }

  /** The queue's cells are linked both ways in queue order. */
  ghost predicate Links<T>(cells: seq<Cell<T>>, order: seq<nat>)
    requires forall k :: 0 <= k < |order| ==> order[k] < |cells|
  {
    forall k {:trigger cells[order[k]]} :: 0 <= k < |order| ==>
      cells[order[k]].previous == PrevOf(order, k) && cells[order[k]].next == NextOf(order, k)
  }

  /** The free cells are chained forwards through `next`. */
  ghost predicate FreeLinks<T>(cells: seq<Cell<T>>, freeList: seq<nat>)
    requires forall k :: 0 <= k < |freeList| ==> freeList[k] < |cells|
  {
    forall k {:trigger cells[freeList[k]]} :: 0 <= k < |freeList| ==> cells[freeList[k]].next == NextOf(freeList, k)
  }

  function First(chain: seq<nat>): int {
    if chain == [] then EmptyIndex else chain[0]
  }

  function Last(chain: seq<nat>): int {
    if chain == [] then EmptyIndex else chain[|chain| - 1]
  }

  /** Positions i and j of a chain name the same cell. */
  predicate SameCell(chain: seq<nat>, i: nat, j: nat)
    requires i < |chain| && j < |chain|
  {
    chain[i] == chain[j]
  }

  /**
   * No cell appears twice in a chain.  The pairs are only looked at where a
   * proof names them (through `SameCell`, or the `Apart` lemma), which keeps
   * the invariant cheap to carry around.
   */
  ghost predicate Unique(chain: seq<nat>) {
    forall i, j {:trigger SameCell(chain, i, j)} :: 0 <= i < j < |chain| ==> !SameCell(chain, i, j)
  }

  lemma Apart(chain: seq<nat>, i: nat, j: nat)
    requires Unique(chain) && i < |chain| && j < |chain| && i != j
    ensures chain[i] != chain[j]
  {
    if i < j { assert !SameCell(chain, i, j); } else { assert !SameCell(chain, j, i); }
  }

  /** The position of x in a chain that holds it. */
  ghost function IndexOf(s: seq<nat>, x: nat): (k: nat)
    requires x in s
    ensures k < |s| && s[k] == x
  {
    var k :| 0 <= k < |s| && s[k] == x; k
  }

  /** The whole representation invariant, over plain values. */
  ghost predicate Inv<T>(cells: seq<Cell<T>>, order: seq<nat>, freeList: seq<nat>, contents: seq<T>,
                         head: int, tail: int, firstFree: int)
  {
    && Layout(|cells|, order, freeList)
    && Links(cells, order)
    && FreeLinks(cells, freeList)
    && head == First(order) && tail == Last(order)
    && firstFree == First(freeList)
    && |contents| == |order|
    && (forall k {:trigger contents[k]} :: 0 <= k < |order| ==> contents[k] == cells[order[k]].value)
  }

  /** The chain 0, 1, ..., n - 1 holds no cell twice. */
  lemma RangeUnique(n: nat)
    ensures Unique(Range(n))
  {
    var r := Range(n);
    forall i, j | 0 <= i < j < n
      ensures !SameCell(r, i, j)
    {
      assert r[i] == i && r[j] == j;
    }
  }

  /** Growing the vector by one cell whose `next` is `empty` gives a one-cell free chain. */
  lemma AppendFreeCell<T>(cells: seq<Cell<T>>, order: seq<nat>, contents: seq<T>,
                          head: int, tail: int, cell: Cell<T>)
    requires Inv(cells, order, [], contents, head, tail, EmptyIndex)
    requires cell.next == EmptyIndex
    ensures Inv(cells + [cell], order, [|cells|], contents, head, tail, |cells|)
  {
    var after := cells + [cell];
    forall k | 0 <= k < |order|
      ensures after[order[k]] == cells[order[k]]
    {
    }
    assert Links(after, order);
  }

  /** Appending the head of the free chain to the queue, and popping it, keep the layout. */
  lemma TakeFreeHead(size: nat, order: seq<nat>, freeList: seq<nat>)
    requires Layout(size, order, freeList) && freeList != []
    ensures Layout(size, order + [freeList[0]], freeList[1..])
  {
    var index := freeList[0];
    var order' := order + [index];
    var free' := freeList[1..];
    assert index !in order;
    forall i, j | 0 <= i < j < |order'|
      ensures !SameCell(order', i, j)
    {
      if j < |order| { assert !SameCell(order, i, j); }
    }
    forall i, j | 0 <= i < j < |free'|
      ensures !SameCell(free', i, j)
    {
      assert !SameCell(freeList, i + 1, j + 1);
    }
    forall k | 0 <= k < |order'|
      ensures order'[k] !in free'
    {
      if k < |order| {
        assert order[k] !in freeList;
      } else if index in free' {
        var j :| 0 <= j < |free'| && free'[j] == index;
        Apart(freeList, 0, j + 1);
      }
    }
  }

  /**
   * Taking the head of the free chain as the new tail: the cell gets the value
   * and `previous == tail`, and the old tail's `next` points to it.
   */
  lemma LinkTail<T>(before: seq<Cell<T>>, after: seq<Cell<T>>, order: seq<nat>, freeList: seq<nat>,
                    contents: seq<T>, head: int, tail: int, value: T)
    requires Inv(before, order, freeList, contents, head, tail, First(freeList))
    requires freeList != []
    requires |after| == |before|
    requires after[freeList[0]] == Cell(value, tail, EmptyIndex)
    requires tail != EmptyIndex ==> after[tail] == before[tail].(next := freeList[0])
    requires forall i :: 0 <= i < |before| && i != freeList[0] && i != tail ==> after[i] == before[i]
    ensures Inv(after, order + [freeList[0]], freeList[1..], contents + [value],
                if head == EmptyIndex then freeList[0] else head, freeList[0], before[freeList[0]].next)
  {
    var index := freeList[0];
    var order' := order + [index];
    var free' := freeList[1..];
    TakeFreeHead(|before|, order, freeList);
    assert index !in order;
    forall k | 0 <= k < |order'|
      ensures after[order'[k]].previous == PrevOf(order', k)
      ensures after[order'[k]].next == NextOf(order', k)
    {
      if k == |order| {
      } else if k + 1 == |order| {
        assert order[k] == tail;
      } else {
        Apart(order, k, |order| - 1);
      }
    }
    assert Links(after, order');
    forall k | 0 <= k < |free'|
      ensures after[free'[k]].next == NextOf(free', k)
    {
      assert free'[k] == freeList[k + 1];
      Apart(freeList, 0, k + 1);
      assert free'[k] != tail by { assert tail != EmptyIndex ==> tail == order[|order| - 1]; }
    }
    assert FreeLinks(after, free');
    forall k | 0 <= k < |order'|
      ensures (contents + [value])[k] == after[order'[k]].value
    {
    }
  }

  /**
   * What `free` does to the cells when it unlinks the cell at position p of the
   * queue: the neighbours are joined to each other, the cell is marked free
   * and points to the old head of the free chain, and nothing else changes.
   */
  ghost predicate UnlinkFrame<T>(before: seq<Cell<T>>, after: seq<Cell<T>>, order: seq<nat>,
                                 freeList: seq<nat>, p: nat)
    requires p < |order|
  {
    && |after| == |before| && order[p] < |before|
    && after[order[p]] == Cell(before[order[p]].value, order[p], First(freeList))
    && (PrevOf(order, p) != EmptyIndex ==>
          0 <= PrevOf(order, p) < |before| &&
          after[PrevOf(order, p)] == before[PrevOf(order, p)].(next := NextOf(order, p)))
    && (NextOf(order, p) != EmptyIndex ==>
          0 <= NextOf(order, p) < |before| &&
          after[NextOf(order, p)] == before[NextOf(order, p)].(previous := PrevOf(order, p)))
    && (forall i :: 0 <= i < |before| && i != order[p] && i != PrevOf(order, p) && i != NextOf(order, p) ==>
          after[i] == before[i])
  }

  /** Moving position p of the queue to the front of the free chain keeps the layout. */
  lemma UnlinkLayout(size: nat, order: seq<nat>, freeList: seq<nat>, p: nat)
    requires Layout(size, order, freeList) && p < |order|
    ensures Layout(size, RemoveAt(order, p), [order[p]] + freeList)
  {
    var index := order[p];
    var order' := RemoveAt(order, p);
    var free' := [index] + freeList;
    forall k | 0 <= k < |order'|
      ensures order'[k] < size && order'[k] !in free'
    {
      var k0 := if k < p then k else k + 1;
      assert order'[k] == order[k0];
      Apart(order, k0, p);
      assert order[k0] !in freeList;
    }
    forall i, j | 0 <= i < j < |order'|
      ensures !SameCell(order', i, j)
    {
      var i0 := if i < p then i else i + 1;
      var j0 := if j < p then j else j + 1;
      Apart(order, i0, j0);
    }
    forall i, j | 0 <= i < j < |free'|
      ensures !SameCell(free', i, j)
    {
      if i == 0 {
        assert order[p] !in freeList;
      } else {
        assert !SameCell(freeList, i - 1, j - 1);
      }
    }
  }

  /** After unlinking, the remaining queue cells are linked both ways in order. */
  lemma UnlinkLinks<T>(before: seq<Cell<T>>, after: seq<Cell<T>>, order: seq<nat>, freeList: seq<nat>, p: nat)
    requires p < |order| && Unique(order)
    requires forall k :: 0 <= k < |order| ==> order[k] < |before|
    requires Links(before, order) && UnlinkFrame(before, after, order, freeList, p)
    ensures forall k :: 0 <= k < |RemoveAt(order, p)| ==> RemoveAt(order, p)[k] < |after|
    ensures Links(after, RemoveAt(order, p))
  {
    var index, prev, next := order[p], PrevOf(order, p), NextOf(order, p);
    var order' := RemoveAt(order, p);
    forall k | 0 <= k < |order'|
      ensures order'[k] < |after| && after[order'[k]].previous == PrevOf(order', k)
      ensures after[order'[k]].next == NextOf(order', k)
    {
      var k0 := if k < p then k else k + 1;
      assert order'[k] == order[k0];
      Apart(order, k0, p);
      if k0 + 1 == p {
        assert order[k0] == prev;
        if p + 1 < |order| { Apart(order, k0, p + 1); }
      } else if k0 == p + 1 {
        assert order[k0] == next;
        if p > 0 { Apart(order, k0, p - 1); }
      } else {
        if p > 0 { Apart(order, k0, p - 1); }
        if p + 1 < |order| { Apart(order, k0, p + 1); }
      }
    }
  }

  /** After unlinking, the free chain starts at the unlinked cell and goes on as before. */
  lemma UnlinkFreeLinks<T>(before: seq<Cell<T>>, after: seq<Cell<T>>, order: seq<nat>, freeList: seq<nat>, p: nat)
    requires p < |order| && Layout(|before|, order, freeList)
    requires FreeLinks(before, freeList) && UnlinkFrame(before, after, order, freeList, p)
    ensures FreeLinks(after, [order[p]] + freeList)
  {
    var free' := [order[p]] + freeList;
    forall k | 0 <= k < |free'|
      ensures after[free'[k]].next == NextOf(free', k)
    {
      if k > 0 {
        assert free'[k] == freeList[k - 1];
        assert order[p] !in freeList;
        if p > 0 { assert order[p - 1] !in freeList; }
        if p + 1 < |order| { assert order[p + 1] !in freeList; }
      }
    }
  }

  /** After unlinking, the queued values are the old ones without position p. */
  lemma UnlinkContents<T>(before: seq<Cell<T>>, after: seq<Cell<T>>, order: seq<nat>, freeList: seq<nat>,
                          contents: seq<T>, p: nat)
    requires p < |order| && |contents| == |order| && Unique(order)
    requires forall k :: 0 <= k < |order| ==> order[k] < |before|
    requires forall k {:trigger contents[k]} :: 0 <= k < |order| ==> contents[k] == before[order[k]].value
    requires UnlinkFrame(before, after, order, freeList, p)
    ensures forall k {:trigger RemoveAt(contents, p)[k]} :: 0 <= k < |order| - 1 ==>
      RemoveAt(contents, p)[k] == after[RemoveAt(order, p)[k]].value
  {
    var order' := RemoveAt(order, p);
    forall k | 0 <= k < |order'|
      ensures RemoveAt(contents, p)[k] == after[order'[k]].value
    {
      var k0 := if k < p then k else k + 1;
      assert order'[k] == order[k0] && RemoveAt(contents, p)[k] == contents[k0];
      Apart(order, k0, p);
    }
  }

  /** After unlinking, head and tail are the first and last remaining queue cells. */
  lemma UnlinkEnds(order: seq<nat>, p: nat)
    requires p < |order|
    ensures (if p == 0 then NextOf(order, p) else First(order)) == First(RemoveAt(order, p))
    ensures (if p == |order| - 1 then PrevOf(order, p) else Last(order)) == Last(RemoveAt(order, p))
  {
    var order' := RemoveAt(order, p);
    if order' != [] {
      if p == 0 { assert order'[0] == order[1]; }
      if p == |order| - 1 { assert Last(order') == order[p - 1]; }
      else { assert Last(order') == order[|order| - 1]; }
    }
  }

  /** Unlinking position p keeps the whole invariant, with p gone from queue and contents. */
  lemma Unlink<T>(before: seq<Cell<T>>, after: seq<Cell<T>>, order: seq<nat>, freeList: seq<nat>,
                  contents: seq<T>, p: nat, head: int, tail: int)
    requires Inv(before, order, freeList, contents, First(order), Last(order), First(freeList))
    requires p < |order| && UnlinkFrame(before, after, order, freeList, p)
    requires head == if p == 0 then NextOf(order, p) else First(order)
    requires tail == if p == |order| - 1 then PrevOf(order, p) else Last(order)
    ensures Inv(after, RemoveAt(order, p), [order[p]] + freeList, RemoveAt(contents, p), head, tail, order[p])
  {
    UnlinkLayout(|before|, order, freeList, p);
    UnlinkLinks(before, after, order, freeList, p);
    UnlinkFreeLinks(before, after, order, freeList, p);
    UnlinkContents(before, after, order, freeList, contents, p);
    UnlinkEnds(order, p);
  }

  /** Taking out position p of a chain without repetitions removes exactly that entry. */
  lemma RemoveAtMembers(s: seq<nat>, p: nat)
    requires p < |s| && Unique(s)
    ensures forall x :: x in RemoveAt(s, p) <==> x in s && x != s[p]
  {
    var r := RemoveAt(s, p);
    forall x | x in s && x != s[p]
      ensures x in r
    {
      var k :| 0 <= k < |s| && s[k] == x;
      if k < p { assert r[k] == x; } else { assert r[k - 1] == x; }
    }
    forall x | x in r
      ensures x in s && x != s[p]
    {
      var k :| 0 <= k < |r| && r[k] == x;
      var k0 := if k < p then k else k + 1;
      Apart(s, k0, p);
    }
  }

  /**
   * The neighbours of position p of the queue are joined to each other, and
   * no other cell changes.
   */
  ghost predicate Joined<T>(before: seq<Cell<T>>, after: seq<Cell<T>>, order: seq<nat>, p: nat)
    requires p < |order|
  {
    && |after| == |before| && order[p] < |before| && after[order[p]] == before[order[p]]
    && (PrevOf(order, p) != EmptyIndex ==>
          0 <= PrevOf(order, p) < |before| &&
          after[PrevOf(order, p)] == before[PrevOf(order, p)].(next := NextOf(order, p)))
    && (NextOf(order, p) != EmptyIndex ==>
          0 <= NextOf(order, p) < |before| &&
          after[NextOf(order, p)] == before[NextOf(order, p)].(previous := PrevOf(order, p)))
    && (forall i :: 0 <= i < |before| && i != order[p] && i != PrevOf(order, p) && i != NextOf(order, p) ==>
          after[i] == before[i])
  }

  /** Marking the unhooked cell free on top of the free chain completes what `free` does to the cells. */
  lemma MarkFree<T>(before: seq<Cell<T>>, mid: seq<Cell<T>>, order: seq<nat>, freeList: seq<nat>, p: nat)
    requires p < |order| && Unique(order) && Joined(before, mid, order, p)
    ensures UnlinkFrame(before, mid[order[p] := Cell(before[order[p]].value, order[p], First(freeList))],
                        order, freeList, p)
  {
    if p > 0 { Apart(order, p - 1, p); }
    if p + 1 < |order| { Apart(order, p + 1, p); }
  }

  /**
   * The unlinking step of `free`: takes the occupied cell `index` out of the
   * doubly linked queue, whether it is the head, the tail or in the middle,
   * by joining its neighbours, and moves `head` or `tail` past it.  The cell
   * itself is left as it was.
   */
  method Unhook<T>(cells: seq<Cell<T>>, head: int, tail: int, index: nat, ghost order: seq<nat>, ghost p: nat)
    returns (cells': seq<Cell<T>>, head': int, tail': int)
    requires p < |order| && order[p] == index && Unique(order)
    requires forall k :: 0 <= k < |order| ==> order[k] < |cells|
    requires Links(cells, order) && head == First(order) && tail == Last(order)
    ensures Joined(cells, cells', order, p)
    ensures head' == if p == 0 then NextOf(order, p) else head
    ensures tail' == if p == |order| - 1 then PrevOf(order, p) else tail
  {
    cells', head', tail' := cells, head, tail;
    var node := cells[index];
    assert node.previous == PrevOf(order, p) && node.next == NextOf(order, p);
    if p != 0 { Apart(order, 0, p); }
    if p != |order| - 1 { Apart(order, |order| - 1, p); }
    if p > 0 && p + 1 < |order| { Apart(order, p - 1, p + 1); }
    if index == head {
      head' := node.next;
      if head' != EmptyIndex {
        cells' := cells'[head' := cells'[head'].(previous := EmptyIndex)];
      }
      if index == tail {
        tail' := EmptyIndex;
      }
    } else if index == tail {
      tail' := node.previous;
      if tail' != EmptyIndex {
        cells' := cells'[tail' := cells'[tail'].(next := EmptyIndex)];
      }
    } else {
      cells' := cells'[node.previous := cells'[node.previous].(next := node.next)];
      cells' := cells'[node.next := cells'[node.next].(previous := node.previous)];
    }
  }

  class VectorizedQueue<T> {
    var data: seq<Cell<T>>
    var firstFreeCell: int
    var head: int
    var tail: int

    /** The occupied cells from head to tail. */
    ghost var order: seq<nat>
    /** The free cells, in the order `write` reuses them. */
    ghost var freeList: seq<nat>
    /** The queued values, oldest first. */
    ghost var contents: seq<T>

    ghost predicate Valid()
      reads this
    {
      Inv(data, order, freeList, contents, head, tail, firstFreeCell)
    }

    /** `vectorized_queue()`: no cell, empty queue. */
    constructor Empty()
      ensures Valid() && data == [] && contents == []
    {
      data := [];
      firstFreeCell, head, tail := EmptyIndex, EmptyIndex, EmptyIndex;
      order, freeList, contents := [], [], [];
    }

    /**
     * `vectorized_queue(initial_size)` as written: the loop creates the cells
     * 0 .. initial_size - 2 chained in order, and the last of them gets both
     * links set to `empty`.  It thus holds one cell fewer than asked for, and
     * with `initial_size == 1` it would touch the last element of an empty
     * vector, which callers must avoid.
     */
    constructor (initialSize: nat, filler: T)
      requires initialSize != 1
      ensures Valid() && contents == []
      ensures initialSize == 0 ==> data == [] && freeList == []
      ensures initialSize >= 2 ==> |data| == initialSize - 1 && freeList == Range(initialSize - 1)
      ensures initialSize >= 2 ==> data[initialSize - 2].previous == EmptyIndex
    {
      order, contents := [], [];
      head, tail := EmptyIndex, EmptyIndex;
      if initialSize == 0 {
        data := [];
        firstFreeCell := EmptyIndex;
        freeList := [];
      } else {
        var cells: seq<Cell<T>> := [];
        for index := 0 to initialSize - 1
          invariant |cells| == index
          invariant forall k :: 0 <= k < index ==> cells[k] == Cell(filler, k, k + 1)
        {
          cells := cells + [Cell(filler, index, index + 1)];
        }
        var chain := Range(initialSize - 1);
        RangeUnique(initialSize - 1);
        data := cells[|cells| - 1 := Cell(filler, EmptyIndex, EmptyIndex)];
        firstFreeCell := 0;
        freeList := chain;
      }
    }

    /**
     * The constructor with the evidently intended loop bound: `initial_size`
     * cells, all marked free, chained 0 -> 1 -> ... -> initial_size - 1.
     */
    constructor Sized(initialSize: nat, filler: T)
      ensures Valid() && contents == []
      ensures |data| == initialSize && freeList == Range(initialSize)
      ensures forall i :: 0 <= i < initialSize ==> data[i].previous == i
    {
      order, contents := [], [];
      head, tail := EmptyIndex, EmptyIndex;
      var cells: seq<Cell<T>> := [];
      for index := 0 to initialSize
        invariant |cells| == index
        invariant forall k :: 0 <= k < index ==> cells[k] == Cell(filler, k, k + 1)
      {
        cells := cells + [Cell(filler, index, index + 1)];
      }
      if initialSize == 0 {
        data := [];
        firstFreeCell := EmptyIndex;
      } else {
        data := cells[initialSize - 1 := Cell(filler, initialSize - 1, EmptyIndex)];
        firstFreeCell := 0;
      }
      var chain := Range(initialSize);
      RangeUnique(initialSize);
      freeList := chain;
    }

    /**
     * Appends `value`: it takes the first free cell if there is one, else a
     * new cell at the end, and returns that cell's index.  The cell becomes the
     * tail, and also the head when the queue was empty.
     */
    method Write(value: T) returns (index: nat)
      requires Valid()
      modifies this
      ensures Valid()
      ensures old(freeList) == [] ==>
        index == old(|data|) && |data| == old(|data|) + 1 && freeList == []
      ensures old(freeList) != [] ==>
        index == old(freeList[0]) && |data| == old(|data|) && freeList == old(freeList[1..])
      ensures order == old(order) + [index] && contents == old(contents) + [value]
      ensures tail == index && head == (if old(order) == [] then index else old(head))
    {
      var cells, first := data, firstFreeCell;
      ghost var free := freeList;
      if first == EmptyIndex {
        AppendFreeCell(cells, order, contents, head, tail, Cell(value, |cells|, EmptyIndex));
        cells := cells + [Cell(value, |cells|, EmptyIndex)];
        first, free := |cells| - 1, [|cells| - 1];
      }
      index := first;
      ghost var before := cells;
      var nextFree := cells[index].next;
      cells := cells[index := Cell(value, tail, EmptyIndex)];
      if tail != EmptyIndex {
        cells := cells[tail := cells[tail].(next := index)];
      }
      LinkTail(before, cells, order, free, contents, head, tail, value);
      data, firstFreeCell, tail := cells, nextFree, index;
      if head == EmptyIndex {
        head := index;
      }
      order, freeList, contents := order + [index], free[1..], contents + [value];
    }

    /**
     * Unlinks the occupied cell `index` from the head, the tail or the middle
     * of the queue, keeping the others in order, and makes it the head of the
     * free chain, marked free.
     */
    method Free(index: nat)
      requires Valid() && index in order
      modifies this
      ensures Valid()
      ensures order == RemoveAt(old(order), IndexOf(old(order), index))
      ensures contents == RemoveAt(old(contents), IndexOf(old(order), index))
      ensures forall x :: x in order <==> x in old(order) && x != index
      ensures freeList == [index] + old(freeList)
      ensures |data| == old(|data|) && data[index].previous == index
    {
      ghost var p := IndexOf(order, index);
      var cells, h, t := Unhook(data, head, tail, index, order, p);
      MarkFree(data, cells, order, freeList, p);
      var node := cells[index];
      cells := cells[index := Cell(node.value, index, firstFreeCell)];
      Unlink(data, cells, order, freeList, contents, p, h, t);
      RemoveAtMembers(order, p);
      assert |cells| == |data| && cells[index].previous == index;
      data, head, tail, firstFreeCell := cells, h, t, index;
      order, contents, freeList := RemoveAt(order, p), RemoveAt(contents, p), [index] + freeList;
    }

    /**
     * Reads the head: with an empty queue it answers false and leaves both
     * the queue and `value` unchanged; otherwise it yields the oldest value
     * and frees its cell.
     */
    method Read(value: T) returns (ok: bool, result: T)
      requires Valid()
      modifies this
      ensures Valid()
      ensures ok <==> old(contents) != []
      ensures !ok ==> (result == value && data == old(data) && order == old(order) &&
                       freeList == old(freeList) && contents == old(contents))
      ensures ok ==> (result == old(contents[0]) && contents == old(contents[1..]) &&
                      freeList == [old(head)] + old(freeList))
    {
      if head == EmptyIndex {
        return false, value;
      }
      result := data[head].value;
      Free(head);
      ok := true;
    }
  }

  /**
   * The cell the k-th of a run of writes hands out, starting from the free
   * chain `free` in a vector of `size` cells: first the free cells in chain
   * order, then new cells appended at the end.
   */
  function Handout(free: seq<nat>, size: nat, k: nat): nat {
    if k < |free| then free[k] else size + k - |free|
  }

  /** From a fresh chain 0, ..., m - 1 in a vector of m cells, writes hand out 0, 1, 2, ... */
  lemma HandoutsOfRange(m: nat, indices: seq<nat>)
    requires m <= |indices|
    requires forall k :: 0 <= k < |indices| ==> indices[k] == Handout(Range(m), m, k)
    ensures indices == Range(|indices|)
  {
    forall k | 0 <= k < |indices| ensures indices[k] == Range(|indices|)[k] {
      if k < m { assert Range(m)[k] == k; }
    }
  }

  /** As many writes as there are free cells hand out exactly the free chain. */
  lemma HandoutsOfChain(free: seq<nat>, size: nat, indices: seq<nat>)
    requires |indices| == |free|
    requires forall k :: 0 <= k < |indices| ==> indices[k] == Handout(free, size, k)
    ensures indices == free
  {
  }

  /** `count` writes in a row hand out the cells `Handout` describes, and append them to the queue. */
  method WriteMany<T>(q: VectorizedQueue<T>, count: nat, value: T) returns (indices: seq<nat>)
    requires q.Valid()
    modifies q
    ensures q.Valid()
    ensures |indices| == count
    ensures forall k :: 0 <= k < count ==> indices[k] == Handout(old(q.freeList), old(|q.data|), k)
    ensures q.order == old(q.order) + indices
    ensures count >= |old(q.freeList)| ==> q.freeList == []
  {
    ghost var free0, size0, order0 := q.freeList, |q.data|, q.order;
    indices := [];
    while |indices| < count
      invariant q.Valid() && |indices| <= count
      invariant forall k :: 0 <= k < |indices| ==> indices[k] == Handout(free0, size0, k)
      invariant q.order == order0 + indices
      invariant |indices| <= |free0| ==> q.freeList == free0[|indices|..] && |q.data| == size0
      invariant |indices| >= |free0| ==> q.freeList == [] && |q.data| == size0 + |indices| - |free0|
    {
      var i := q.Write(value);
      indices := indices + [i];
    }
  }

  /** Freeing queued cells one after the other stacks them on the free chain in reverse. */
  method FreeMany<T>(q: VectorizedQueue<T>, cells: seq<nat>)
    requires q.Valid() && Distinct(cells)
    requires forall j :: 0 <= j < |cells| ==> cells[j] in q.order
    modifies q
    ensures q.Valid()
    ensures q.freeList == Reverse(cells) + old(q.freeList)
  {
    ghost var free0 := q.freeList;
    for i := 0 to |cells|
      invariant q.Valid()
      invariant q.freeList == Reverse(cells[..i]) + free0
      invariant forall j :: i <= j < |cells| ==> cells[j] in q.order
    {
      q.Free(cells[i]);
      ReverseSnoc(cells[..i], cells[i]);
      assert cells[..i + 1] == cells[..i] + [cells[i]];
    }
    assert cells[..|cells|] == cells;
  }

  /**
   * The allocation scenario: a queue built for n - 1 cells hands out 0, 1, ...,
   * n - 1 to n writes; after the cells are freed in the order `perm`, n more
   * writes hand them out again in the reverse of `perm`.
   */
  method ReuseOrder<T>(n: nat, perm: seq<nat>, filler: T) returns (first: seq<nat>, second: seq<nat>)
    requires n >= 3
    requires |perm| == n && Distinct(perm) && forall k :: 0 <= k < n ==> perm[k] < n
    ensures first == Range(n)
    ensures second == Reverse(perm)
  {
    var q := new VectorizedQueue(n - 1, filler);
    first := WriteMany(q, n, filler);
    HandoutsOfRange(n - 2, first);
    RangeHolds(perm, n);
    FreeMany(q, perm);
    second := WriteMany(q, n, filler);
    HandoutsOfChain(Reverse(perm), n, second);
  }
}

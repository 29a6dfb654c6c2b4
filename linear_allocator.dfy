/**
 * `boson::memory::linear_allocator`: a pool of same-typed cells allocated one
 * at a time in constant time, with released cells chained through
 * `free_cells_` (see module FreeChain) and reused last-in first-out.
 *
 * `allocate` returns a pointer into `data_`; the model returns the index of
 * that cell, which is also what `free` takes.
 */
module LinearAllocator {
  import opened Seqs
  import opened FreeChain

  class LinearAllocator<T> {
    /** `ValueType{}`, the value a cell holds when the pool grows. */
    const zero: T
    /** The `InitialSize` template argument. */
    const initialSize: nat

    var data: seq<T>
    var freeCells: seq<int>
    var firstFreeCell: int

    /** The free cells, in the order `allocate` hands them out. */
    ghost var freeList: seq<nat>

    ghost predicate Valid()
      reads this
    {
      |data| == |freeCells| && Chain(freeCells, firstFreeCell, freeList)
    }

    ghost predicate IsAllocated(index: int)
      reads this
    {
      0 <= index < |data| && index !in freeList
    }

    /**
     * `InitialSize` value-initialised cells, all free, chained
     * 0 -> 1 -> ... -> InitialSize - 1 -> -1 with the head at 0.
     */
    constructor (initialSize: nat, zero: T)
      ensures Valid() && this.zero == zero && this.initialSize == initialSize
      ensures data == seq(initialSize, _ => zero)
      ensures freeList == Range(initialSize)
      ensures initialSize > 0 ==> firstFreeCell == 0
    {
      this.zero := zero;
      this.initialSize := initialSize;
      data := seq(initialSize, _ => zero);
      if initialSize == 0 {
        freeCells := [];
        firstFreeCell := NoCell;
        freeList := [];
      } else {
        var cells: seq<int> := [];
        for index := 0 to initialSize - 1
          invariant cells == seq(index, k => k + 1)
        {
          cells := cells + [index + 1];
        }
        freeCells := cells + [NoCell];
        firstFreeCell := 0;
        freeList := Range(initialSize);
        Initial(initialSize);
      }
    }

    /**
     * With an empty chain the pool grows by one cell, which is returned;
     * otherwise the head of the chain is taken and storage does not grow.
     */
    method Allocate() returns (index: nat)
      requires Valid()
      modifies this
      ensures Valid()
      ensures old(freeList) == [] ==>
        index == old(|data|) && data == old(data) + [zero] && freeList == []
      ensures old(freeList) != [] ==>
        index == old(freeList[0]) && data == old(data) && freeList == old(freeList[1..])
      ensures IsAllocated(index) && freeCells[index] == NoCell
    {
      if firstFreeCell == NoCell {
        GrowAllocated(freeCells, firstFreeCell, freeList);
        data := data + [zero];
        freeCells := freeCells + [NoCell];
        index := |data| - 1;
      } else {
        PopHead(freeCells, firstFreeCell, freeList);
        index := firstFreeCell;
        firstFreeCell := freeCells[index];
        freeCells := freeCells[index := NoCell];
        freeList := freeList[1..];
      }
    }

    /** Releases an allocated cell, which becomes the head of the chain. */
    method Free(index: nat)
      requires Valid() && IsAllocated(index)
      modifies this
      ensures Valid()
      ensures data == old(data)
      ensures freeList == [index] + old(freeList) && firstFreeCell == index
    {
      PushHead(freeCells, firstFreeCell, freeList, index);
      freeCells := freeCells[index := firstFreeCell];
      firstFreeCell := index;
      freeList := [index] + freeList;
    }
  }
}

/**
 * `boson::memory::sparse_vector`: a vector whose indices stay valid while cells
 * are released and reused.  Released cells are chained through `free_cells_`
 * (see module FreeChain) and handed out again last-in first-out.
 */
module SparseVector {
  import opened Seqs
  import opened FreeChain

  class SparseVector<T> {
    /** `ValueType{}`, the value a cell holds when the vector grows. */
    const zero: T

    var data: seq<T>
    var freeCells: seq<int>
    var firstFreeCell: int
    /** Debug-build bookkeeping used by `has`: the cell at the end of the chain, or -1. */
    var lastFreeCell: int

    /** The free cells, in the order `allocate` hands them out. */
    ghost var freeList: seq<nat>

    ghost predicate Valid()
      reads this
    {
      && |data| == |freeCells|
      && Chain(freeCells, firstFreeCell, freeList)
      && lastFreeCell == (if freeList == [] then NoCell else freeList[|freeList| - 1])
    }

    /** A cell is allocated when it is in range and not on the free chain. */
    ghost predicate IsAllocated(index: int)
      reads this
    {
      0 <= index < |data| && index !in freeList
    }

    /** `sparse_vector()`: no cell, empty chain. */
    constructor Empty(zero: T)
      ensures Valid() && this.zero == zero
      ensures data == [] && freeList == []
    {
      this.zero := zero;
      data, freeCells := [], [];
      firstFreeCell, lastFreeCell := NoCell, NoCell;
      freeList := [];
    }

    /**
     * `sparse_vector(initial_size)`: `initial_size` value-initialised cells, all
     * free, chained in ascending order.  The chain's last cell is recorded in
     * `lastFreeCell` (see the finding on `HasAsWritten`).
     */
    constructor (initialSize: nat, zero: T)
      ensures Valid() && this.zero == zero
      ensures data == seq(initialSize, _ => zero)
      ensures freeList == Range(initialSize)
    {
      this.zero := zero;
      data := seq(initialSize, _ => zero);
      if initialSize == 0 {
        freeCells := [];
        firstFreeCell, lastFreeCell := NoCell, NoCell;
        freeList := [];
      } else {
        var cells: seq<int> := [];
        var index := 0;
        while index < initialSize - 1
          invariant 0 <= index <= initialSize - 1
          invariant cells == seq(index, k => k + 1)
        {
          cells := cells + [index + 1];
          index := index + 1;
        }
        freeCells := cells + [NoCell];
        firstFreeCell := 0;
        lastFreeCell := initialSize - 1;
        freeList := Range(initialSize);
        Initial(initialSize);
      }
    }

    /**
     * Debug check behind `operator[]`: in range, not the recorded chain end,
     * and holding the -1 entry of an allocated cell.
     */
    function Has(index: nat): (r: bool)
      requires Valid()
      reads this
      ensures r <==> IsAllocated(index)
    {
      if index < |data| then
        EntryIsEnd(freeCells, firstFreeCell, freeList, index);
        lastFreeCell != index && freeCells[index] == NoCell
      else
        false
    }

    /** `operator[]` for reading. */
    function Get(index: nat): T
      requires Valid() && IsAllocated(index)
      reads this
    {
      data[index]
    }

    /** `operator[]` for writing: only that cell changes. */
    method Put(index: nat, value: T)
      requires Valid() && IsAllocated(index)
      modifies this
      ensures Valid()
      ensures data == old(data)[index := value]
      ensures freeList == old(freeList)
    {
      data := data[index := value];
    }

    /**
     * Hands out the head of the chain, or appends one cell when the chain is
     * empty; in both cases the returned cell is allocated afterwards.
     */
    method Allocate() returns (index: nat)
      requires Valid()
      modifies this
      ensures Valid()
      ensures old(freeList) == [] ==>
        index == old(|data|) && data == old(data) + [zero] && freeList == []
      ensures old(freeList) != [] ==>
        index == old(freeList[0]) && data == old(data) && freeList == old(freeList[1..])
      ensures IsAllocated(index)
    {
      if firstFreeCell == NoCell {
        GrowAllocated(freeCells, firstFreeCell, freeList);
        data := data + [zero];
        freeCells := freeCells + [NoCell];
        index := |data| - 1;
      } else {
        PopHead(freeCells, firstFreeCell, freeList);
        index := firstFreeCell;
        if index == lastFreeCell {
          lastFreeCell := NoCell;
        }
        firstFreeCell := freeCells[index];
        freeCells := freeCells[index := NoCell];
        freeList := freeList[1..];
      }
    }

    /**
     * Releases an allocated cell: it becomes the head of the chain, so the next
     * `Allocate` returns it.  The source does not check that the cell is
     * allocated; freeing it twice would corrupt the chain, hence the requires.
     */
    method Free(index: nat)
      requires Valid() && IsAllocated(index)
      modifies this
      ensures Valid()
      ensures data == old(data)
      ensures freeList == [index] + old(freeList)
    {
      PushHead(freeCells, firstFreeCell, freeList, index);
      if lastFreeCell == NoCell {
        lastFreeCell := index;
      }
      freeCells := freeCells[index := firstFreeCell];
      firstFreeCell := index;
      freeList := [index] + freeList;
    }
  }

  /**
   * The debug check as written, on the state the source's constructor leaves:
   * it compares against a `last_free_cell_` that the constructor sets to -1.
   */
  function HasAsWritten(size: nat, freeCells: seq<int>, lastFreeCell: int, index: nat): bool
    requires |freeCells| == size
  {
    index < size && lastFreeCell != index && freeCells[index] == NoCell
  }

  /**
   * After `sparse_vector(1)` as written (chain [0], entry -1, `last_free_cell_`
   * left at -1) the free cell 0 passes the check.
   */
  lemma HasAsWrittenAcceptsFreeCell()
    ensures Chain([NoCell], 0, [0])
    ensures HasAsWritten(1, [NoCell], NoCell, 0)
  {
    assert [0][0] == 0;
  }

  /**
   * Scenario of a fresh vector of `n` cells: `n` allocations return 0, 1, ...,
   * n - 1 in order, and the next one appends cell `n`.
   */
  method AllocateAfterConstruction<T>(n: nat, zero: T) returns (order: seq<nat>, next: nat)
    ensures order == Range(n)
    ensures next == n
  {
    var v := new SparseVector(n, zero);
    order := [];
    while |order| < n
      invariant v.Valid() && |v.data| == n
      invariant |order| <= n
      invariant order == Range(|order|)
      invariant v.freeList == Range(n)[|order|..]
    {
      var i := v.Allocate();
      order := order + [i];
    }
    next := v.Allocate();
  }
}

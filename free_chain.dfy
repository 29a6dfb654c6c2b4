/**
 * The chain of free cells shared by `sparse_vector` and `linear_allocator`.
 *
 * Both keep a vector `free_cells_` parallel to their data and an index
 * `first_free_cell_`.  The free cells form a singly linked chain through
 * `free_cells_`, starting at `first_free_cell_` and ending with -1; every cell
 * that is not on the chain (an allocated cell) holds -1 as well.
 *
 * The chain is described here by the ghost sequence of the indices it visits.
 */
module FreeChain {
  import opened Seqs

  /** The end-of-chain marker, also stored in the entry of an allocated cell. */
  const NoCell: int := -1

  /**
   * `cells` and `first` encode the chain `list`: `first` is its head (or -1),
   * each visited entry links to the next one, the last one holds -1, the chain
   * visits each in-range cell at most once, and every other cell holds -1.
   */
  ghost predicate Chain(cells: seq<int>, first: int, list: seq<nat>) {
    && first == (if list == [] then NoCell else list[0])
    && (forall k :: 0 <= k < |list| ==> list[k] < |cells|)
    && (forall k :: 0 <= k < |list| - 1 ==> cells[list[k]] == list[k + 1])
    && (list != [] ==> cells[list[|list| - 1]] == NoCell)
    && Distinct(list)
    && (forall i :: 0 <= i < |cells| && i !in list ==> cells[i] == NoCell)
  }

  /** An entry is -1 exactly for the cells off the chain and for the chain's last cell. */
  lemma EntryIsEnd(cells: seq<int>, first: int, list: seq<nat>, i: nat)
    requires Chain(cells, first, list) && i < |cells|
    ensures cells[i] == NoCell <==> (i !in list || i == list[|list| - 1])
  {
    if i in list && i != list[|list| - 1] {
      var k :| 0 <= k < |list| && list[k] == i;
      assert cells[list[k]] == list[k + 1];
    }
  }

  /** Taking the head off the chain: the entry of the head is reset to -1. */
  lemma PopHead(cells: seq<int>, first: int, list: seq<nat>)
    requires Chain(cells, first, list) && list != []
    ensures 0 <= first < |cells|
    ensures Chain(cells[first := NoCell], cells[first], list[1..])
  {
    var cells' := cells[first := NoCell];
    var list' := list[1..];
    forall k | 0 <= k < |list'| - 1
      ensures cells'[list'[k]] == list'[k + 1]
    {
      assert list'[k] == list[k + 1] != list[0];
    }
    if list' != [] {
      assert list'[|list'| - 1] == list[|list| - 1] != list[0];
    }
  }

  /** Putting an off-chain cell at the head of the chain. */
  lemma PushHead(cells: seq<int>, first: int, list: seq<nat>, i: nat)
    requires Chain(cells, first, list) && i < |cells| && i !in list
    ensures Chain(cells[i := first], i, [i] + list)
  {
    var cells' := cells[i := first];
    var list' := [i] + list;
    forall k | 0 <= k < |list'| - 1
      ensures cells'[list'[k]] == list'[k + 1]
    {
      if k > 0 {
        assert list'[k] == list[k - 1] != i;
      }
    }
    if list != [] {
      assert list'[|list'| - 1] == list[|list| - 1] != i;
    }
  }

  /** Appending an allocated cell at the end of the vectors leaves the chain intact. */
  lemma GrowAllocated(cells: seq<int>, first: int, list: seq<nat>)
    requires Chain(cells, first, list)
    ensures Chain(cells + [NoCell], first, list)
  {
    var cells' := cells + [NoCell];
    assert forall k :: 0 <= k < |cells| ==> cells'[k] == cells[k];
  }

  /** The chain 0 -> 1 -> ... -> n - 1 -> -1 built by both constructors. */
  lemma {:induction false} Initial(n: nat)
    requires n > 0
    ensures Chain(seq(n - 1, k => k + 1) + [NoCell], 0, Range(n))
  {
    var cells := seq(n - 1, k => k + 1) + [NoCell];
    var list := Range(n);
    assert forall k :: 0 <= k < n - 1 ==> cells[list[k]] == list[k + 1];
    assert cells[list[n - 1]] == NoCell;
    assert forall i :: 0 <= i < n ==> i in list by {
      forall i | 0 <= i < n ensures i in list { assert list[i] == i; }
    }
  }
}

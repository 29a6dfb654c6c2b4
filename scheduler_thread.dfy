/**
 * `boson::internal::thread`, the per-thread scheduler: the bookkeeping around
 * routines that wait.  A waiting routine occupies a slot of `suspended_slots_`
 * (a `sparse_vector`); an fd registration hands the event loop a 64-bit word
 * packing the thread id (high half) with the slot index (low half); a timer
 * registration files the slot under its date; at the end of each round the
 * leading timer sets that no longer have an active routine are released, and
 * the thread decides whether to run another round, go idle or finish.
 *
 * The event loop's stored data, the count of pending engine commands and the
 * routines themselves are inputs; a routine slot is modelled by the routine it
 * names and its event index.
 */
module SchedulerThread {
  import opened Wrappers
  import opened Seqs
  import opened SparseVector

  /** `0xffffffff00000000`, the thread id half of a registration word. */
  const HighMask: bv64 := 0xffff_ffff_0000_0000
  /** `0x00000000ffffffff`, the slot index half of a registration word. */
  const LowMask: bv64 := 0x0000_0000_ffff_ffff

  /** The registration word `(thread_id << 32) | index`, computed on 64 bits. */
  function Pack(threadId: bv64, index: bv64): bv64 {
    (threadId << 32) | index
  }

  /** The thread id half of a registration word. */
  function ThreadOf(data: bv64): bv64 {
    (HighMask & data) >> 32
  }

  /** The slot index half of a registration word. */
  function SlotOf(data: bv64): bv64 {
    LowMask & data
  }

  /** Both halves come back out of a word packed from values that each fit in 32 bits. */
  lemma UnpackPack(threadId: bv64, index: bv64)
    requires threadId <= LowMask && index <= LowMask
    ensures ThreadOf(Pack(threadId, index)) == threadId
    ensures SlotOf(Pack(threadId, index)) == index
  {
  }

  /** Both halves of a word fit in 32 bits. */
  lemma HalvesFit(data: bv64)
    ensures ThreadOf(data) <= LowMask && SlotOf(data) <= LowMask
  {
  }

  /** Every word is the packing of its two halves. */
  lemma PackUnpack(data: bv64)
    ensures Pack(ThreadOf(data), SlotOf(data)) == data
  {
  }

  /**
   * A slot index of 2^32 or more spills into the thread id half. For an
   * even thread id the word read back names another thread, so the
   * registration is never reused; for an odd id it names slot 0 of this
   * same thread, which the next registration then wrongly reuses.
   */
  lemma WideIndexSpills(threadId: bv64)
    requires threadId <= LowMask
    ensures ThreadOf(Pack(threadId, 0x1_0000_0000)) == threadId | 1
    ensures threadId & 1 == 0 ==> Reusable(threadId, Some(Pack(threadId, 0x1_0000_0000))) == None
    ensures threadId & 1 == 1 ==> Reusable(threadId, Some(Pack(threadId, 0x1_0000_0000))) == Some(0)
  {
  }

  /** `size_t` arithmetic: a slot index as the 64-bit word the source ORs in. */
  function Word(index: nat): bv64 {
    (index % 0x1_0000_0000_0000_0000) as bv64
  }

  /**
   * The registration test of `register_read` and `register_write`: the
   * slot named by the word the event loop holds, when there is one and it
   * names thread `id`.
   */
  function Reusable(id: bv64, existing: Option<bv64>): (r: Option<nat>)
    ensures r.Some? <==> existing.Some? && ThreadOf(existing.value) == id
    ensures r.Some? ==> r.value == SlotOf(existing.value) as nat
  {
    if existing.Some? && id == ThreadOf(existing.value) then Some(SlotOf(existing.value) as nat) else None
  }

  /** `routine_slot`: the waiting routine (by id) and the index of the event it waits on. */
  datatype Slot = Slot(routine: nat, eventIndex: nat)

  /** `timed_routines_set`: the slots filed under one date and how many of them still wait. */
  datatype TimedSet = TimedSet(nbActive: nat, slots: seq<nat>)

  /** One entry of `timed_routines_`, a map ordered by date. */
  datatype Timer = Timer(date: int, entry: TimedSet)

  datatype ThreadStatus = Idle | Busy | Finishing | Finished

  /** The entries of an ordered map, in iteration order. */
  ghost predicate SortedDates(timers: seq<Timer>) {
    forall i, j :: 0 <= i < j < |timers| ==> timers[i].date < timers[j].date
  }

  /** Every slot filed under some date, counted with repetition. */
  ghost function Filed(timers: seq<Timer>): multiset<nat>
    decreases |timers|
  {
    if timers == [] then multiset{} else multiset(timers[0].entry.slots) + Filed(timers[1..])
  }

  lemma {:induction false} FiledAppend(a: seq<Timer>, b: seq<Timer>)
    ensures Filed(a + b) == Filed(a) + Filed(b)
    decreases |a|
  {
    if a == [] {
      assert a + b == b;
    } else {
      assert (a + b)[0] == a[0] && (a + b)[1..] == a[1..] + b;
      FiledAppend(a[1..], b);
    }
  }

  /**
   * `std::map::lower_bound`: the first position whose date is not before
   * `date`, or the number of entries.
   */
  function LowerBound(timers: seq<Timer>, date: int): (p: nat)
    requires SortedDates(timers)
    ensures p <= |timers|
    ensures forall i :: 0 <= i < p ==> timers[i].date < date
    ensures forall i :: p <= i < |timers| ==> date <= timers[i].date
  {
    if timers == [] || date <= timers[0].date then 0
    else 1 + LowerBound(timers[1..], date)
  }

  /** The length of the leading run of entries with no active routine. */
  function IdlePrefix(timers: seq<Timer>): (n: nat)
    ensures n <= |timers|
    ensures forall i :: 0 <= i < n ==> timers[i].entry.nbActive == 0
    ensures n < |timers| ==> timers[n].entry.nbActive != 0
  {
    if timers == [] || timers[0].entry.nbActive != 0 then 0
    else 1 + IdlePrefix(timers[1..])
  }

  /** `timed_routines_[date]` as a lookup: the entry filed under `date`, if any. */
  function Lookup(timers: seq<Timer>, date: int): Option<TimedSet>
    decreases |timers|
  {
    if timers == [] then None
    else if timers[0].date == date then Some(timers[0].entry)
    else Lookup(timers[1..], date)
  }

  lemma {:induction false} LookupAppend(a: seq<Timer>, b: seq<Timer>, date: int)
    ensures Lookup(a + b, date) == if Lookup(a, date).Some? then Lookup(a, date) else Lookup(b, date)
    decreases |a|
  {
    if a == [] {
      assert a + b == b;
    } else {
      assert (a + b)[0] == a[0] && (a + b)[1..] == a[1..] + b;
      LookupAppend(a[1..], b, date);
    }
  }

  /** No entry holds `date`, so looking it up finds nothing. */
  lemma {:induction false} LookupAbsent(timers: seq<Timer>, date: int)
    requires forall i :: 0 <= i < |timers| ==> timers[i].date != date
    ensures Lookup(timers, date) == None
    decreases |timers|
  {
    if timers != [] {
      assert forall i :: 0 <= i < |timers| - 1 ==> timers[1..][i] == timers[i + 1];
      LookupAbsent(timers[1..], date);
    }
  }

  /** A one-entry map. */
  lemma LookupSingle(t: Timer, date: int)
    ensures Lookup([t], date) == if t.date == date then Some(t.entry) else None
  {
    assert [t][1..] == [];
  }

  /**
   * `timed_routines_[date]` followed by `slots.emplace_back(index)` and
   * `++nb_active`: a missing entry starts empty.
   */
  function Bump(entry: Option<TimedSet>, index: nat): TimedSet {
    match entry
    case None => TimedSet(1, [index])
    case Some(e) => TimedSet(e.nbActive + 1, e.slots + [index])
  }

  /** The timer map after `register_timer` files slot `index` under `date`. */
  function File(timers: seq<Timer>, date: int, index: nat): seq<Timer>
    requires SortedDates(timers)
  {
    var p := LowerBound(timers, date);
    if p < |timers| && timers[p].date == date then timers[p := Timer(date, Bump(Some(timers[p].entry), index))]
    else timers[..p] + [Timer(date, Bump(None, index))] + timers[p..]
  }

  /**
   * Filing behaves as the ordered map does: the dates stay in order, the
   * entry under `date` gains one active routine and slot `index` at the end
   * (a missing entry starting empty), every other date keeps its entry, and
   * `index` is filed once more.
   */
  lemma FileEffect(timers: seq<Timer>, date: int, index: nat)
    requires SortedDates(timers)
    ensures SortedDates(File(timers, date, index))
    ensures Filed(File(timers, date, index)) == Filed(timers) + multiset{index}
    ensures Lookup(File(timers, date, index), date) == Some(Bump(Lookup(timers, date), index))
    ensures forall d :: d != date ==> Lookup(File(timers, date, index), d) == Lookup(timers, d)
  {
    var p := LowerBound(timers, date);
    if p < |timers| && timers[p].date == date {
      FileFound(timers, p, index);
    } else {
      var before, after := timers[..p], timers[p..];
      assert timers == before + after;
      forall i | 0 <= i < |before| ensures before[i].date < date {
        assert before[i] == timers[i];
      }
      forall i | 0 <= i < |after| ensures date < after[i].date {
        assert after[i] == timers[p + i];
        if i > 0 {
          assert timers[p].date < timers[p + i].date;
        }
      }
      LookupAbsent(before, date);
      LookupAbsent(after, date);
      LookupAppend(before, after, date);
      FileInserted(before, Timer(date, Bump(None, index)), after);
      FiledAppend(before, after);
    }
  }

  /** Filing under a date that has an entry, at position `p`. */
  lemma FileFound(timers: seq<Timer>, p: nat, index: nat)
    requires SortedDates(timers) && p < |timers|
    ensures var r := timers[p := Timer(timers[p].date, Bump(Some(timers[p].entry), index))];
      && SortedDates(r)
      && Filed(r) == Filed(timers) + multiset{index}
      && Lookup(timers, timers[p].date) == Some(timers[p].entry)
      && forall d :: Lookup(r, d) == if d == timers[p].date then Some(r[p].entry) else Lookup(timers, d)
  {
    var t := Timer(timers[p].date, Bump(Some(timers[p].entry), index));
    var r := timers[p := t];
    assert forall k :: 0 <= k < |r| ==> r[k].date == timers[k].date;
    FiledBump(timers, p, t, index);
    forall d ensures Lookup(r, d) == if d == t.date then Some(t.entry) else Lookup(timers, d) {
      LookupReplace(timers, p, t, d);
    }
    LookupReplace(timers, p, timers[p], t.date);
    assert timers[p := timers[p]] == timers;
  }

  /** Adding one slot to the entry at `p` files that slot once more. */
  lemma {:induction false} FiledBump(timers: seq<Timer>, p: nat, t: Timer, x: nat)
    requires p < |timers| && t.entry.slots == timers[p].entry.slots + [x]
    ensures Filed(timers[p := t]) == Filed(timers) + multiset{x}
    decreases p
  {
    var r := timers[p := t];
    assert r[0] == (if p == 0 then t else timers[0]);
    assert r[1..] == if p == 0 then timers[1..] else timers[1..][p - 1 := t];
    if p > 0 {
      assert timers[1..][p - 1] == timers[p];
      FiledBump(timers[1..], p - 1, t, x);
    }
  }

  /** Replacing the entry at `p` by one for the same date changes the lookup of that date only. */
  lemma {:induction false} LookupReplace(timers: seq<Timer>, p: nat, t: Timer, d: int)
    requires p < |timers| && t.date == timers[p].date
    requires forall i :: 0 <= i < p ==> timers[i].date != timers[p].date
    ensures Lookup(timers[p := t], d) == if d == t.date then Some(t.entry) else Lookup(timers, d)
    decreases p
  {
    var r := timers[p := t];
    assert r[1..] == if p == 0 then timers[1..] else timers[1..][p - 1 := t];
    if p > 0 {
      assert forall i :: 0 <= i < p - 1 ==> timers[1..][i] == timers[i + 1];
      LookupReplace(timers[1..], p - 1, t, d);
    }
  }

  /** Filing under a new date, which goes between `before` and `after`. */
  lemma FileInserted(before: seq<Timer>, t: Timer, after: seq<Timer>)
    requires SortedDates(before + after)
    requires forall i :: 0 <= i < |before| ==> before[i].date < t.date
    requires forall i :: 0 <= i < |after| ==> t.date < after[i].date
    ensures SortedDates(before + [t] + after)
    ensures Filed(before + [t] + after) == Filed(before + after) + multiset(t.entry.slots)
    ensures forall d :: Lookup(before + [t] + after, d) == if d == t.date then Some(t.entry) else Lookup(before + after, d)
  {
    InsertedSorted(before, t, after);
    InsertedFiled(before, t, after);
    forall d ensures Lookup(before + [t] + after, d) == if d == t.date then Some(t.entry) else Lookup(before + after, d) {
      InsertedLookup(before, t, after, d);
    }
  }

  lemma InsertedSorted(before: seq<Timer>, t: Timer, after: seq<Timer>)
    requires SortedDates(before + after)
    requires forall i :: 0 <= i < |before| ==> before[i].date < t.date
    requires forall i :: 0 <= i < |after| ==> t.date < after[i].date
    ensures SortedDates(before + [t] + after)
  {
    var r := before + [t] + after;
    forall i, j | 0 <= i < j < |r| ensures r[i].date < r[j].date {
      if j < |before| {
        assert r[i] == (before + after)[i] && r[j] == (before + after)[j];
      } else if i > |before| {
        assert r[i] == (before + after)[i - 1] && r[j] == (before + after)[j - 1];
      } else if i < |before| && j > |before| {
        assert r[i] == before[i] && r[j] == after[j - |before| - 1];
      }
    }
  }

  lemma InsertedFiled(before: seq<Timer>, t: Timer, after: seq<Timer>)
    ensures Filed(before + [t] + after) == Filed(before + after) + multiset(t.entry.slots)
  {
    FiledAppend(before + [t], after);
    FiledAppend(before, [t]);
    FiledAppend(before, after);
    assert [t][1..] == [];
    assert Filed([t]) == multiset(t.entry.slots) + Filed([]);
  }

  lemma InsertedLookup(before: seq<Timer>, t: Timer, after: seq<Timer>, d: int)
    requires forall i :: 0 <= i < |before| ==> before[i].date < t.date
    ensures Lookup(before + [t] + after, d) == if d == t.date then Some(t.entry) else Lookup(before + after, d)
  {
    LookupAppend(before + [t], after, d);
    LookupAppend(before, [t], d);
    LookupAppend(before, after, d);
    LookupSingle(t, d);
    if d == t.date {
      LookupAbsent(before, d);
    }
  }

  /**
   * The free list after releasing the entries of `timers` front to back
   * onto `list`, each entry's slots freed in order (so the last one freed
   * ends up first).
   */
  function Released(timers: seq<Timer>, list: seq<nat>): seq<nat>
    decreases |timers|
  {
    if timers == [] then list
    else PushAll(timers[|timers| - 1].entry.slots, Released(timers[..|timers| - 1], list))
  }

  /** Releasing one more entry pushes its slots onto the list released so far. */
  lemma ReleasedStep(timers: seq<Timer>, k: nat, list: seq<nat>)
    requires k < |timers|
    ensures Released(timers[..k + 1], list) == PushAll(timers[k].entry.slots, Released(timers[..k], list))
  {
    assert timers[..k + 1][..k] == timers[..k];
  }

  /** An idle entry at `k` within the leading idle run extends it past `k`. */
  lemma IdleStep(timers: seq<Timer>, k: nat)
    requires k <= IdlePrefix(timers) && k < |timers| && timers[k].entry.nbActive == 0
    ensures k + 1 <= IdlePrefix(timers)
  {
  }

  /** The leading idle run ends at the end of the map or at the first active entry. */
  lemma IdleEnd(timers: seq<Timer>, k: nat)
    requires k <= IdlePrefix(timers) && k <= |timers| && (k == |timers| || timers[k].entry.nbActive != 0)
    ensures k == IdlePrefix(timers)
  {
  }

  /** The released slots are exactly the filed ones. */
  lemma {:induction false} ReleasedFiled(timers: seq<Timer>, list: seq<nat>)
    ensures multiset(Released(timers, list)) == Filed(timers) + multiset(list)
    decreases |timers|
  {
    if timers != [] {
      var front, last := timers[..|timers| - 1], timers[|timers| - 1];
      ReleasedFiled(front, list);
      PushAllMultiset(last.entry.slots, Released(front, list));
      SplitLast(timers);
      FiledAppend(front, [last]);
      assert [last][1..] == [];
      assert Filed([last]) == multiset(last.entry.slots) + Filed([]);
      assert Filed(timers) == Filed(front) + multiset(last.entry.slots);
    }
  }

  /**
   * The slots filed under dates are each filed once, and are allocated in a
   * sparse vector of `size` cells whose free list is `freeList`.
   */
  ghost predicate FiledOnce(filed: multiset<nat>, freeList: seq<nat>, size: nat) {
    forall x :: x in filed ==> filed[x] == 1 && x < size && x !in freeList
  }

  /** A slot just allocated was not filed, and filing it keeps every slot filed once. */
  lemma FiledAfterAllocate(filed: multiset<nat>, freeList: seq<nat>, size: nat, freeList': seq<nat>, size': nat, index: nat)
    requires FiledOnce(filed, freeList, size)
    requires index !in freeList' && index < size'
    requires freeList == [] ==> index == size && size' == size + 1 && freeList' == []
    requires freeList != [] ==> index == freeList[0] && size' == size && freeList' == freeList[1..]
    ensures index !in filed
    ensures FiledOnce(filed, freeList', size')
    ensures FiledOnce(filed + multiset{index}, freeList', size')
  {
    if freeList != [] {
      assert forall x :: x in freeList' ==> x in freeList;
    }
  }

  /** Freeing a slot filed once keeps the other filed slots allocated. */
  lemma FiledAfterFree(rest: multiset<nat>, x: nat, freeList: seq<nat>, size: nat)
    requires FiledOnce(multiset{x} + rest, freeList, size)
    ensures x < size && x !in freeList && x !in rest
    ensures FiledOnce(rest, [x] + freeList, size)
  {
    assert x in multiset{x} + rest;
    assert (multiset{x} + rest)[x] == 1 + rest[x];
    assert x !in rest;
    forall y | y in rest
      ensures rest[y] == 1 && y < size && y !in [x] + freeList
    {
      assert y in multiset{x} + rest;
      assert (multiset{x} + rest)[y] == rest[y];
    }
  }

  /** Dropping the earliest entry keeps the dates sorted. */
  lemma SortedTail(timers: seq<Timer>)
    requires SortedDates(timers) && timers != []
    ensures SortedDates(timers[1..])
  {
    forall i, j | 0 <= i < j < |timers| - 1 ensures timers[1..][i].date < timers[1..][j].date {
      assert timers[1..][i] == timers[i + 1] && timers[1..][j] == timers[j + 1];
    }
  }

  /**
   * Frees `slots` one after the other, so the free list receives them in
   * reverse; the slots were filed once each, and what stays filed stays so.
   */
  method FreeInOrder(v: SparseVector<Slot>, slots: seq<nat>, ghost rest: multiset<nat>)
    requires v.Valid() && FiledOnce(multiset(slots) + rest, v.freeList, |v.data|)
    modifies v
    ensures v.Valid() && v.data == old(v.data)
    ensures v.freeList == PushAll(slots, old(v.freeList))
    ensures FiledOnce(rest, v.freeList, |v.data|)
  {
    for i := 0 to |slots|
      invariant v.Valid() && v.data == old(v.data)
      invariant v.freeList == PushAll(slots[..i], old(v.freeList))
      invariant FiledOnce(multiset(slots[i..]) + rest, v.freeList, |v.data|)
    {
      FreeStep(slots, i, rest, v.freeList, |v.data|);
      v.Free(slots[i]);
      assert slots[..i + 1][..i] == slots[..i];
    }
    FreeDone(slots, rest, v.freeList, |v.data|);
  }

  /** Pushing `s` adds exactly its elements. */
  lemma PushAllMultiset(s: seq<nat>, list: seq<nat>)
    ensures multiset(PushAll(s, list)) == multiset(s) + multiset(list)
  {
    PushAllReverse(s, list);
    ReverseMultiset(s);
  }

  /** The free list after pushing the elements of `s` one at a time onto `list`. */
  function PushAll(s: seq<nat>, list: seq<nat>): seq<nat>
    decreases |s|
  {
    if s == [] then list else [s[|s| - 1]] + PushAll(s[..|s| - 1], list)
  }

  lemma {:induction false} PushAllReverse(s: seq<nat>, list: seq<nat>)
    ensures PushAll(s, list) == Reverse(s) + list
    decreases |s|
  {
    if s != [] {
      var front := s[..|s| - 1];
      PushAllReverse(front, list);
      assert s == front + [s[|s| - 1]];
      ReverseSnoc(front, s[|s| - 1]);
    }
  }

  /** One step of `FreeInOrder`: the next slot may be freed, and the rest stays filed once. */
  lemma FreeStep(slots: seq<nat>, i: nat, rest: multiset<nat>, freeList: seq<nat>, size: nat)
    requires i < |slots| && FiledOnce(multiset(slots[i..]) + rest, freeList, size)
    ensures slots[i] < size && slots[i] !in freeList
    ensures FiledOnce(multiset(slots[i + 1..]) + rest, [slots[i]] + freeList, size)
  {
    assert slots[i..] == [slots[i]] + slots[i + 1..];
    assert multiset(slots[i..]) + rest == multiset{slots[i]} + (multiset(slots[i + 1..]) + rest);
    FiledAfterFree(multiset(slots[i + 1..]) + rest, slots[i], freeList, size);
  }

  lemma FreeDone(slots: seq<nat>, rest: multiset<nat>, freeList: seq<nat>, size: nat)
    requires FiledOnce(multiset(slots[|slots|..]) + rest, freeList, size)
    ensures slots[..|slots|] == slots && FiledOnce(rest, freeList, size)
  {
    assert slots[|slots|..] == [];
    assert multiset(slots[|slots|..]) + rest == rest;
    assert slots[..|slots|] == slots;
  }

  /**
   * The end-of-round decision: whether to run another round at once, the new
   * status, and whether to tell the engine the thread is idle.
   */
  datatype Decision = Decision(again: bool, status: ThreadStatus, notifyIdle: bool)

  /**
   * The end of `execute_scheduled_routines`, as written, including the branch
   * that notifies idleness when no routine is left but is only reached when
   * some routine is left.
   */
  function Decide(scheduledEmpty: bool, timersEmpty: bool, nbSuspended: nat, nbPending: nat, status: ThreadStatus): (d: Decision)
    ensures var noMore := scheduledEmpty && timersEmpty && nbSuspended == 0;
      && (d.again <==> !scheduledEmpty || nbPending > 0)
      && (d.status == Finished <==> status == Finished || (noMore && nbPending == 0 && status == Finishing))
      && (d.status != Finished ==> d.status == status)
      && (d.notifyIdle <==> noMore && nbPending == 0 && status != Finishing)
  {
    var noMoreRoutines := scheduledEmpty && timersEmpty && nbSuspended == 0;
    if noMoreRoutines then
      if nbPending == 0 then
        if status == Finishing then Decision(false, Finished, false)
        else Decision(false, status, true)
      else Decision(true, status, false)
    else if scheduledEmpty then
      var nbRoutines := (if timersEmpty then 0 else 1) + nbSuspended;
      if nbPending == 0 then Decision(false, status, nbRoutines == 0)
      else Decision(true, status, false)
    else Decision(true, status, false)
  }

  /** A buffer of `get_shared_buffer`, allocated once per size. */
  class Buffer {
    const size: nat

    constructor (size: nat)
      ensures this.size == size
    {
      this.size := size;
    }
  }

  /** The engine's routine id counter, read through `engine_proxy`. */
  class RoutineIds {
    var current: nat

    constructor ()
      ensures current == 0
    {
      current := 0;
    }

    /** `get_new_routine_id`: the counter's value, post-incremented. */
    method NewRoutineId() returns (id: nat)
      modifies this
      ensures id == old(current) && current == old(current) + 1
    {
      id := current;
      current := current + 1;
    }
  }

  /** Two successive ids are distinct and consecutive. */
  method TwoRoutineIds() returns (first: nat, second: nat)
    ensures first == 0 && second == 1
  {
    var ids := new RoutineIds();
    first := ids.NewRoutineId();
    second := ids.NewRoutineId();
  }

  class Thread {
    /** `engine_proxy_.get_id()`. */
    const id: bv64
    const suspendedSlots: SparseVector<Slot>
    var timers: seq<Timer>
    var nbSuspended: nat
    var scheduledEmpty: bool
    var status: ThreadStatus
    var sharedBuffers: map<nat, Buffer>

    /**
     * Dates are in increasing order, and every slot filed under a date is
     * filed once and is allocated, so that releasing the timer sets frees
     * each of those slots exactly once.
     */
    ghost predicate Valid()
      reads this, suspendedSlots
    {
      && suspendedSlots.Valid()
      && SortedDates(timers)
      && FiledOnce(Filed(timers), suspendedSlots.freeList, |suspendedSlots.data|)
      && (forall size :: size in sharedBuffers ==> sharedBuffers[size].size == size)
    }

    constructor (id: bv64, noSlot: Slot)
      ensures Valid() && fresh(suspendedSlots)
      ensures this.id == id && suspendedSlots.data == [] && suspendedSlots.freeList == []
      ensures timers == [] && nbSuspended == 0 && scheduledEmpty && status == Idle && sharedBuffers == map[]
    {
      this.id := id;
      suspendedSlots := new SparseVector.Empty(noSlot);
      timers, nbSuspended, scheduledEmpty, status := [], 0, true, Idle;
      sharedBuffers := map[];
    }

    /** `suspended_slots_.allocate()` then storing `slot` in the new cell. */
    method Occupy(slot: Slot) returns (index: nat)
      requires Valid()
      modifies suspendedSlots
      ensures Valid()
      ensures index !in Filed(timers)
      ensures suspendedSlots.IsAllocated(index) && suspendedSlots.data[index] == slot
      ensures old(suspendedSlots.freeList) == [] ==>
        && index == old(|suspendedSlots.data|) && suspendedSlots.freeList == []
        && suspendedSlots.data == old(suspendedSlots.data) + [slot]
      ensures old(suspendedSlots.freeList) != [] ==>
        && index == old(suspendedSlots.freeList[0]) && suspendedSlots.freeList == old(suspendedSlots.freeList[1..])
        && suspendedSlots.data == old(suspendedSlots.data)[index := slot]
      ensures FiledOnce(Filed(timers) + multiset{index}, suspendedSlots.freeList, |suspendedSlots.data|)
    {
      index := suspendedSlots.Allocate();
      suspendedSlots.Put(index, slot);
      FiledAfterAllocate(Filed(timers), old(suspendedSlots.freeList), old(|suspendedSlots.data|),
        suspendedSlots.freeList, |suspendedSlots.data|, index);
    }

    /** Stores `slot` in the cell `index`, which stays allocated. */
    method Reattach(index: nat, slot: Slot)
      requires Valid() && suspendedSlots.IsAllocated(index)
      modifies suspendedSlots
      ensures Valid()
      ensures suspendedSlots.data == old(suspendedSlots.data)[index := slot]
      ensures suspendedSlots.freeList == old(suspendedSlots.freeList)
    {
      suspendedSlots.Put(index, slot);
    }

    /**
     * `register_timer`: allocates a slot holding `slot` and files it under
     * `date` (see `FileEffect`).
     */
    method RegisterTimer(date: int, slot: Slot) returns (index: nat)
      requires Valid()
      modifies suspendedSlots, this
      ensures Valid() && timers == File(old(timers), date, index)
      ensures nbSuspended == old(nbSuspended) && status == old(status) && sharedBuffers == old(sharedBuffers)
      ensures index !in old(Filed(timers))
      ensures suspendedSlots.IsAllocated(index) && suspendedSlots.data[index] == slot
      ensures old(suspendedSlots.freeList) == [] ==> index == old(|suspendedSlots.data|)
      ensures old(suspendedSlots.freeList) != [] ==> index == old(suspendedSlots.freeList[0])
    {
      index := Occupy(slot);
      FileEffect(timers, date, index);
      timers := File(timers, date, index);
    }

    /** `register_semaphore_wait`: a fresh slot holding `slot`, one more suspended routine. */
    method RegisterSemaphoreWait(slot: Slot) returns (index: nat)
      requires Valid()
      modifies suspendedSlots, this
      ensures Valid() && timers == old(timers) && status == old(status) && sharedBuffers == old(sharedBuffers)
      ensures nbSuspended == old(nbSuspended) + 1
      ensures index !in old(Filed(timers))
      ensures suspendedSlots.IsAllocated(index) && suspendedSlots.data[index] == slot
      ensures old(suspendedSlots.freeList) == [] ==> index == old(|suspendedSlots.data|)
      ensures old(suspendedSlots.freeList) != [] ==> index == old(suspendedSlots.freeList[0])
    {
      index := Occupy(slot);
      nbSuspended := nbSuspended + 1;
    }

    /**
     * `register_read` and `register_write` (the two share this body).
     * `existing` is the word the event loop holds for the fd's side, if any.
     * When that word names this thread, the slot it names is overwritten;
     * otherwise a fresh slot is allocated and `registered` is the word handed
     * to the event loop.  Either way one more routine is suspended, and the
     * result is the `size_t` -1 returned as an `int`.  The precondition on
     * a reused slot is the `assert(has(index))` that `sparse_vector`'s
     * `operator[]` makes before the slot is overwritten.
     */
    method RegisterIo(existing: Option<bv64>, slot: Slot) returns (result: int, registered: Option<bv64>, ghost index: nat)
      requires Valid()
      requires Reusable(id, existing).Some? ==> suspendedSlots.IsAllocated(Reusable(id, existing).value)
      modifies suspendedSlots, this
      ensures Valid() && timers == old(timers) && status == old(status) && sharedBuffers == old(sharedBuffers)
      ensures result == -1 && nbSuspended == old(nbSuspended) + 1
      ensures suspendedSlots.IsAllocated(index) && suspendedSlots.data[index] == slot
      ensures Reusable(id, existing).Some? ==>
        && registered == None && index == Reusable(id, existing).value
        && suspendedSlots.data == old(suspendedSlots.data)[index := slot]
        && suspendedSlots.freeList == old(suspendedSlots.freeList)
      ensures Reusable(id, existing).None? ==>
        && registered == Some(Pack(id, Word(index)))
        && index !in old(Filed(timers))
        && (old(suspendedSlots.freeList) == [] ==>
              index == old(|suspendedSlots.data|) && suspendedSlots.data == old(suspendedSlots.data) + [slot])
        && (old(suspendedSlots.freeList) != [] ==> index == old(suspendedSlots.freeList[0]))
    {
      nbSuspended := nbSuspended + 1;
      var reusable := Reusable(id, existing);
      if reusable.Some? {
        index := reusable.value;
        Reattach(reusable.value, slot);
        registered := None;
      } else {
        var taken := Occupy(slot);
        index := taken;
        registered := Some(Pack(id, Word(taken)));
      }
      result := -1;
    }

    /**
     * The timer cleanup of `execute_scheduled_routines`: while the earliest
     * date has no active routine, its slots are freed in order and the
     * entry is erased.  Exactly the leading run of idle entries goes, and
     * their slots (see `ReleasedFiled`) return to the free list.
     */
    method CleanupTimers()
      requires Valid()
      modifies suspendedSlots, this
      ensures Valid() && nbSuspended == old(nbSuspended) && status == old(status) && sharedBuffers == old(sharedBuffers)
      ensures timers == old(timers)[IdlePrefix(old(timers))..]
      ensures suspendedSlots.data == old(suspendedSlots.data)
      ensures suspendedSlots.freeList == Released(old(timers)[..IdlePrefix(old(timers))], old(suspendedSlots.freeList))
    {
      ghost var start := timers;
      ghost var k := 0;
      assert start[..0] == [];
      while timers != [] && timers[0].entry.nbActive == 0
        invariant Valid() && k <= IdlePrefix(start) && timers == start[k..]
        invariant nbSuspended == old(nbSuspended) && status == old(status) && sharedBuffers == old(sharedBuffers)
        invariant suspendedSlots.data == old(suspendedSlots.data)
        invariant suspendedSlots.freeList == Released(start[..k], old(suspendedSlots.freeList))
        decreases |timers|
      {
        assert timers[0] == start[k];
        IdleStep(start, k);
        ReleasedStep(start, k, old(suspendedSlots.freeList));
        ReleaseFirst();
        k := k + 1;
        assert timers == start[k..];
      }
      IdleEnd(start, k);
    }

    /** Frees the slots of the first entry in order and erases the entry. */
    method ReleaseFirst()
      requires Valid() && timers != []
      modifies suspendedSlots, this
      ensures Valid() && timers == old(timers[1..])
      ensures nbSuspended == old(nbSuspended) && status == old(status) && sharedBuffers == old(sharedBuffers)
      ensures suspendedSlots.data == old(suspendedSlots.data)
      ensures suspendedSlots.freeList == PushAll(old(timers[0].entry.slots), old(suspendedSlots.freeList))
    {
      var remaining := timers[1..];
      SortedTail(timers);
      FreeInOrder(suspendedSlots, timers[0].entry.slots, Filed(remaining));
      timers := remaining;
    }

    /**
     * The end of `execute_scheduled_routines`: applies the decision (a
     * finishing thread with nothing left becomes finished) and returns
     * whether another round runs at once.
     */
    method EndRound(nbPending: nat) returns (again: bool, notifyIdle: bool)
      modifies this
      ensures again == Decide(scheduledEmpty, timers == [], nbSuspended, nbPending, old(status)).again
      ensures notifyIdle == Decide(scheduledEmpty, timers == [], nbSuspended, nbPending, old(status)).notifyIdle
      ensures status == Decide(scheduledEmpty, timers == [], nbSuspended, nbPending, old(status)).status
      ensures timers == old(timers) && nbSuspended == old(nbSuspended) && scheduledEmpty == old(scheduledEmpty)
      ensures sharedBuffers == old(sharedBuffers)
    {
      var d := Decide(scheduledEmpty, timers == [], nbSuspended, nbPending, status);
      status := d.status;
      again, notifyIdle := d.again, d.notifyIdle;
    }

    /**
     * `get_shared_buffer`: the buffer already made for `minimumSize`, or a
     * new one of that size, recorded for later calls.
     */
    method GetSharedBuffer(minimumSize: nat) returns (buffer: Buffer)
      requires Valid()
      modifies this
      ensures Valid() && buffer.size == minimumSize
      ensures minimumSize in old(sharedBuffers) ==> buffer == old(sharedBuffers[minimumSize]) && sharedBuffers == old(sharedBuffers)
      ensures minimumSize !in old(sharedBuffers) ==> fresh(buffer) && sharedBuffers == old(sharedBuffers)[minimumSize := buffer]
      ensures timers == old(timers) && nbSuspended == old(nbSuspended) && status == old(status)
    {
      if minimumSize in sharedBuffers {
        buffer := sharedBuffers[minimumSize];
      } else {
        buffer := new Buffer(minimumSize);
        sharedBuffers := sharedBuffers[minimumSize := buffer];
      }
    }
  }

  /**
   * Asking twice for one size gives the same buffer; asking for another size
   * gives another buffer.
   */
  method SharedBuffers(size: nat, other: nat, noSlot: Slot) returns (same: bool, distinct: bool)
    ensures same && (other != size ==> distinct)
  {
    var t := new Thread(0, noSlot);
    var first := t.GetSharedBuffer(size);
    var again := t.GetSharedBuffer(size);
    var different := t.GetSharedBuffer(other);
    same, distinct := first == again, first != different;
  }

  /**
   * A read registration on an fd with no previous registration allocates slot
   * 0 and hands out the word packing the thread id with 0; registering again
   * with that word reuses the slot, so both routines count as suspended but
   * only one slot is used.
   */
  method RegisterTwice(id: bv64, first: Slot, second: Slot, noSlot: Slot) returns (word: Option<bv64>, again: Option<bv64>, slots: nat, suspended: nat, stored: Slot)
    requires id <= LowMask
    ensures word == Some(Pack(id, 0)) && again == None
    ensures slots == 1 && suspended == 2 && stored == second
  {
    var t := new Thread(id, noSlot);
    var r1, r2;
    ghost var i1, i2;
    r1, word, i1 := t.RegisterIo(None, first);
    assert i1 == 0;
    assert Word(0) == 0;
    UnpackPack(id, 0);
    assert Reusable(id, word) == Some(0);
    r2, again, i2 := t.RegisterIo(word, second);
    slots, suspended, stored := |t.suspendedSlots.data|, t.nbSuspended, t.suspendedSlots.data[0];
  }

  /** The timer map of `TimersInDateOrder` after each registration. */
  lemma ThreeTimers(a: nat, b: nat, c: nat)
    ensures File([], 5, a) == [Timer(5, TimedSet(1, [a]))]
    ensures File([Timer(5, TimedSet(1, [a]))], 5, b) == [Timer(5, TimedSet(2, [a, b]))]
    ensures File([Timer(5, TimedSet(2, [a, b]))], 1, c) == [Timer(1, TimedSet(1, [c])), Timer(5, TimedSet(2, [a, b]))]
    ensures IdlePrefix([Timer(1, TimedSet(1, [c])), Timer(5, TimedSet(2, [a, b]))]) == 0
  {
    assert [Timer(5, TimedSet(1, [a]))][..0] + [Timer(5, TimedSet(1, [a]))][0..] == [Timer(5, TimedSet(1, [a]))];
    assert LowerBound([Timer(5, TimedSet(1, [a]))], 5) == 0 && [a] + [b] == [a, b];
    assert LowerBound([Timer(5, TimedSet(2, [a, b]))], 1) == 0;
    assert [Timer(5, TimedSet(2, [a, b]))][0..] == [Timer(5, TimedSet(2, [a, b]))];
  }

  /**
   * Two timers at the same date and one at an earlier date: the entries stay
   * in date order, and cleaning up while every entry is still active
   * releases nothing.
   */
  method TimersInDateOrder(noSlot: Slot, s: Slot) returns (dates: seq<int>, counts: seq<nat>, kept: nat)
    ensures dates == [1, 5] && counts == [1, 2] && kept == 2
  {
    var t := new Thread(0, noSlot);
    var a := t.RegisterTimer(5, s);
    var b := t.RegisterTimer(5, s);
    var c := t.RegisterTimer(1, s);
    ThreeTimers(a, b, c);
    assert t.timers == [Timer(1, TimedSet(1, [c])), Timer(5, TimedSet(2, [a, b]))];
    t.CleanupTimers();
    dates := [t.timers[0].date, t.timers[1].date];
    counts := [t.timers[0].entry.nbActive, t.timers[1].entry.nbActive];
    kept := |t.timers|;
  }
}

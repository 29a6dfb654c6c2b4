/**
 * `boson::memory::local_ptr`: a reference-counted handle without atomics.
 * Handles that share a value share one `references` record holding the count
 * of handles and the value pointer; any handle can replace that pointer, which
 * invalidates every handle of the record at once.
 */
module LocalPtr {
  import opened Wrappers

  /** The shared `references` record; `None` stands for a null value pointer. */
  class References<T> {
    var sharedRefs: nat
    var value: Option<T>
    /** Set when the record (and its value) has been deleted. */
    ghost var released: bool

    constructor (value: Option<T>)
      ensures sharedRefs == 1 && this.value == value && !released
    {
      sharedRefs := 1;
      this.value := value;
      released := false;
    }
  }

  class LocalPtr<T> {
    var ref: References?<T>

    /** `local_ptr()`: no record. */
    constructor Empty()
      ensures ref == null
    {
      ref := null;
    }

    /**
     * `local_ptr(T*)` and `local_ptr(T&&)`: a fresh record counting one
     * handle.  A null pointer still gets a record, whose handle is false.
     */
    constructor (value: Option<T>)
      ensures ref != null && fresh(ref)
      ensures ref.sharedRefs == 1 && ref.value == value && !ref.released
    {
      ref := new References(value);
    }

    /** Copy construction: the same record, one more handle on it. */
    constructor Copy(other: LocalPtr<T>)
      modifies other.ref
      ensures ref == other.ref
      ensures ref != null ==> ref.sharedRefs == old(other.ref.sharedRefs) + 1 && ref.value == old(other.ref.value)
      ensures ref != null ==> ref.released == old(other.ref.released)
    {
      ref := other.ref;
      new;
      if ref != null {
        ref.sharedRefs := ref.sharedRefs + 1;
      }
    }

    /** Move construction: the record changes hands, the count does not. */
    constructor Move(other: LocalPtr<T>)
      modifies other
      ensures ref == old(other.ref) && other.ref == null
    {
      ref := other.ref;
      new;
      other.ref := null;
    }

    /**
     * Gives up this handle's share of the record: the count drops by one, and
     * the handle that drops it to zero deletes the value and the record.
     */
    method Decrement()
      requires ref != null ==> ref.sharedRefs > 0
      modifies this, ref
      ensures old(ref) == null ==> ref == null
      ensures old(ref) != null ==> old(ref).sharedRefs == old(ref.sharedRefs) - 1
      ensures old(ref) != null ==> old(ref).value == old(ref.value)
      ensures old(ref) != null ==> (old(ref).released <==> old(ref.released) || old(ref.sharedRefs) == 1)
      ensures old(ref) != null ==> ref == (if old(ref.sharedRefs) == 1 then null else old(ref))
    {
      if ref != null {
        ref.sharedRefs := ref.sharedRefs - 1;
        if ref.sharedRefs == 0 {
          ref.released := true;
          ref := null;
        }
      }
    }

    /**
     * Copy assignment as written: this handle's share is given up before the
     * other handle's record is taken, so a handle that is the only owner of
     * its record and is assigned to itself deletes the value and ends up
     * empty (see `SelfCopyAssign`).
     */
    method CopyAssign(other: LocalPtr<T>)
      requires ref != null ==> ref.sharedRefs > 0
      modifies this, ref, other.ref
      ensures other != this ==> ref == old(other.ref)
      ensures other == this ==> ref == (if old(ref) != null && old(ref.sharedRefs) == 1 then null else old(ref))
      ensures old(ref) != null && old(ref) != old(other.ref) ==>
        && old(ref).sharedRefs == old(ref.sharedRefs) - 1
        && (old(ref).released <==> old(ref.released) || old(ref.sharedRefs) == 1)
      ensures old(other.ref) != null && old(other.ref) != old(ref) ==>
        old(other.ref).sharedRefs == old(other.ref.sharedRefs) + 1
      ensures old(ref) != null && old(ref) == old(other.ref) && other != this ==>
        old(ref).sharedRefs == old(ref.sharedRefs)
      ensures old(ref) != null && other == this ==>
        && old(ref).sharedRefs == (if old(ref.sharedRefs) == 1 then 0 else old(ref.sharedRefs))
        && (old(ref).released <==> old(ref.released) || old(ref.sharedRefs) == 1)
      ensures old(other.ref) != null ==> old(other.ref).value == old(other.ref.value)
    {
      Decrement();
      ref := other.ref;
      if ref != null {
        ref.sharedRefs := ref.sharedRefs + 1;
      }
    }

    /**
     * Copy assignment with the self-assignment guard the handle evidently
     * needs: assigning a handle to itself changes nothing.
     */
    method CopyAssignGuarded(other: LocalPtr<T>)
      requires ref != null ==> ref.sharedRefs > 0
      modifies this, ref, other.ref
      ensures ref == old(other.ref)
      ensures other == this ==> ref == old(ref) && (ref != null ==> ref.sharedRefs == old(ref.sharedRefs))
      ensures old(other.ref) != null && old(other.ref) != old(ref) ==>
        old(other.ref).sharedRefs == old(other.ref.sharedRefs) + 1
      ensures old(other.ref) != null ==> old(other.ref).value == old(other.ref.value)
    {
      if other != this {
        CopyAssign(other);
      }
    }

    /**
     * Move assignment: this handle's share is given up, then the record
     * changes hands.  There is no self-assignment guard, so moving a handle
     * into itself gives up its share and leaves it empty (see `SelfMoveAssign`).
     */
    method MoveAssign(other: LocalPtr<T>)
      requires ref != null ==> ref.sharedRefs > 0
      modifies this, ref, other
      ensures other != this ==> ref == old(other.ref)
      ensures other.ref == null && ref == (if other == this then null else old(other.ref))
      ensures old(ref) != null ==> old(ref).sharedRefs == old(ref.sharedRefs) - 1
      ensures old(ref) != null ==> old(ref).value == old(ref.value)
      ensures old(ref) != null ==> (old(ref).released <==> old(ref.released) || old(ref.sharedRefs) == 1)
    {
      Decrement();
      ref := other.ref;
      other.ref := null;
    }

    /** `operator=(nullptr)`: one share given up, the handle left empty. */
    method AssignNull()
      requires ref != null ==> ref.sharedRefs > 0
      modifies this, ref
      ensures ref == null
      ensures old(ref) != null ==> old(ref).sharedRefs == old(ref.sharedRefs) - 1
      ensures old(ref) != null ==> (old(ref).released <==> old(ref.released) || old(ref.sharedRefs) == 1)
    {
      Decrement();
      ref := null;
    }

    /**
     * `reset`: the shared value pointer is replaced (the old value deleted),
     * for every handle of the record at once.
     */
    method Reset(newValue: Option<T>)
      modifies ref
      ensures ref == old(ref)
      ensures ref != null ==> ref.value == newValue && ref.sharedRefs == old(ref.sharedRefs)
    {
      if ref != null {
        ref.value := newValue;
      }
    }

    /** `invalidate_all`: reset to null, so every handle of the record becomes false. */
    method InvalidateAll()
      modifies ref
      ensures ref == old(ref)
      ensures ref != null ==> ref.value == None && ref.sharedRefs == old(ref.sharedRefs)
    {
      Reset(None);
    }

    /** `operator bool`: there is a record and its value pointer is not null. */
    predicate IsSet()
      reads this, ref
    {
      ref != null && ref.value.Some?
    }
  }

  /**
   * Two handles made from one value and a copy share one record counting two
   * handles; destroying both deletes the record.
   */
  method CopiesShareRecord<T>(v: T) returns (firstSet: bool, secondSet: bool, count: nat, ghost released: bool)
    ensures firstSet && secondSet && count == 2 && released
  {
    var a1 := new LocalPtr(Some(v));
    var a2 := new LocalPtr.Copy(a1);
    var record := a1.ref;
    firstSet, secondSet, count := a1.IsSet(), a2.IsSet(), record.sharedRefs;
    a2.Decrement();
    a1.Decrement();
    released := record.released;
  }

  /** Invalidating through one handle makes its copy false as well. */
  method InvalidateReachesCopies<T>(v: T) returns (before: bool, first: bool, second: bool)
    ensures before && !first && !second
  {
    var a1 := new LocalPtr(Some(v));
    var a2 := new LocalPtr.Copy(a1);
    before := a1.IsSet() && a2.IsSet();
    a2.InvalidateAll();
    first, second := a1.IsSet(), a2.IsSet();
  }

  /** Moving a handle leaves the source empty and the count unchanged. */
  method MoveKeepsCount<T>(v: T) returns (sourceSet: bool, targetSet: bool, count: nat)
    ensures !sourceSet && targetSet && count == 1
  {
    var a1 := new LocalPtr(Some(v));
    var a2 := new LocalPtr.Move(a1);
    sourceSet, targetSet, count := a1.IsSet(), a2.IsSet(), a2.ref.sharedRefs;
  }

  /**
   * Self copy-assignment of the only handle on a record, as written: the value
   * is deleted and the handle is left empty.
   */
  method SelfCopyAssign<T>(v: T) returns (stillSet: bool, ghost released: bool)
    ensures !stillSet && released
  {
    var a := new LocalPtr(Some(v));
    var record := a.ref;
    a.CopyAssign(a);
    stillSet := a.IsSet();
    released := record.released;
  }

  /**
   * Self move-assignment of one of two handles on a record: that handle gives
   * up its share and is left empty, while the record survives for the other.
   */
  method SelfMoveAssign<T>(v: T) returns (stillSet: bool, copySet: bool, count: nat, ghost released: bool)
    ensures !stillSet && copySet && count == 1 && !released
  {
    var a1 := new LocalPtr(Some(v));
    var a2 := new LocalPtr.Copy(a1);
    var record := a1.ref;
    a1.MoveAssign(a1);
    stillSet, copySet, count := a1.IsSet(), a2.IsSet(), record.sharedRefs;
    released := record.released;
  }

  /** With the guard, self copy-assignment keeps the value and the count. */
  method SelfCopyAssignGuarded<T>(v: T) returns (stillSet: bool, count: nat)
    ensures stillSet && count == 1
  {
    var a := new LocalPtr(Some(v));
    a.CopyAssignGuarded(a);
    stillSet := a.IsSet();
    count := a.ref.sharedRefs;
  }
}

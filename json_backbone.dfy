/**
 * The parts of `json_backbone` the runtime relies on: the compile-time
 * array arithmetic (`arithmetics::max_value`, `find_first`, `find_last`,
 * `all_equals`), the storage size a `variant` reserves for its
 * alternatives, the variant comparisons, and `view::get` with a default.
 *
 * The arithmetic is recursive and is modelled as written, one recursive
 * call per array position; each function is related by a lemma to what it
 * computes.  A variant is a type index and the payload of that alternative.
 */
module JsonBackbone {
  import opened Wrappers

  /** `sizeof(void*)` on the 64-bit targets the runtime supports. */
  const PointerSize: nat := 8

  // ---------------------------------------------------------------------
  // arithmetics
  // ---------------------------------------------------------------------

  /**
   * `max_value(values, current_value, current_index)`: scans from
   * `index`, keeping the larger of the running value and each element.
   */
  function MaxValue(values: seq<int>, current: int, index: nat): int
    decreases |values| - index
  {
    if |values| <= index then current
    else if current < values[index] then MaxValue(values, values[index], index + 1)
    else MaxValue(values, current, index + 1)
  }

  /**
   * `max_value` is the largest of the running value and the elements from
   * `index` on, and is one of them.
   */
  lemma {:induction false} MaxValueIsMax(values: seq<int>, current: int, index: nat)
    ensures MaxValue(values, current, index) >= current
    ensures forall i :: index <= i < |values| ==> MaxValue(values, current, index) >= values[i]
    ensures MaxValue(values, current, index) == current || MaxValue(values, current, index) in values[index..]
    decreases |values| - index
  {
    if index < |values| {
      var next := if current < values[index] then values[index] else current;
      MaxValueIsMax(values, next, index + 1);
      assert values[index..] == [values[index]] + values[index + 1..];
    }
  }

  /** With the default start (`lowest()`), an empty array gives back `lowest`. */
  lemma MaxValueEmpty(lowest: int)
    ensures MaxValue([], lowest, 0) == lowest
  {
  }

  /** `find_first(values, value, current_index)`: the first index from `index` holding `value`, or N. */
  function FindFirst<T(==)>(values: seq<T>, value: T, index: nat): nat
    decreases |values| - index
  {
    if |values| <= index then |values|
    else if value == values[index] then index
    else FindFirst(values, value, index + 1)
  }

  lemma {:induction false} FindFirstIsFirst<T>(values: seq<T>, value: T, index: nat)
    ensures FindFirst(values, value, index) <= |values|
    ensures index <= |values| ==> index <= FindFirst(values, value, index)
    ensures FindFirst(values, value, index) < |values| ==> values[FindFirst(values, value, index)] == value
    ensures forall i :: index <= i < FindFirst(values, value, index) ==> values[i] != value
    decreases |values| - index
  {
    if index < |values| && value != values[index] {
      FindFirstIsFirst(values, value, index + 1);
    }
  }

  /** `find_first` answers N exactly when the value is absent. */
  lemma FindFirstAbsent<T>(values: seq<T>, value: T)
    ensures FindFirst(values, value, 0) == |values| <==> value !in values
  {
    FindFirstIsFirst(values, value, 0);
  }

  /**
   * `find_last(values, value, current_index)`: looks at position
   * N - current_index - 1 and moves towards the front; N if absent.
   */
  function FindLast<T(==)>(values: seq<T>, value: T, index: nat): nat
    decreases |values| - index
  {
    if |values| <= index then |values|
    else if value == values[|values| - index - 1] then |values| - index - 1
    else FindLast(values, value, index + 1)
  }

  lemma {:induction false} FindLastIsLast<T>(values: seq<T>, value: T, index: nat)
    ensures FindLast(values, value, index) <= |values|
    ensures FindLast(values, value, index) < |values| ==>
      FindLast(values, value, index) < |values| - index && values[FindLast(values, value, index)] == value
    ensures FindLast(values, value, index) < |values| ==>
      forall i :: FindLast(values, value, index) < i < |values| - index ==> values[i] != value
    ensures FindLast(values, value, index) == |values| ==>
      forall i :: 0 <= i < |values| - index ==> values[i] != value
    decreases |values| - index
  {
    if index < |values| && value != values[|values| - index - 1] {
      FindLastIsLast(values, value, index + 1);
    }
  }

  /** `find_last` answers N exactly when the value is absent. */
  lemma FindLastAbsent<T>(values: seq<T>, value: T)
    ensures FindLast(values, value, 0) == |values| <==> value !in values
  {
    FindLastIsLast(values, value, 0);
  }

  /** With one occurrence, `find_first` and `find_last` agree. */
  lemma FirstIsLastWhenUnique<T>(values: seq<T>, value: T, k: nat)
    requires k < |values| && values[k] == value
    requires forall i :: 0 <= i < |values| && i != k ==> values[i] != value
    ensures FindFirst(values, value, 0) == k == FindLast(values, value, 0)
  {
    FindFirstIsFirst(values, value, 0);
    FindLastIsLast(values, value, 0);
  }

  /** `all_equals(values, current_value, current_index)`. */
  function AllEquals<T(==)>(values: seq<T>, value: T, index: nat): bool
    decreases |values| - index
  {
    if |values| <= index then true
    else if value == values[index] then AllEquals(values, value, index + 1)
    else false
  }

  lemma {:induction false} AllEqualsMeansAll<T>(values: seq<T>, value: T, index: nat)
    ensures AllEquals(values, value, index) <==> forall i :: index <= i < |values| ==> values[i] == value
    decreases |values| - index
  {
    if index < |values| {
      AllEqualsMeansAll(values, value, index + 1);
    }
  }

  // ---------------------------------------------------------------------
  // storage size of a variant
  // ---------------------------------------------------------------------

  /**
   * What the storage computation knows of one alternative: its `sizeof`,
   * whether it is recursive (incomplete where the variant is declared), and
   * the `is_small_type` specialisation a program may provide for it.
   */
  datatype Alternative = Alternative(size: nat, recursive: bool, smallOverride: Option<bool>)

  /** `is_small_type_impl`: recursive alternatives are never small. */
  predicate IsSmall(a: Alternative) {
    !a.recursive && (if a.smallOverride.Some? then a.smallOverride.value else a.size <= PointerSize)
  }

  /** `memory_footprint`: in place when small, behind a pointer otherwise. */
  function MemoryFootprint(a: Alternative): (r: nat)
    ensures IsSmall(a) ==> r == a.size
    ensures !IsSmall(a) ==> r == PointerSize
  {
    if a.recursive then PointerSize
    else if IsSmall(a) then a.size
    else PointerSize
  }

  function Footprints(alternatives: seq<Alternative>): (r: seq<int>)
    ensures |r| == |alternatives|
    ensures forall i :: 0 <= i < |r| ==> r[i] == MemoryFootprint(alternatives[i])
  {
    seq(|alternatives|, i requires 0 <= i < |alternatives| => MemoryFootprint(alternatives[i]))
  }

  /** `min_memory_size`: the largest footprint, starting from `size_t`'s lowest value 0. */
  function MinMemorySize(alternatives: seq<Alternative>): int {
    MaxValue(Footprints(alternatives), 0, 0)
  }

  /** `memory_size`: `min_memory_size` rounded up to a whole number of pointers. */
  function MemorySize(minSize: nat): nat {
    PointerSize * (minSize / PointerSize + (if minSize % PointerSize != 0 then 1 else 0))
  }

  /** `memory_size` is the least multiple of the pointer size that holds `minSize`. */
  lemma MemorySizeIsLeastMultiple(minSize: nat)
    ensures MemorySize(minSize) % PointerSize == 0
    ensures minSize <= MemorySize(minSize) < minSize + PointerSize
  {
  }

  /** `store_on_stack`: small, and within the reserved storage. */
  predicate StoreOnStack(a: Alternative, memSize: nat) {
    IsSmall(a) && MemoryFootprint(a) <= memSize
  }

  /**
   * The storage reserved by a variant holds every alternative's footprint,
   * so every small alternative is stored in place.
   */
  lemma {:induction false} SmallAlternativesInPlace(alternatives: seq<Alternative>, k: nat)
    requires k < |alternatives|
    ensures MinMemorySize(alternatives) >= 0
    ensures MemoryFootprint(alternatives[k]) <= MemorySize(MinMemorySize(alternatives))
    ensures IsSmall(alternatives[k]) ==> StoreOnStack(alternatives[k], MemorySize(MinMemorySize(alternatives)))
  {
    var footprints := Footprints(alternatives);
    MaxValueIsMax(footprints, 0, 0);
    assert footprints[k] == MemoryFootprint(alternatives[k]);
    MemorySizeIsLeastMultiple(MinMemorySize(alternatives));
  }

  // ---------------------------------------------------------------------
  // variant comparisons and view::get
  // ---------------------------------------------------------------------

  /**
   * A `variant`: the index of the alternative it holds and that
   * alternative's value.  Every constructor of the source sets the index,
   * so a variant always holds one of its alternatives.
   */
  datatype Variant<P> = Variant(typeIndex: nat, payload: P)

  /**
   * `operator==`: different alternatives are never equal; the same one
   * compares its values with that alternative's own `==` (`payloadEq`).
   */
  function Equals<P>(payloadEq: (P, P) -> bool, lhs: Variant<P>, rhs: Variant<P>): bool {
    if lhs.typeIndex == rhs.typeIndex then payloadEq(lhs.payload, rhs.payload) else false
  }

  /** `operator!=`. */
  function NotEquals<P>(payloadEq: (P, P) -> bool, lhs: Variant<P>, rhs: Variant<P>): bool {
    !Equals(payloadEq, lhs, rhs)
  }

  ghost predicate Equivalence<P(!new)>(eq: (P, P) -> bool) {
    && (forall a :: eq(a, a))
    && (forall a, b :: eq(a, b) ==> eq(b, a))
    && (forall a, b, c :: eq(a, b) && eq(b, c) ==> eq(a, c))
  }

  /**
   * When every alternative's `==` is an equivalence, so is the variant's;
   * it never relates different alternatives, and `!=` is its negation.
   */
  lemma EqualsIsEquivalence<P(!new)>(payloadEq: (P, P) -> bool, a: Variant<P>, b: Variant<P>, c: Variant<P>)
    requires Equivalence(payloadEq)
    ensures Equals(payloadEq, a, a)
    ensures Equals(payloadEq, a, b) ==> Equals(payloadEq, b, a)
    ensures Equals(payloadEq, a, b) && Equals(payloadEq, b, c) ==> Equals(payloadEq, a, c)
    ensures Equals(payloadEq, a, b) ==> a.typeIndex == b.typeIndex
    ensures NotEquals(payloadEq, a, b) <==> !Equals(payloadEq, a, b)
  {
    if Equals(payloadEq, a, b) && Equals(payloadEq, b, c) {
      assert payloadEq(a.payload, b.payload) && payloadEq(b.payload, c.payload);
    }
  }

  /**
   * With alternatives whose `==` is equality of values, `==` on variants is
   * equality of alternative and value, and `!=` its negation.
   */
  lemma EqualsIsIdentity<P>(lhs: Variant<P>, rhs: Variant<P>)
    ensures Equals((x: P, y: P) => x == y, lhs, rhs) <==> lhs == rhs
    ensures NotEquals((x: P, y: P) => x == y, lhs, rhs) <==> lhs != rhs
  {
  }

  /**
   * `operator<`: the alternative's index first, then the alternative's own
   * `<` (`payloadLess`) between values of the same alternative.
   */
  function Less<P>(payloadLess: (P, P) -> bool, lhs: Variant<P>, rhs: Variant<P>): bool {
    if lhs.typeIndex == rhs.typeIndex then payloadLess(lhs.payload, rhs.payload)
    else lhs.typeIndex < rhs.typeIndex
  }

  ghost predicate StrictOrder<P(!new)>(less: (P, P) -> bool) {
    && (forall a :: !less(a, a))
    && (forall a, b, c :: less(a, b) && less(b, c) ==> less(a, c))
  }

  /** When every alternative's `<` is a strict order, so is the variant's. */
  lemma LessIsStrictOrder<P(!new)>(payloadLess: (P, P) -> bool, a: Variant<P>, b: Variant<P>, c: Variant<P>)
    requires StrictOrder(payloadLess)
    ensures !Less(payloadLess, a, a)
    ensures Less(payloadLess, a, b) && Less(payloadLess, b, c) ==> Less(payloadLess, a, c)
    ensures !(Less(payloadLess, a, b) && Less(payloadLess, b, a))
  {
    if Less(payloadLess, a, b) && Less(payloadLess, b, c) && a.typeIndex == b.typeIndex == c.typeIndex {
      assert payloadLess(a.payload, c.payload);
    }
  }

  /** Two variants are ordered or equal when, for every alternative, two values are ordered or equal. */
  lemma LessIsTotal<P(!new)>(payloadEq: (P, P) -> bool, payloadLess: (P, P) -> bool, a: Variant<P>, b: Variant<P>)
    requires forall x, y :: payloadEq(x, y) || payloadLess(x, y) || payloadLess(y, x)
    ensures Less(payloadLess, a, b) || Equals(payloadEq, a, b) || Less(payloadLess, b, a)
  {
  }

  /** A `view` either refers to a variant or is empty. */
  type View<P> = Option<Variant<P>>

  /**
   * `view::get(default_value)`: the held value when the view refers to a
   * variant holding alternative `typeIndex`, the default otherwise.
   */
  function GetOr<P>(view: View<P>, typeIndex: nat, default: P): (r: P)
    ensures view.None? ==> r == default
    ensures view.Some? && view.value.typeIndex != typeIndex ==> r == default
    ensures view.Some? && view.value.typeIndex == typeIndex ==> r == view.value.payload
  {
    if view.Some? && view.value.typeIndex == typeIndex then view.value.payload else default
  }

  /** `get` with a default gives back what was stored, whatever the default. */
  lemma GetOrStored<P>(typeIndex: nat, value: P, default: P)
    ensures GetOr(Some(Variant(typeIndex, value)), typeIndex, default) == value
  {
  }
}

/**
 * `boson::memory::flat_unordered_set`: a set kept as an unsorted vector.
 * `insert` appends a value only when a linear search does not find it, and
 * `erase` removes the first occurrence, so a set built by inserts alone never
 * holds a value twice and its size is the number of distinct values inserted.
 */
module FlatUnorderedSet {
  import opened Seqs

  /** The values a sequence holds, forgetting order and repetition. */
  ghost function Elements<V>(s: seq<V>): set<V> {
    set x | x in s
  }

  /**
   * The position `std::find` stops at: the first one holding `x`, or `|s|`
   * when `x` does not occur.
   */
  function FirstIndex<V(==)>(s: seq<V>, x: V): (k: nat)
    ensures k <= |s|
    ensures k < |s| <==> x in s
    ensures k < |s| ==> s[k] == x
    ensures forall j :: 0 <= j < k ==> s[j] != x
  {
    if s == [] then 0
    else if s[0] == x then 0
    else 1 + FirstIndex(s[1..], x)
  }

  /** A sequence without repetitions: its tail has none and lacks its head. */
  lemma DistinctTail<V>(s: seq<V>)
    requires Distinct(s) && s != []
    ensures Distinct(s[1..]) && s[0] !in s[1..]
  {
    var rest := s[1..];
    forall i, j | 0 <= i < j < |rest| ensures rest[i] != rest[j] {
      assert rest[i] == s[i + 1] && rest[j] == s[j + 1];
    }
    forall j | 0 <= j < |rest| ensures rest[j] != s[0] {
      assert rest[j] == s[j + 1];
    }
  }

  /** Without repetitions, the number of values equals the length. */
  lemma {:induction false} DistinctCard<V>(s: seq<V>)
    ensures Distinct(s) ==> |Elements(s)| == |s|
  {
    if s != [] && Distinct(s) {
      var rest := s[1..];
      DistinctTail(s);
      DistinctCard(rest);
      assert Elements(s) == {s[0]} + Elements(rest) by {
        assert s == [s[0]] + rest;
      }
      assert s[0] !in Elements(rest);
    }
  }

  /** Appending a value that is not there keeps the sequence free of repetitions. */
  lemma AppendDistinct<V>(s: seq<V>, x: V)
    requires Distinct(s) && x !in s
    ensures Distinct(s + [x])
  {
    var t := s + [x];
    forall i, j | 0 <= i < j < |t| ensures t[i] != t[j] {
      assert t[i] == s[i];
      if j < |s| { assert t[j] == s[j]; }
    }
  }

  /**
   * Taking one position out of a sequence without repetitions leaves one
   * without repetitions that no longer holds the removed value and holds
   * every other one.
   */
  lemma RemoveDistinct<V>(s: seq<V>, p: nat)
    requires Distinct(s) && p < |s|
    ensures Distinct(RemoveAt(s, p))
    ensures Elements(RemoveAt(s, p)) == Elements(s) - {s[p]}
  {
    var r := RemoveAt(s, p);
    forall i, j | 0 <= i < j < |r| ensures r[i] != r[j] {
      var i0, j0 := if i < p then i else i + 1, if j < p then j else j + 1;
      assert r[i] == s[i0] && r[j] == s[j0];
    }
    forall x | x in Elements(r) ensures x in Elements(s) - {s[p]} {
      var k :| 0 <= k < |r| && r[k] == x;
      var k0 := if k < p then k else k + 1;
      assert s[k0] == x;
    }
    forall x | x in Elements(s) - {s[p]} ensures x in Elements(r) {
      var k :| 0 <= k < |s| && s[k] == x;
      assert k != p;
      var k1 := if k < p then k else k - 1;
      assert r[k1] == x;
    }
  }

  class FlatUnorderedSet<V(==)> {
    var values: seq<V>

    /** The set property: no value is stored twice. */
    ghost predicate NoDuplicates()
      reads this
    {
      Distinct(values)
    }

    /** `flat_unordered_set()`: no value. */
    constructor Empty()
      ensures values == [] && NoDuplicates()
    {
      values := [];
    }

    /**
     * `flat_unordered_set(size, default_value)`: `size` copies of one value,
     * which breaks the set property as soon as `size` is two or more.
     */
    constructor (size: nat, defaultValue: V)
      ensures values == seq(size, _ => defaultValue)
      ensures size >= 2 ==> !NoDuplicates()
    {
      values := seq(size, _ => defaultValue);
      new;
      if size >= 2 {
        assert values[0] == values[1];
      }
    }

    /** `std::find` over `values_`: a linear search from the front. */
    method Find(value: V) returns (position: nat)
      ensures position == FirstIndex(values, value)
    {
      position := 0;
      while position < |values| && values[position] != value
        invariant position <= |values|
        invariant forall j :: 0 <= j < position ==> values[j] != value
      {
        position := position + 1;
      }
    }

    /**
     * Appends `value` exactly when it is absent.  The position is modelled
     * as an index: the one `std::find` reached before the append, which is
     * the value's index in both cases.  The source returns that iterator,
     * which for an absent value is the old `end()` and may be invalidated by
     * the append.
     */
    method Insert(value: V) returns (position: nat, inserted: bool)
      modifies this
      ensures inserted <==> value !in old(values)
      ensures inserted ==> values == old(values) + [value]
      ensures !inserted ==> values == old(values)
      ensures position == FirstIndex(old(values), value)
      ensures position < |values| && values[position] == value
      ensures old(NoDuplicates()) ==> NoDuplicates()
      ensures Elements(values) == Elements(old(values)) + {value}
    {
      position := Find(value);
      inserted := false;
      if position == |values| {
        if Distinct(values) {
          AppendDistinct(values, value);
        }
        values := values + [value];
        inserted := true;
      }
    }

    /**
     * Removes the first occurrence of `value` and reports how many values were
     * removed; without repetitions `value` is then gone altogether.
     */
    method Erase(value: V) returns (count: nat)
      modifies this
      ensures count == (if value in old(values) then 1 else 0)
      ensures value !in old(values) ==> values == old(values)
      ensures value in old(values) ==> values == RemoveAt(old(values), FirstIndex(old(values), value))
      ensures old(NoDuplicates()) ==> NoDuplicates() && Elements(values) == Elements(old(values)) - {value}
    {
      var position := Find(value);
      if position == |values| {
        return 0;
      }
      if Distinct(values) {
        RemoveDistinct(values, position);
      }
      values := RemoveAt(values, position);
      return 1;
    }

    /** Without repetitions, the size is the number of distinct values held. */
    function Size(): (n: nat)
      reads this
      ensures NoDuplicates() ==> n == |Elements(values)|
    {
      DistinctCard(values);
      |values|
    }
  }

  /**
   * Inserting every value of `inputs` into an empty set leaves exactly the
   * distinct inputs, each once, and a size equal to their number.
   */
  method InsertAll<V(==)>(inputs: seq<V>) returns (contents: seq<V>, size: nat)
    ensures Distinct(contents)
    ensures Elements(contents) == Elements(inputs)
    ensures size == |Elements(inputs)|
  {
    var s := new FlatUnorderedSet<V>.Empty();
    for i := 0 to |inputs|
      invariant s.NoDuplicates()
      invariant Elements(s.values) == Elements(inputs[..i])
    {
      var _, _ := s.Insert(inputs[i]);
      assert Elements(inputs[..i + 1]) == Elements(inputs[..i]) + {inputs[i]} by {
        assert inputs[..i + 1] == inputs[..i] + [inputs[i]];
      }
    }
    assert inputs[..|inputs|] == inputs;
    contents := s.values;
    size := s.Size();
  }
}

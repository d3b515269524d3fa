/**
 * The array list of utils/array_list.c.
 *
 * The list owns an array of `capacity` slots, of which the first `size`
 * hold its values; values are pointers, compared by identity, so they are
 * modelled as values of a type with equality.  `Contents()` is the
 * sequence the list stands for.  A NULL array (after a failed
 * initialisation, or after destruction) holds nothing.
 *
 * The slots are shifted in place, as in the source.  `shift_right` grows
 * the array only when `pos + 1 >= capacity`, so inserting into a full list
 * before its end writes one slot past the array; `InsertFits` states when
 * the writes stay inside, `InsertAt` requires it, and `InsertAtGrowing` is
 * the insertion that grows a full array first.
 */
module ArrayList {
  import opened Common

  /** `(size_t)-1`, what array_list_index_of answers for a missing value. */
  const NotFound: nat := 0xFFFF_FFFF_FFFF_FFFF

  /** `sizeof(void*)` on an LP64 host: the width of one slot of the array. */
  const PointerSize: nat := 8

  /**
   * The whole `void*` slots in the `capacity * value_size` bytes that
   * alloc_array requests.  The list itself models the intended
   * `capacity` slots, which this gives only for pointer-sized values.
   */
  function AllocatedSlots(capacity: nat, valueSize: nat): (n: nat)
    ensures n * PointerSize <= capacity * valueSize < (n + 1) * PointerSize
    ensures valueSize == PointerSize ==> n == capacity
  {
    capacity * valueSize / PointerSize
  }

  /**
   * The test's `array_list_init(&lst, sizeof(int), 3)` gets 12 bytes: one
   * whole slot, so the second push_tail writes slot 1, which ends at byte
   * 16, past the buffer.
   */
  lemma IntListUnderAllocated()
    ensures AllocatedSlots(3, 4) == 1 && 3 * 4 < 2 * PointerSize
  {
  }

  /** `s` with `v` inserted before position `pos`. */
  function Inserted<V>(s: seq<V>, pos: nat, v: V): (r: seq<V>)
    requires pos <= |s|
    ensures |r| == |s| + 1 && r[pos] == v
    ensures forall i :: 0 <= i < pos ==> r[i] == s[i]
    ensures forall i :: pos < i < |r| ==> r[i] == s[i - 1]
  {
    s[..pos] + [v] + s[pos..]
  }

  /** `s` without the element at position `pos`. */
  function Deleted<V>(s: seq<V>, pos: nat): (r: seq<V>)
    requires pos < |s|
    ensures |r| == |s| - 1
    ensures forall i :: 0 <= i < pos ==> r[i] == s[i]
    ensures forall i :: pos <= i < |r| ==> r[i] == s[i + 1]
  {
    s[..pos] + s[pos + 1..]
  }

  /** Deleting what was just inserted at `pos` gives the sequence back. */
  lemma DeleteInserted<V>(s: seq<V>, pos: nat, v: V)
    requires pos <= |s|
    ensures Deleted(Inserted(s, pos, v), pos) == s
  {
    var t := Deleted(Inserted(s, pos, v), pos);
    assert forall i :: 0 <= i < |s| ==> t[i] == s[i];
  }

  /** Inserting back what was deleted at `pos` gives the sequence back. */
  lemma InsertDeleted<V>(s: seq<V>, pos: nat)
    requires pos < |s|
    ensures Inserted(Deleted(s, pos), pos, s[pos]) == s
  {
    var t := Inserted(Deleted(s, pos), pos, s[pos]);
    assert forall i :: 0 <= i < |s| ==> t[i] == s[i];
  }

  /**
   * The capacity shift_right leaves before it moves the slots:
   * array_list_resize(pos + 1) when `pos + 1 >= capacity`, which changes
   * nothing when `pos + 1 == capacity`.
   */
  function GrownCapacity(capacity: nat, pos: nat): (c: nat)
    ensures c >= capacity && c > pos
    ensures pos + 1 < capacity ==> c == capacity
  {
    if pos + 1 >= capacity then pos + 1 else capacity
  }

  /**
   * Every write array_list_insert_at makes lands inside the array: on an
   * empty list at position 0 it writes slot 0; otherwise it writes slots
   * `pos + 1 .. size` (moving values up) and `pos`, after shift_right's
   * growth step.  An out-of-range `pos` writes nothing.
   */
  predicate InsertFits(size: nat, capacity: nat, pos: nat)
  {
    if pos > size then true
    else if size == 0 && pos == 0 then capacity > 0
    else size < GrownCapacity(capacity, pos) || pos == size
  }

  /**
   * When the writes stay inside the array: always when there is a free
   * slot, and on a full list only when appending to a non-empty list.
   */
  lemma InsertFitsExactly(size: nat, capacity: nat, pos: nat)
    requires size <= capacity && pos <= size
    ensures InsertFits(size, capacity, pos) <==> size < capacity || (pos == size && size > 0)
  {
    if pos < size && size == capacity {
      assert GrownCapacity(capacity, pos) == capacity;
    }
  }

  /** The growth rule of shift_right misses a full list: inserting at the head of [a, b, c] in three slots overflows. */
  lemma ShiftRightOverflows()
    ensures exists size: nat, capacity: nat, pos: nat :: size <= capacity && pos <= size && !InsertFits(size, capacity, pos)
  {
    assert !InsertFits(3, 3, 0);
  }

  class ArrayList<V(==,0)>
  {
    var size: nat
    var valueSize: nat
    var capacity: nat
    var arr: array?<V>

    /**
     * A NULL array holds nothing; otherwise it has `capacity` slots and
     * `size` does not exceed them.  `size` is a `size_t`.
     */
    ghost predicate Valid()
      reads this
    {
      && size <= capacity && size < NotFound
      && (arr == null ==> size == 0)
      && (arr != null ==> arr.Length == capacity)
    }

    /** The values of the list, in order. */
    ghost function Contents(): (s: seq<V>)
      reads this, arr
      requires Valid()
      ensures |s| == size
    {
      if arr == null then [] else arr[..size]
    }

    /**
     * array_list_init: an empty list of the given value size and capacity.
     * When the allocation fails (`allocOk` false) the array stays NULL and
     * the result is -1.
     */
    constructor (valueSize: nat, capacity: nat, allocOk: bool)
      ensures Valid() && Contents() == []
      ensures this.size == 0 && this.valueSize == valueSize && this.capacity == capacity
      ensures allocOk <==> arr != null
      ensures arr != null ==> fresh(arr) && arr.Length == capacity
    {
      size := 0;
      this.valueSize := valueSize;
      this.capacity := capacity;
      if allocOk {
        arr := new V[capacity];
      } else {
        arr := null;
      }
    }

    /**
     * array_list_index_of: the first position holding `value`, or
     * `(size_t)-1` when no position does.
     */
    method IndexOf(value: V) returns (i: nat)
      requires Valid()
      ensures i == NotFound <==> value !in Contents()
      ensures i != NotFound ==> i < size && Contents()[i] == value && value !in Contents()[..i]
    {
      i := 0;
      while i < size
        invariant i <= size
        invariant value !in Contents()[..i]
      {
        if arr[i] == value {
          return;
        }
        assert Contents()[..i + 1] == Contents()[..i] + [arr[i]];
        i := i + 1;
      }
      assert Contents()[..i] == Contents();
      i := NotFound;
    }

    /** array_list_get_at: the value at `pos`, or NULL past the end. */
    method GetAt(pos: nat) returns (r: Option<V>)
      requires Valid()
      ensures r == if pos < size then Some(Contents()[pos]) else None
    {
      if pos >= size {
        return None;
      }
      return Some(arr[pos]);
    }

    /**
     * shift_left: drops the value at `pos`, moving every later value one
     * slot down, and lowers `size`.
     */
    method ShiftLeft(pos: nat)
      requires Valid() && pos < size
      modifies this, arr
      ensures Valid() && arr == old(arr) && capacity == old(capacity) && valueSize == old(valueSize)
      ensures Contents() == Deleted(old(Contents()), pos)
    {
      ghost var s := Contents();
      size := size - 1;
      var i := pos;
      while i < size
        invariant arr == old(arr) && arr != null && |s| == size + 1 && valueSize == old(valueSize)
        invariant pos <= i <= size && arr.Length == capacity
        invariant forall j :: 0 <= j < pos ==> arr[j] == s[j]
        invariant forall j :: pos <= j < i ==> arr[j] == s[j + 1]
        invariant forall j :: i <= j < size + 1 ==> arr[j] == s[j]
      {
        arr[i] := arr[i + 1];
        i := i + 1;
      }
    }

    /**
     * The moving loop of shift_right: every value from `pos` on goes one
     * slot up, into the free slot `size`; `size` itself is unchanged.
     */
    method ShiftUp(pos: nat)
      requires Valid() && arr != null && pos <= size < capacity
      modifies arr
      ensures arr[..pos] == old(arr[..pos])
      ensures arr[pos + 1..size + 1] == old(arr[pos..size])
    {
      var i := size;
      while i > pos
        invariant pos <= i <= size
        invariant forall j :: 0 <= j <= i ==> arr[j] == old(arr[j])
        invariant forall j :: i < j <= size ==> arr[j] == old(arr[j - 1])
      {
        arr[i] := arr[i - 1];
        i := i - 1;
      }
    }

    /**
     * alloc_array: a new array of `capacity` slots, holding the values of
     * the old one as far as both reach (realloc), or -1 with the old array
     * untouched when the allocation fails.
     */
    method AllocArray(allocOk: bool) returns (r: int)
      requires size <= capacity && (arr == null ==> size == 0)
      modifies this
      ensures size == old(size) && capacity == old(capacity) && valueSize == old(valueSize)
      ensures !allocOk ==> r == -1 && arr == old(arr)
      ensures allocOk ==> r == 0 && arr != null && fresh(arr) && arr.Length == capacity
      ensures allocOk && old(arr) != null ==>
                forall i :: 0 <= i < capacity && i < old(arr).Length ==> arr[i] == old(arr[i])
    {
      if !allocOk {
        return -1;
      }
      var a := new V[capacity];
      if arr != null {
        forall i | 0 <= i < capacity && i < arr.Length {
          a[i] := arr[i];
        }
      }
      arr := a;
      r := 0;
    }

    /**
     * array_list_resize: 0 with no change when the capacity is already
     * `newCapacity`; -1 with no change when shrinking below `size`;
     * otherwise the array is reallocated to `newCapacity` slots keeping the
     * values, or, when that fails, -1 with the old capacity restored.
     */
    method Resize(newCapacity: nat, allocOk: bool) returns (r: int)
      requires Valid()
      modifies this
      ensures Valid() && size == old(size) && valueSize == old(valueSize) && Contents() == old(Contents())
      ensures arr == old(arr) || fresh(arr)
      ensures newCapacity == old(capacity) ==> r == 0 && arr == old(arr) && capacity == old(capacity)
      ensures newCapacity != old(capacity) && newCapacity < old(size) ==>
                r == -1 && arr == old(arr) && capacity == old(capacity)
      ensures newCapacity != old(capacity) && newCapacity >= old(size) ==>
                && (allocOk ==> r == 0 && capacity == newCapacity && arr != null && fresh(arr))
                && (!allocOk ==> r == -1 && capacity == old(capacity) && arr == old(arr))
    {
      var oldCapacity := capacity;
      if newCapacity == capacity {
        return 0;
      }
      if newCapacity < capacity && newCapacity < size {
        return -1;
      }
      ghost var s := Contents();
      capacity := newCapacity;
      r := AllocArray(allocOk);
      if r == -1 {
        capacity := oldCapacity;
        return;
      }
      assert forall i :: 0 <= i < size ==> arr[i] == s[i];
    }

    /**
     * shift_right as written: grows the array to `pos + 1` slots when
     * `pos + 1 >= capacity` (the reallocation is taken to succeed), then
     * moves the values from `pos` on one slot up.  The move writes slot
     * `size`, which must exist after the growth step.
     */
    method ShiftRight(pos: nat)
      requires Valid() && arr != null && pos <= size
      requires size < GrownCapacity(capacity, pos)
      modifies this, arr
      ensures Valid() && arr != null && size == old(size) && valueSize == old(valueSize)
      ensures arr == old(arr) || fresh(arr)
      ensures capacity == GrownCapacity(old(capacity), pos) && size < capacity
      ensures arr[..pos] == old(Contents())[..pos]
      ensures arr[pos + 1..size + 1] == old(Contents())[pos..]
    {
      if pos + 1 >= capacity {
        var _ := Resize(pos + 1, true);
      }
      ShiftUp(pos);
    }

    /**
     * The last step of array_list_insert_at: once the values from `pos` on
     * sit one slot up, `value` goes into slot `pos` and `size` grows.
     */
    method Fill(value: V, pos: nat, ghost s: seq<V>)
      requires Valid() && arr != null && |s| == size && pos <= size < capacity && size + 1 < NotFound
      requires arr[..pos] == s[..pos] && arr[pos + 1..size + 1] == s[pos..]
      modifies this, arr
      ensures Valid() && arr == old(arr) && capacity == old(capacity) && valueSize == old(valueSize)
      ensures Contents() == Inserted(s, pos, value)
    {
      arr[pos] := value;
      size := size + 1;
      assert Contents() == arr[..pos] + [value] + arr[pos + 1..size];
    }

    /**
     * array_list_insert_at as written: -1 with no change when `pos` is past
     * the end; otherwise `value` goes in at `pos`.  The writes must stay
     * inside the array (InsertFits), which a full list does not give
     * unless the insertion appends.
     */
    method InsertAt(value: V, pos: nat) returns (r: int)
      requires Valid()
      requires pos <= size ==> arr != null && size + 1 < NotFound && InsertFits(size, capacity, pos)
      modifies this, arr
      ensures pos <= old(size) ==> capacity == if old(size) == 0 then old(capacity) else GrownCapacity(old(capacity), pos)
      ensures arr == old(arr) || fresh(arr)
      ensures Valid() && valueSize == old(valueSize)
      ensures pos > old(size) ==> r == -1 && Contents() == old(Contents()) && capacity == old(capacity)
      ensures pos <= old(size) ==> r == 0 && Contents() == Inserted(old(Contents()), pos, value)
    {
      if pos > size {
        return -1;
      }
      ghost var s := Contents();
      if size == 0 && pos == 0 {
        arr[0] := value;
        size := size + 1;
        return 0;
      }
      ShiftRight(pos);
      Fill(value, pos, s);
      r := 0;
    }

    /**
     * array_list_insert_at with the growth step shift_right evidently
     * intends: a full array grows by one slot before the values move, so
     * every insertion within bounds succeeds (given the allocation does).
     */
    method InsertAtGrowing(value: V, pos: nat) returns (r: int)
      requires Valid()
      requires pos <= size ==> arr != null && size + 1 < NotFound
      modifies this, arr
      ensures arr == old(arr) || fresh(arr)
      ensures Valid() && valueSize == old(valueSize)
      ensures pos > old(size) ==> r == -1 && Contents() == old(Contents())
      ensures pos <= old(size) ==> r == 0 && Contents() == Inserted(old(Contents()), pos, value)
      ensures pos <= old(size) ==> capacity == if old(size) < old(capacity) then old(capacity) else old(size) + 1
    {
      if pos > size {
        return -1;
      }
      ghost var s := Contents();
      if size == capacity {
        var _ := Resize(size + 1, true);
      }
      ShiftUp(pos);
      Fill(value, pos, s);
      r := 0;
    }

    /** array_list_del_at: the value at `pos`, now removed, or NULL past the end with no change. */
    method DelAt(pos: nat) returns (r: Option<V>)
      requires Valid()
      modifies this, arr
      ensures arr == old(arr)
      ensures Valid() && capacity == old(capacity) && valueSize == old(valueSize)
      ensures pos >= old(size) ==> r == None && Contents() == old(Contents())
      ensures pos < old(size) ==> r == Some(old(Contents())[pos]) && Contents() == Deleted(old(Contents()), pos)
    {
      if pos >= size {
        return None;
      }
      r := GetAt(pos);
      ShiftLeft(pos);
    }

    /**
     * array_list_del_value: removes the first occurrence of `value` and
     * returns it, or NULL with no change when there is none.
     */
    method DelValue(value: V) returns (r: Option<V>)
      requires Valid()
      modifies this, arr
      ensures arr == old(arr)
      ensures Valid() && capacity == old(capacity)
      ensures value !in old(Contents()) ==> r == None && Contents() == old(Contents())
      ensures value in old(Contents()) ==>
                && r == Some(value)
                && exists i :: 0 <= i < old(size) && old(Contents())[i] == value && value !in old(Contents())[..i]
                               && Contents() == Deleted(old(Contents()), i)
    {
      var i := IndexOf(value);
      if i == NotFound {
        return None;
      }
      r := DelAt(i);
    }

    /** array_list_push_head: insert_at position 0. */
    method PushHead(value: V) returns (r: int)
      requires Valid() && arr != null && size + 1 < NotFound && InsertFits(size, capacity, 0)
      modifies this, arr
      ensures capacity == if old(size) == 0 then old(capacity) else GrownCapacity(old(capacity), 0)
      ensures arr == old(arr) || fresh(arr)
      ensures Valid() && r == 0 && Contents() == [value] + old(Contents())
    {
      r := InsertAt(value, 0);
    }

    /** array_list_pop_head: NULL on an empty list, else del_at position 0. */
    method PopHead() returns (r: Option<V>)
      requires Valid()
      modifies this, arr
      ensures capacity == old(capacity)
      ensures arr == old(arr)
      ensures Valid()
      ensures old(size) == 0 ==> r == None && Contents() == old(Contents())
      ensures old(size) > 0 ==> r == Some(old(Contents())[0]) && Contents() == old(Contents())[1..]
    {
      if size == 0 {
        return None;
      }
      r := DelAt(0);
    }

    /** array_list_push_tail: insert_at position `size`. */
    method PushTail(value: V) returns (r: int)
      requires Valid() && arr != null && size + 1 < NotFound && InsertFits(size, capacity, size)
      modifies this, arr
      ensures capacity == if old(size) == 0 then old(capacity) else GrownCapacity(old(capacity), old(size))
      ensures arr == old(arr) || fresh(arr)
      ensures Valid() && r == 0 && Contents() == old(Contents()) + [value]
    {
      r := InsertAt(value, size);
    }

    /** array_list_pop_tail: NULL on an empty list, else del_at position `size - 1`. */
    method PopTail() returns (r: Option<V>)
      requires Valid()
      modifies this, arr
      ensures capacity == old(capacity)
      ensures arr == old(arr)
      ensures Valid()
      ensures old(size) == 0 ==> r == None && Contents() == old(Contents())
      ensures old(size) > 0 ==>
                r == Some(old(Contents())[old(size) - 1]) && Contents() == old(Contents())[..old(size) - 1]
    {
      if size == 0 {
        return None;
      }
      r := DelAt(size - 1);
    }

    /** array_list_destroy: the array is released and every field is 0. */
    method Destroy() returns (r: int)
      modifies this
      ensures r == 0 && arr == null && size == 0 && valueSize == 0 && capacity == 0
      ensures Valid() && Contents() == []
    {
      arr := null;
      size, valueSize, capacity := 0, 0, 0;
      r := 0;
    }
  }

  /**
   * The scenario of tests/array_list_test.c: three values pushed at the
   * tail of a three-slot list, looked up and removed from the middle and
   * the head, then three pushed at the head and one removed by value.
   */
  method Scenario() returns (l: ArrayList<int>)
    ensures l.Valid() && l.capacity == 3 && l.Contents() == [7, 5]
  {
    l := new ArrayList(4, 3, true);
    ScenarioTail(l);
    ScenarioRemove(l);
    ScenarioHead(l);
  }

  /** Pushing 5, 7, 9 at the tail, then looking values up. */
  method ScenarioTail(l: ArrayList<int>)
    requires l.Valid() && l.arr != null && l.capacity == 3 && l.Contents() == []
    modifies l, l.arr
    ensures l.Valid() && l.arr != null && l.capacity == 3 && l.Contents() == [5, 7, 9]
    ensures l.arr == old(l.arr) || fresh(l.arr)
  {
    var r := l.PushTail(5);
    r := l.PushTail(7);
    r := l.PushTail(9);
    assert l.Contents() == [5, 7, 9];
    var i := l.IndexOf(7);
    assert l.Contents()[1] == 7;
    assert i == 1;
    i := l.IndexOf(11);
    assert i == NotFound;
    var v := l.GetAt(2);
    assert v == Some(9);
  }

  /** Removing from the middle, past the end and at the head until empty. */
  method ScenarioRemove(l: ArrayList<int>)
    requires l.Valid() && l.arr != null && l.capacity == 3 && l.Contents() == [5, 7, 9]
    modifies l, l.arr
    ensures l.Valid() && l.arr != null && l.capacity == 3 && l.Contents() == []
    ensures l.arr == old(l.arr) || fresh(l.arr)
  {
    var v := l.DelAt(1);
    assert v == Some(7) && l.Contents() == [5, 9];
    var r := l.PushTail(11);
    v := l.DelAt(1);
    assert v == Some(9) && l.Contents() == [5, 11];
    v := l.DelAt(9);
    assert v == None;
    v := l.PopHead();
    assert v == Some(5);
    v := l.PopHead();
    assert v == Some(11);
  }

  /** Pushing 5, 7, 9 at the head, then removing 9 by value. */
  method ScenarioHead(l: ArrayList<int>)
    requires l.Valid() && l.arr != null && l.capacity == 3 && l.Contents() == []
    modifies l, l.arr
    ensures l.Valid() && l.capacity == 3 && l.Contents() == [7, 5]
  {
    ScenarioPushHead(l);
    var v := l.GetAt(2);
    assert v == Some(5);
    v := l.GetAt(0);
    assert v == Some(9);
    v := l.DelValue(9);
    assert v == Some(9) && l.Contents() == [7, 5];
  }

  /** Pushing 5, 7, 9 at the head of an empty list. */
  method ScenarioPushHead(l: ArrayList<int>)
    requires l.Valid() && l.arr != null && l.capacity == 3 && l.Contents() == []
    modifies l, l.arr
    ensures l.Valid() && l.arr != null && l.capacity == 3 && l.Contents() == [9, 7, 5]
    ensures l.arr == old(l.arr) || fresh(l.arr)
  {
    var r := l.PushHead(5);
    r := l.PushHead(7);
    r := l.PushHead(9);
  }
}

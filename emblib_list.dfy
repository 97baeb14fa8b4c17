/**
 * The array list of src/emblib_list.c. A list is the ring buffer
 * descriptor used positionally: element `i` lives in slot
 * `(head + i) % size`, an insert shifts the elements from position `i` on
 * one slot up with a single `memmove`, and a remove shifts those after `i`
 * one slot down. No list operation moves `head`, and the list is created
 * with `head == 0`, so `head` stays 0; that is what keeps each `memmove`
 * range inside the array, and it is part of the list invariant here.
 * In C the list type is the ring buffer type itself; the class `List` below
 * repeats the ring's fields and its size and count queries only so that
 * its invariant can pin `head == 0`, which `CircBuffer` does not keep.
 */
module EmblibList {
  import opened Optional
  import opened EmblibCircBuffer

  /**
   * The array `s` after `memmove(s + dest, s + src, n)`: slot `dest + k` holds
   * what slot `src + k` held, for every `k < n`, read before any write;
   * every other slot is unchanged.
   */
  ghost function Moved<T>(s: seq<T>, dest: nat, src: nat, n: nat): (r: seq<T>)
    requires dest + n <= |s| && src + n <= |s|
    ensures |r| == |s|
  {
    seq(|s|, k requires 0 <= k < |s| => if dest <= k < dest + n then s[k - dest + src] else s[k])
  }

  /** A memmove of zero slots changes nothing. */
  lemma MovedNothing<T>(s: seq<T>, dest: nat, src: nat)
    requires dest <= |s| && src <= |s|
    ensures Moved(s, dest, src, 0) == s
  {
  }

  /** A list cursor at `count % size` stepping forward lands on `(count + 1) % size`. */
  lemma TailStepForward(tail: nat, count: nat, size: nat)
    requires count < size && tail == count % size
    ensures (tail + 1) % size == (count + 1) % size
  {
    ModWrap(count, size);
  }

  /** A list cursor at `count % size` stepping back one slot lands on `(count - 1) % size`. */
  lemma TailStepBack(tail: nat, count: nat, size: nat)
    requires 0 < count <= size && tail == count % size
    ensures (tail - 1 + size) % size == (count - 1) % size
  {
    ModWrap(count, size);
    ModWrap(tail - 1 + size, size);
    ModWrap(count - 1, size);
  }

  /** With `head == 0`, the slot of position `i` is `i` itself. */
  lemma ListSlots(head: nat, i: nat, size: nat)
    requires head == 0 && i < size
    ensures (head + i) % size == i
  {
    ModWrap(i, size);
  }

  /** memmove: copies `n` slots from `src` to `dest`; the ranges may overlap. */
  method MemMove<T>(a: array<T>, dest: nat, src: nat, n: nat)
    requires dest + n <= a.Length && src + n <= a.Length
    modifies a
    ensures a[..] == Moved(old(a[..]), dest, src, n)
  {
    forall k | 0 <= k < n {
      a[dest + k] := a[src + k];
    }
  }

  /**
   * An insert's memmove followed by the store of `x` at `index`: the first
   * `count + 1` slots are the old list with `x` inserted at `index`.
   */
  lemma ShiftedUp<T>(a: seq<T>, index: nat, count: nat, x: T)
    requires index <= count < |a|
    ensures Moved(a, index + 1, index, count - index)[index := x][..count + 1]
            == a[..count][..index] + [x] + a[..count][index..]
  {
    var b := Moved(a, index + 1, index, count - index)[index := x];
    var c := a[..count][..index] + [x] + a[..count][index..];
    forall i | 0 <= i <= count
      ensures b[i] == c[i]
    {
      if i < index {
      } else if i == index {
      } else {
        assert b[i] == Moved(a, index + 1, index, count - index)[index + 1 + (i - index - 1)];
        assert c[i] == a[..count][index..][i - index - 1];
      }
    }
  }

  /**
   * A remove's memmove: the first `count - 1` slots are the old list
   * without position `index`.
   */
  lemma ShiftedDown<T>(a: seq<T>, index: nat, count: nat)
    requires index < count <= |a|
    ensures Moved(a, index, index + 1, count - index - 1)[..count - 1]
            == a[..count][..index] + a[..count][index + 1..]
  {
    var b := Moved(a, index, index + 1, count - index - 1);
    var c := a[..count][..index] + a[..count][index + 1..];
    forall i | 0 <= i < count - 1
      ensures b[i] == c[i]
    {
      if i >= index {
        assert b[i] == b[index + (i - index)];
        assert c[i] == a[..count][index + 1..][i - index];
      }
    }
  }

  /**
   * The array work of an insert at position `index` of a list held in
   * `a[..count]`: memmove of the `count - index` elements from `index` on
   * one slot up (skipped when there are none), then the store of `x`.
   */
  method ShiftIn<T>(a: array<T>, index: nat, count: nat, x: T)
    requires index <= count < a.Length
    modifies a
    ensures a[..count + 1] == old(a[..count])[..index] + [x] + old(a[..count])[index..]
    ensures a[count + 1..] == old(a[count + 1..])
  {
    ghost var a0 := a[..];
    var moveCount := count - index;
    if moveCount > 0 {
      MemMove(a, index + 1, index, moveCount);
    } else {
      MovedNothing(a0, index + 1, index);
    }
    a[index] := x;
    ShiftedUp(a0, index, count, x);
  }

  /**
   * The array work of a remove at position `index`: memmove of the
   * `count - index - 1` elements after `index` one slot down.
   */
  method ShiftOut<T>(a: array<T>, index: nat, count: nat)
    requires index < count <= a.Length
    modifies a
    ensures a[..count - 1] == old(a[..count])[..index] + old(a[..count])[index + 1..]
    ensures a[count..] == old(a[count..])
  {
    ghost var a0 := a[..];
    var moveCount := count - index - 1;
    if moveCount > 0 {
      MemMove(a, index, index + 1, moveCount);
    } else {
      MovedNothing(a0, index, index + 1);
    }
    ShiftedDown(a0, index, count);
  }

  class List<T> {
    /** Set once by init and never reassigned by a list operation. */
    const arr: array<T>
    const capacity: nat
    const elemSize: nat
    /** The number of element slots, `capacity / elemSize`. */
    ghost const slots: nat
    var head: nat
    var tail: nat
    var count: nat

    /**
     * The list invariant: the ring buffer's, with `head` pinned to slot 0,
     * so that the elements are the first `count` slots.
     */
    ghost predicate Valid()
      reads this
    {
      && elemSize > 0 && capacity > 0 && capacity % elemSize == 0
      && slots == capacity / elemSize && slots <= arr.Length
      && head == 0 && tail < slots
      && count <= slots
      && tail == count % slots
    }

    /** The elements by position. */
    ghost function Contents(): seq<T>
      reads this, arr
      requires Valid()
    {
      arr[..count]
    }

    constructor Attach(a: array<T>, bufferLen: nat, sizeElem: nat)
      requires sizeElem > 0 && bufferLen > 0 && bufferLen % sizeElem == 0
      requires bufferLen / sizeElem <= a.Length
      ensures Valid() && arr == a && capacity == bufferLen && elemSize == sizeElem
      ensures head == 0 && tail == 0 && count == 0
    {
      arr, capacity, elemSize := a, bufferLen, sizeElem;
      slots := bufferLen / sizeElem;
      head, tail, count := 0, 0, 0;
    }

    /**
     * emblib_list_init: the ring buffer's init; fails unless the array is
     * given, both lengths are positive and `bufferLen` is a multiple of
     * `sizeElem`. A new list is empty with both cursors at slot 0.
     */
    static method Init(a: array?<T>, bufferLen: nat, sizeElem: nat) returns (l: List?<T>)
      requires a != null && sizeElem > 0 ==> bufferLen / sizeElem <= a.Length
      ensures (l != null) == (a != null && bufferLen > 0 && sizeElem > 0 && bufferLen % sizeElem == 0)
      ensures l != null ==> fresh(l) && l.Valid() && l.arr == a && l.Contents() == []
      ensures l != null ==> l.capacity == bufferLen && l.elemSize == sizeElem
    {
      if a != null && bufferLen > 0 && sizeElem > 0 && bufferLen % sizeElem == 0 {
        l := new List.Attach(a, bufferLen, sizeElem);
      } else {
        l := null;
      }
    }

    /** emblib_list_size: the number of element slots. */
    function Size(): (r: nat)
      reads this
      requires Valid()
      ensures r == slots && r > 0 && r * elemSize == capacity && r <= arr.Length
    {
      capacity / elemSize
    }

    /** emblib_list_count: the number of elements. */
    function Count(): (r: nat)
      reads this, arr
      requires Valid()
      ensures r == |Contents()| && r <= Size()
    {
      count
    }

    /** emblib_list_is_empty. */
    function IsEmpty(): (r: bool)
      reads this, arr
      requires Valid()
      ensures r <==> Contents() == []
    {
      count == 0
    }

    /** emblib_list_is_full. */
    function IsFull(): (r: bool)
      reads this, arr
      requires Valid()
      ensures r <==> |Contents()| == Size()
    {
      count == Size()
    }

    /**
     * emblib_list_insert: fails, changing nothing, when the list is full or
     * `index > count`; otherwise `x` is at position `index`, the elements
     * from there on move one position up, `tail` advances and `head` stays.
     */
    method Insert(index: nat, x: T) returns (ok: bool)
      requires Valid()
      modifies this, arr
      ensures Valid()
      ensures ok == (old(count) < slots && index <= old(count))
      ensures ok ==> Contents() == old(Contents())[..index] + [x] + old(Contents())[index..]
      ensures ok ==> head == old(head) && tail == (old(tail) + 1) % slots && count == old(count) + 1
      ensures !ok ==> tail == old(tail) && count == old(count) && arr[..] == old(arr[..])
    {
      if IsFull() || index > count {
        return false;
      }
      var size := Size();
      var insertPos := (head + index) % size;
      ListSlots(head, index, size);
      ShiftIn(arr, insertPos, count, x);
      TailStepForward(tail, count, size);
      tail := (tail + 1) % size;
      count := count + 1;
      return true;
    }

    /**
     * emblib_list_remove: fails, changing nothing, when the list is empty or
     * `index >= count`; otherwise returns the element at `index`, the
     * elements after it move one position down, `tail` steps back and
     * `count` shrinks.
     */
    method Remove(index: nat) returns (r: Option<T>)
      requires Valid()
      modifies this, arr
      ensures Valid()
      ensures r.Some? == (index < old(count))
      ensures r.Some? ==> r.value == old(Contents())[index]
      ensures r.Some? ==> Contents() == old(Contents())[..index] + old(Contents())[index + 1..]
      ensures r.Some? ==> head == old(head) && tail == (old(tail) - 1 + slots) % slots
      ensures r.Some? ==> count == old(count) - 1
      ensures r.None? ==> tail == old(tail) && count == old(count) && arr[..] == old(arr[..])
    {
      if IsEmpty() || index >= count {
        return None;
      }
      var size := Size();
      var removePos := (head + index) % size;
      ListSlots(head, index, size);
      r := Some(arr[removePos]);
      ShiftOut(arr, removePos, count);
      TailStepBack(tail, count, slots);
      tail := (tail - 1 + size) % size;
      count := count - 1;
    }

    /**
     * emblib_list_get: fails exactly when `index >= count`; otherwise returns
     * the element in slot `(head + index) % size`, which is the element at
     * position `index`. Nothing changes.
     */
    method Get(index: nat) returns (r: Option<T>)
      requires Valid()
      ensures r.Some? <==> index < |Contents()|
      ensures r.Some? ==> r.value == Contents()[index]
      ensures r.Some? ==> r.value == arr[(head + index) % Size()]
    {
      if index >= count {
        return None;
      }
      var size := Size();
      ModWrap(head + index, size);
      var pos := (head + index) % size;
      return Some(arr[pos]);
    }

    /**
     * Empties the list: both cursors and the count go back to 0. The
     * repository declares emblib_list_flush without defining it; this is
     * the ring buffer's reset without the free function.
     */
    method Flush()
      requires Valid()
      modifies this
      ensures Valid()
      ensures head == 0 && tail == 0 && count == 0 && Contents() == []
    {
      tail, head := 0, 0;
      count := 0;
    }
  }

  /**
   * The list tests: 1..5 inserted at positions 0..4 of a ten-slot list read
   * back in order; removing position 2 returns 3 and leaves 1, 2, 4, 5.
   */
  method InsertRemoveExample() returns (before: seq<int>, removed: Option<int>, after: seq<int>)
    ensures before == [1, 2, 3, 4, 5] && removed == Some(3) && after == [1, 2, 4, 5]
  {
    var a := new int[10];
    var l := List.Init(a, 40, 4);
    assert l.Size() == 10;
    InsertAll(l, [1, 2, 3, 4, 5]);
    before := ReadAll(l);
    removed := l.Remove(2);
    assert l.Contents() == [1, 2, 4, 5];
    after := ReadAll(l);
  }

  /** Inserts `xs[i]` at position `i`, for each `i` in turn, into an empty list. */
  method InsertAll<T>(l: List<T>, xs: seq<T>)
    requires l.Valid() && l.count == 0 && |xs| <= l.Size()
    modifies l, l.arr
    ensures l.Valid() && l.Contents() == xs
  {
    var i := 0;
    while i < |xs|
      invariant 0 <= i <= |xs|
      invariant l.Valid() && l.Contents() == xs[..i]
    {
      var ok := l.Insert(i, xs[i]);
      assert xs[..i] + [xs[i]] == xs[..i + 1];
      i := i + 1;
    }
  }

  /** Reads positions 0, 1, ... with Get until it fails. */
  method ReadAll<T>(l: List<T>) returns (out: seq<T>)
    requires l.Valid()
    ensures out == l.Contents()
  {
    out := [];
    var i := 0;
    var r := l.Get(i);
    while r.Some?
      invariant 0 <= i <= l.count
      invariant out == l.Contents()[..i]
      invariant r.Some? <==> i < l.count
      invariant r.Some? ==> r.value == l.Contents()[i]
      decreases l.count - i
    {
      out := out + [r.value];
      i := i + 1;
      r := l.Get(i);
    }
  }

  /** Inserting at positions 0..n-1 of an n-slot list fills it with count n. */
  method FillExample(n: nat) returns (full: bool, count: nat)
    requires n > 0
    ensures full && count == n
  {
    var a := new int[n];
    var l := List.Init(a, n, 1);
    var k := 0;
    while k < n
      invariant 0 <= k <= n
      invariant l.Valid() && l.arr == a && l.Size() == n && l.count == k
    {
      var ok := l.Insert(k, k);
      k := k + 1;
    }
    full, count := l.IsFull(), l.Count();
  }
}

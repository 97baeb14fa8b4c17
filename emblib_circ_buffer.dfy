/**
 * The current ring buffer of src/emblib_circ_buffer.c. A descriptor borrows
 * a caller's array and keeps `head` (oldest element), `tail` (next free
 * slot) and `count` as element indices, so a full and an empty buffer are
 * told apart by `count` alone. `capacity` is the array length in bytes;
 * the number of element slots, `Size()`, is `capacity / elemSize`.
 *
 * Elements are values of type T: the injected copy function is modelled as
 * assignment, and the injected free function as a ghost log `freed` of the
 * slot indices it was called on.
 */
module EmblibCircBuffer {
  import opened Optional

  /** `x % n` for `0 <= x < 2n`: one subtraction at most. */
  lemma ModWrap(x: int, n: int)
    requires 0 < n && 0 <= x < 2 * n
    ensures x % n == if x < n then x else x - n
  {
  }

  /** Distinct offsets below `n` from the same start land on distinct slots. */
  lemma ModDistinct(h: nat, i: nat, j: nat, n: nat)
    requires h < n && i < n && j < n && i != j
    ensures (h + i) % n != (h + j) % n
  {
    ModWrap(h + i, n);
    ModWrap(h + j, n);
  }

  /** Stepping one slot forward from `(h + i) % n` reaches `(h + i + 1) % n`. */
  lemma ModNext(h: nat, i: nat, n: nat)
    requires h < n && i < n
    ensures ((h + i) % n + 1) % n == (h + i + 1) % n
  {
    ModWrap(h + i, n);
    ModWrap(h + i + 1, n);
    if h + i < n {
      ModWrap((h + i) % n + 1, n);
    }
  }

  /** The `count` elements of a ring laid out in `a` from slot `head` on, wrapping at `size`. */
  ghost function Ring<T>(a: seq<T>, head: nat, count: nat, size: nat): (r: seq<T>)
    requires 0 < size <= |a| && head < size && count <= size
    ensures |r| == count
  {
    seq(count, i requires 0 <= i < count => a[(head + i) % size])
  }

  /** Writing `x` into the free slot after a ring appends `x` to it. */
  lemma RingAppend<T>(a: seq<T>, head: nat, count: nat, size: nat, x: T)
    requires 0 < size <= |a| && head < size && count < size
    ensures Ring(a[(head + count) % size := x], head, count + 1, size) == Ring(a, head, count, size) + [x]
  {
    var tail := (head + count) % size;
    forall i | 0 <= i < count
      ensures Ring(a[tail := x], head, count + 1, size)[i] == Ring(a, head, count, size)[i]
    {
      ModDistinct(head, i, count, size);
    }
  }

  /** Offsets from the slot after `h` are offsets from `h` plus one. */
  lemma ModShift(h: nat, i: nat, n: nat)
    requires h < n && i < n
    ensures ((h + 1) % n + i) % n == (h + 1 + i) % n
  {
    ModWrap(h + 1, n);
    if h + 1 == n {
      ModWrap(i, n);
      ModWrap(h + 1 + i, n);
    }
  }

  /** Advancing the start of a non-empty ring drops its first element, the one at `head`. */
  lemma RingPop<T>(a: seq<T>, head: nat, count: nat, size: nat)
    requires 0 < size <= |a| && head < size && 0 < count <= size
    ensures Ring(a, head, count, size)[0] == a[head]
    ensures Ring(a, (head + 1) % size, count - 1, size) == Ring(a, head, count, size)[1..]
  {
    ModWrap(head, size);
    ModWrap(head + 1, size);
    var r0 := Ring(a, head, count, size);
    var r1 := Ring(a, (head + 1) % size, count - 1, size);
    forall i | 0 <= i < count - 1
      ensures r1[i] == r0[1..][i]
    {
      ModShift(head, i, size);
    }
  }

  /** The slot after a ring of `count` elements, seen from the next start. */
  lemma TailAfterPop(head: nat, count: nat, size: nat)
    requires head < size && 0 < count <= size
    ensures ((head + 1) % size + (count - 1)) % size == (head + count) % size
  {
    ModWrap(head + 1, size);
    if head + 1 == size {
      ModWrap(count - 1, size);
      ModWrap(head + count, size);
    }
  }

  /**
   * Overwriting a full ring: advancing `head` and writing into the slot
   * `head` used to occupy drops the oldest element and appends `x`.
   */
  lemma RingOverwrite<T>(a: seq<T>, head: nat, size: nat, x: T)
    requires 0 < size <= |a| && head < size
    ensures Ring(a[head := x], (head + 1) % size, size, size) == Ring(a, head, size, size)[1..] + [x]
  {
    var h1 := (head + 1) % size;
    ModWrap(head + 1, size);
    RingPop(a, head, size, size);
    TailAfterPop(head, size, size);
    ModWrap(head + size, size);
    RingAppend(a, h1, size - 1, size, x);
  }

  /** The slot indices 0, 1, ..., n - 1. */
  ghost function Slots(n: nat): (r: seq<nat>)
    ensures |r| == n && forall i :: 0 <= i < n ==> r[i] == i
  {
    seq(n, i requires 0 <= i < n => i)
  }

  class CircBuffer<T> {
    var arr: array<T>
    var capacity: nat
    var elemSize: nat
    var head: nat
    var tail: nat
    var count: nat
    /** Whether a free function was supplied (free_fn != NULL). */
    var hasFree: bool
    /** The slots the free function has been called on, in call order. */
    ghost var freed: seq<nat>

    /**
     * The descriptor invariant: capacity is a whole number of elements that
     * fit in the array, both cursors are slots, and `tail` is `count` slots
     * past `head`.
     */
    ghost predicate Valid()
      reads this
    {
      && elemSize > 0 && capacity > 0 && capacity % elemSize == 0
      && capacity / elemSize <= arr.Length
      && head < capacity / elemSize && tail < capacity / elemSize
      && count <= capacity / elemSize
      && tail == (head + count) % (capacity / elemSize)
    }

    /** The elements in FIFO order, oldest first. */
    ghost function Contents(): seq<T>
      reads this, arr
      requires Valid()
    {
      Ring(arr[..], head, count, capacity / elemSize)
    }

    constructor Attach(a: array<T>, bufferLen: nat, sizeElem: nat, freeFn: bool)
      requires sizeElem > 0 && bufferLen > 0 && bufferLen % sizeElem == 0
      requires bufferLen / sizeElem <= a.Length
      ensures Valid() && arr == a && capacity == bufferLen && elemSize == sizeElem
      ensures head == 0 && tail == 0 && count == 0 && hasFree == freeFn && freed == []
    {
      arr, capacity, elemSize := a, bufferLen, sizeElem;
      head, tail, count := 0, 0, 0;
      hasFree, freed := freeFn, [];
    }

    /**
     * emblib_circ_buffer_init: fails unless the array and the copy function
     * are given, `bufferLen` and `sizeElem` are positive and `bufferLen` is a
     * multiple of `sizeElem`; on success the buffer is empty with both
     * cursors at slot 0, the capacity stored in bytes and the free function
     * recorded.
     */
    static method Init(a: array?<T>, bufferLen: nat, sizeElem: nat, copyFn: bool, freeFn: bool)
      returns (b: CircBuffer?<T>)
      requires a != null && sizeElem > 0 ==> bufferLen / sizeElem <= a.Length
      ensures (b != null) ==
              (a != null && bufferLen > 0 && sizeElem > 0 && bufferLen % sizeElem == 0 && copyFn)
      ensures b != null ==> fresh(b) && b.Valid() && b.arr == a && b.Contents() == []
      ensures b != null ==> b.capacity == bufferLen && b.elemSize == sizeElem
      ensures b != null ==> b.head == 0 && b.tail == 0 && b.count == 0
      ensures b != null ==> b.hasFree == freeFn && b.freed == []
    {
      if a != null && bufferLen > 0 && sizeElem > 0 && bufferLen % sizeElem == 0 && copyFn {
        b := new CircBuffer.Attach(a, bufferLen, sizeElem, freeFn);
      } else {
        b := null;
      }
    }

    /** emblib_circ_buffer_size: the number of element slots. */
    function Size(): (r: nat)
      reads this
      requires Valid()
      ensures r > 0 && r * elemSize == capacity && r <= arr.Length
    {
      capacity / elemSize
    }

    /** emblib_circ_buffer_capacity: the storage size in bytes. */
    function Capacity(): (r: nat)
      reads this
      requires Valid()
      ensures r == Size() * elemSize
    {
      capacity
    }

    /** emblib_circ_buffer_count: the number of stored elements. */
    function Count(): (r: nat)
      reads this, arr
      requires Valid()
      ensures r == |Contents()| && r <= Size()
    {
      count
    }

    /** emblib_circ_buffer_is_empty. */
    function IsEmpty(): (r: bool)
      reads this, arr
      requires Valid()
      ensures r <==> Contents() == []
    {
      count == 0
    }

    /** emblib_circ_buffer_is_full. */
    function IsFull(): (r: bool)
      reads this, arr
      requires Valid()
      ensures r <==> |Contents()| == Size()
    {
      count == Size()
    }

    /** emblib_circ_buffer_will_full: whether `n` more elements would not fit. */
    function WillFull(n: nat): (r: bool)
      reads this, arr
      requires Valid()
      ensures r <==> |Contents()| + n > Size()
    {
      Count() + n > Size()
    }

    /**
     * emblib_circ_buffer_insert: fails and changes nothing when no element is
     * given (a null `data` pointer, `None`) or the buffer is full; otherwise
     * writes the element at `tail`, advances `tail` and increments `count`.
     */
    method Insert(x: Option<T>) returns (ok: bool)
      requires Valid()
      modifies this, arr
      ensures Valid() && arr == old(arr) && capacity == old(capacity) && elemSize == old(elemSize)
      ensures hasFree == old(hasFree) && freed == old(freed)
      ensures ok == (x.Some? && old(count) < Size())
      ensures ok ==> Contents() == old(Contents()) + [x.value]
      ensures ok ==> arr[..] == old(arr[..])[old(tail) := x.value]
      ensures ok ==> head == old(head) && tail == (old(tail) + 1) % Size() && count == old(count) + 1
      ensures !ok ==> head == old(head) && tail == old(tail) && count == old(count)
      ensures !ok ==> arr[..] == old(arr[..])
    {
      if x.None? || IsFull() {
        return false;
      }
      RingAppend(arr[..], head, count, Size(), x.value);
      arr[tail] := x.value;
      ModNext(head, count, Size());
      tail := (tail + 1) % Size();
      count := count + 1;
      return true;
    }

    /**
     * emblib_circ_buffer_insert_overwrite: fails and changes nothing only
     * when no element is given (a null `data` pointer, `None`). On a full buffer
     * the oldest element is dropped by advancing `head` and `count` stays;
     * otherwise `count` grows. Either way `x` goes to `tail` and `tail`
     * advances. The dropped element is not passed to the free function.
     */
    method InsertOverwrite(x: Option<T>) returns (ok: bool)
      requires Valid()
      modifies this, arr
      ensures Valid() && arr == old(arr) && capacity == old(capacity) && elemSize == old(elemSize)
      ensures hasFree == old(hasFree) && freed == old(freed)
      ensures ok == x.Some?
      ensures !ok ==> head == old(head) && tail == old(tail) && count == old(count) && arr[..] == old(arr[..])
      ensures ok ==> arr[..] == old(arr[..])[old(tail) := x.value]
      ensures ok ==> tail == (old(tail) + 1) % Size()
      ensures ok && old(count) == Size() ==> head == (old(head) + 1) % Size() && count == old(count)
      ensures ok && old(count) == Size() ==> Contents() == old(Contents())[1..] + [x.value]
      ensures ok && old(count) < Size() ==> head == old(head) && count == old(count) + 1
      ensures ok && old(count) < Size() ==> Contents() == old(Contents()) + [x.value]
    {
      if x.None? {
        return false;
      }
      Overwrite(x.value);
      return true;
    }

    /**
     * The write of emblib_circ_buffer_insert_overwrite once an element is
     * given: drops the oldest element of a full buffer, then writes `v` at
     * `tail` and advances `tail`.
     */
    method Overwrite(v: T)
      requires Valid()
      modifies this, arr
      ensures Valid() && arr == old(arr) && capacity == old(capacity) && elemSize == old(elemSize)
      ensures hasFree == old(hasFree) && freed == old(freed)
      ensures arr[..] == old(arr[..])[old(tail) := v]
      ensures tail == (old(tail) + 1) % Size()
      ensures old(count) == Size() ==> head == (old(head) + 1) % Size() && count == old(count)
      ensures old(count) == Size() ==> Contents() == old(Contents())[1..] + [v]
      ensures old(count) < Size() ==> head == old(head) && count == old(count) + 1
      ensures old(count) < Size() ==> Contents() == old(Contents()) + [v]
    {
      var size := Size();
      if IsFull() {
        ModWrap(head + count, size);
        assert tail == head;
        RingOverwrite(arr[..], head, size, v);
        head := (head + 1) % size;
        arr[tail] := v;
        tail := (tail + 1) % size;
        assert tail == head;
        ModWrap(head + count, size);
      } else {
        RingAppend(arr[..], head, count, size, v);
        count := count + 1;
        arr[tail] := v;
        ModNext(head, count - 1, size);
        tail := (tail + 1) % size;
      }
    }

    /**
     * emblib_circ_buffer_retrieve: on an empty buffer fails and changes
     * nothing; otherwise returns the element at `head`, advances `head` and
     * decrements `count`.
     */
    method Retrieve() returns (r: Option<T>)
      requires Valid()
      modifies this
      ensures Valid() && arr == old(arr) && capacity == old(capacity) && elemSize == old(elemSize)
      ensures hasFree == old(hasFree) && freed == old(freed)
      ensures r.Some? == (old(count) > 0)
      ensures r.Some? ==> r.value == old(Contents())[0] && Contents() == old(Contents())[1..]
      ensures r.Some? ==> head == (old(head) + 1) % Size() && tail == old(tail) && count == old(count) - 1
      ensures r.None? ==> head == old(head) && tail == old(tail) && count == old(count)
    {
      if IsEmpty() {
        return None;
      }
      RingPop(arr[..], head, count, Size());
      TailAfterPop(head, count, Size());
      r := Some(arr[head]);
      head := (head + 1) % Size();
      count := count - 1;
    }

    /**
     * emblib_circ_buffer_peek: fails exactly on an empty buffer; otherwise
     * returns the element at `head`. Nothing changes.
     */
    method Peek() returns (r: Option<T>)
      requires Valid()
      ensures r.Some? <==> Contents() != []
      ensures r.Some? ==> r.value == Contents()[0] && r.value == arr[head]
    {
      if count == 0 {
        return None;
      }
      RingPop(arr[..], head, count, Size());
      return Some(arr[head]);
    }

    /**
     * emblib_circ_buffer_flush: resets both cursors and the count to 0.
     * When a free function is configured it is first called on the first
     * `count` array slots, counted from the start of the array rather than
     * from `head`.
     */
    method Flush()
      requires Valid()
      modifies this
      ensures Valid() && arr == old(arr) && capacity == old(capacity) && elemSize == old(elemSize)
      ensures hasFree == old(hasFree)
      ensures head == 0 && tail == 0 && count == 0 && Contents() == []
      ensures freed == old(freed) + (if hasFree then Slots(old(count)) else [])
    {
      tail, head := 0, 0;
      if hasFree {
        ghost var log := freed;
        var i := 0;
        while i < count
          invariant 0 <= i <= count
          invariant log == old(freed) + Slots(i)
        {
          log := log + [i];
          i := i + 1;
        }
        freed := log;
      }
      count := 0;
    }
  }

  /** Retrieves until the buffer is empty: the elements come out in FIFO order. */
  method Drain<T>(b: CircBuffer<T>) returns (out: seq<T>)
    requires b.Valid()
    modifies b
    ensures b.Valid() && b.arr == old(b.arr) && b.count == 0
    ensures out == old(b.Contents())
  {
    out := [];
    while b.count > 0
      invariant b.Valid() && b.arr == old(b.arr)
      invariant out + b.Contents() == old(b.Contents())
      decreases b.count
    {
      ghost var before := b.Contents();
      var r := b.Retrieve();
      DrainStep(out, before, r.value, b.Contents());
      out := out + [r.value];
    }
  }

  /** Moving the first remaining element to the end of what was taken keeps their concatenation. */
  lemma DrainStep<T>(out: seq<T>, before: seq<T>, x: T, after: seq<T>)
    requires |before| > 0 && x == before[0] && after == before[1..]
    ensures (out + [x]) + after == out + before
  {
    assert before == [x] + after;
  }

  /** The start of the overwrite test: 1 and 2 inserted in overwrite mode into five int slots. */
  method TwoOverwritten() returns (b: CircBuffer<int>)
    ensures fresh(b) && fresh(b.arr) && b.Valid() && b.Size() == 5
    ensures b.count == 2 && b.head == 0 && b.tail == 2 && b.Contents() == [1, 2]
  {
    var a := new int[5];
    b := CircBuffer.Init(a, 20, 4, true, false);
    assert b.Size() == 5;
    var ok := b.InsertOverwrite(Some(1));
    assert b.Contents() == [1] && b.head == 0 && b.tail == 1;
    ok := b.InsertOverwrite(Some(2));
  }

  /** The first half of the overwrite test: 1..5 inserted in overwrite mode fill five int slots. */
  method FiveOverwritten() returns (b: CircBuffer<int>)
    ensures fresh(b) && fresh(b.arr) && b.Valid() && b.Size() == 5
    ensures b.count == 5 && b.head == 0 && b.tail == 0 && b.Contents() == [1, 2, 3, 4, 5]
  {
    b := TwoOverwritten();
    var ok := b.InsertOverwrite(Some(3));
    assert b.Contents() == [1, 2, 3] && b.head == 0 && b.tail == 3;
    ok := b.InsertOverwrite(Some(4));
    assert b.Contents() == [1, 2, 3, 4] && b.head == 0 && b.tail == 4;
    ok := b.InsertOverwrite(Some(5));
  }

  /**
   * The overwrite test: five int slots, 1..6 inserted in overwrite mode,
   * leave count 5 with both cursors at slot 1, and drain as 2..6.
   */
  method OverwriteExample() returns (count: nat, head: nat, tail: nat, drained: seq<int>)
    ensures count == 5 && head == 1 && tail == 1
    ensures drained == [2, 3, 4, 5, 6]
  {
    var b := FiveOverwritten();
    var ok := b.InsertOverwrite(Some(6));
    assert b.Contents() == [2, 3, 4, 5, 6];
    count, head, tail := b.count, b.head, b.tail;
    drained := Drain(b);
  }

  /**
   * The wrap-around test: with five slots, 10, 20, 30 in, one out, then
   * 40, 50, 60 in (the last one wrapping to slot 0), and five retrieves
   * return 20, 30, 40, 50, 60 in order.
   */
  method WrapAroundExample() returns (out: seq<int>)
    ensures out == [20, 30, 40, 50, 60]
  {
    var b := TwoAfterRetrieve();
    var ok := b.Insert(Some(40));
    assert b.Contents() == [20, 30, 40] && b.count == 3;
    ok := b.Insert(Some(50));
    assert b.Contents() == [20, 30, 40, 50] && b.count == 4;
    ok := b.Insert(Some(60));
    assert b.Contents() == [20, 30, 40, 50, 60];
    out := Drain(b);
  }

  /** The first half of the wrap-around test: 10, 20, 30 in and 10 out of five slots. */
  method TwoAfterRetrieve() returns (b: CircBuffer<int>)
    ensures fresh(b) && fresh(b.arr) && b.Valid() && b.Size() == 5 && b.count == 2 && b.Contents() == [20, 30]
  {
    var a := new int[5];
    var c := CircBuffer.Init(a, 20, 4, true, false);
    b := c;
    assert b.Size() == 5;
    var ok := b.Insert(Some(10));
    assert b.Contents() == [10] && b.count == 1;
    ok := b.Insert(Some(20));
    assert b.Contents() == [10, 20] && b.count == 2;
    ok := b.Insert(Some(30));
    assert b.Contents() == [10, 20, 30] && b.count == 3;
    var first := b.Retrieve();
  }

  /** The will-full test: five slots holding three elements take two more but not three. */
  method WillFullExample() returns (before3: bool, after3: bool, after2: bool)
    ensures !before3 && after3 && !after2
  {
    var a := new int[5];
    var b := CircBuffer.Init(a, 20, 4, true, false);
    before3 := b.WillFull(3);
    var ok := b.Insert(Some(10));
    ok := b.Insert(Some(10));
    ok := b.Insert(Some(10));
    after3, after2 := b.WillFull(3), b.WillFull(2);
  }

  /**
   * Without an element (a null `data` pointer) both inserts fail on a
   * buffer with free slots, and the buffer stays empty.
   */
  method NullDataExample() returns (inserted: bool, overwritten: bool, count: nat)
    ensures !inserted && !overwritten && count == 0
  {
    var a := new int[5];
    var b := CircBuffer.Init(a, 20, 4, true, true);
    assert b.hasFree;
    inserted := b.Insert(None);
    overwritten := b.InsertOverwrite(None);
    count := b.Count();
  }
}

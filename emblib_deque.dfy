/**
 * The double-ended queue of src/emblib_deque.c. A deque is the ring buffer
 * descriptor itself: pushing at the back and popping at the front are the
 * ring buffer's insert and retrieve, and the deque adds pushing at the front
 * and popping at the back by stepping `head` and `tail` one slot backwards,
 * `(i - 1 + size) % size`.
 */
module EmblibDeque {
  import opened Optional
  import opened EmblibCircBuffer

  /** One slot back from `i`, wrapping from slot 0 to slot `n - 1`. */
  lemma StepBack(i: nat, n: nat)
    requires i < n
    ensures (i + n - 1) % n == if i == 0 then n - 1 else i - 1
    ensures (((i + n - 1) % n) + 1) % n == i
  {
    ModWrap(i + n - 1, n);
    ModWrap((i + n - 1) % n + 1, n);
  }

  /** Writing `x` into the slot before a ring's start prepends `x` to it. */
  lemma RingPrepend<T>(a: seq<T>, head: nat, count: nat, size: nat, x: T)
    requires 0 < size <= |a| && head < size && count < size
    ensures Ring(a[(head + size - 1) % size := x], (head + size - 1) % size, count + 1, size)
            == [x] + Ring(a, head, count, size)
  {
    var h := (head + size - 1) % size;
    StepBack(head, size);
    var r1 := Ring(a[h := x], h, count + 1, size);
    var r0 := Ring(a, head, count, size);
    forall i | 0 <= i < count + 1
      ensures r1[i] == ([x] + r0)[i]
    {
      if i == 0 {
        ModWrap(h, size);
      } else {
        ModShift(h, i - 1, size);
        ModDistinct(h, 0, i, size);
        ModWrap(h, size);
      }
    }
  }

  /** Dropping the last element of a non-empty ring: the element is in the slot before `tail`. */
  lemma RingDropLast<T>(a: seq<T>, head: nat, count: nat, size: nat)
    requires 0 < size <= |a| && head < size && 0 < count <= size
    ensures Ring(a, head, count, size)[count - 1] == a[((head + count) % size + size - 1) % size]
    ensures Ring(a, head, count - 1, size) == Ring(a, head, count, size)[..count - 1]
  {
    var t := (head + count) % size;
    StepBack(t, size);
    ModWrap(head + count, size);
    ModWrap(head + count - 1, size);
  }

  /**
   * emblib_deque_push_front: fails on a full deque; otherwise moves `head`
   * one slot back, writes `x` there and increments `count`. `tail` stays.
   */
  method PushFront<T>(d: CircBuffer<T>, x: T) returns (ok: bool)
    requires d.Valid()
    modifies d, d.arr
    ensures d.Valid() && d.arr == old(d.arr) && d.capacity == old(d.capacity) && d.elemSize == old(d.elemSize)
    ensures d.hasFree == old(d.hasFree) && d.freed == old(d.freed)
    ensures ok == (old(d.count) < d.Size())
    ensures ok ==> d.Contents() == [x] + old(d.Contents())
    ensures ok ==> d.head == (old(d.head) - 1 + d.Size()) % d.Size() && d.arr[d.head] == x
    ensures ok ==> d.tail == old(d.tail) && d.count == old(d.count) + 1
    ensures !ok ==> d.head == old(d.head) && d.tail == old(d.tail) && d.count == old(d.count)
    ensures !ok ==> d.arr[..] == old(d.arr[..])
  {
    if d.IsFull() {
      return false;
    }
    var size := d.Size();
    RingPrepend(d.arr[..], d.head, d.count, size, x);
    StepBack(d.head, size);
    d.head := (d.head - 1 + size) % size;
    d.arr[d.head] := x;
    d.count := d.count + 1;
    ModWrap(d.head + d.count, size);
    ModWrap(old(d.head) + old(d.count), size);
    return true;
  }

  /**
   * emblib_deque_push_back: the ring buffer's insert, so it also fails,
   * changing nothing, when no element is given (a null `data`, `None`).
   */
  method PushBack<T>(d: CircBuffer<T>, x: Option<T>) returns (ok: bool)
    requires d.Valid()
    modifies d, d.arr
    ensures d.Valid() && d.arr == old(d.arr) && d.capacity == old(d.capacity) && d.elemSize == old(d.elemSize)
    ensures d.hasFree == old(d.hasFree) && d.freed == old(d.freed)
    ensures ok == (x.Some? && old(d.count) < d.Size())
    ensures ok ==> d.Contents() == old(d.Contents()) + [x.value]
    ensures ok ==> d.head == old(d.head) && d.tail == (old(d.tail) + 1) % d.Size() && d.count == old(d.count) + 1
    ensures !ok ==> d.head == old(d.head) && d.tail == old(d.tail) && d.count == old(d.count)
    ensures !ok ==> d.arr[..] == old(d.arr[..]) && d.Contents() == old(d.Contents())
  {
    ok := d.Insert(x);
  }

  /** emblib_deque_pop_front: the ring buffer's retrieve. */
  method PopFront<T>(d: CircBuffer<T>) returns (r: Option<T>)
    requires d.Valid()
    modifies d
    ensures d.Valid() && d.arr == old(d.arr) && d.capacity == old(d.capacity) && d.elemSize == old(d.elemSize)
    ensures d.hasFree == old(d.hasFree) && d.freed == old(d.freed)
    ensures r.Some? == (old(d.count) > 0)
    ensures r.Some? ==> r.value == old(d.Contents())[0] && d.Contents() == old(d.Contents())[1..]
    ensures r.Some? ==> d.tail == old(d.tail) && d.count == old(d.count) - 1
    ensures r.None? ==> d.head == old(d.head) && d.tail == old(d.tail) && d.count == old(d.count)
  {
    r := d.Retrieve();
  }

  /**
   * emblib_deque_pop_back: fails on an empty deque; otherwise moves `tail`
   * one slot back, returns the element there and decrements `count`.
   */
  method PopBack<T>(d: CircBuffer<T>) returns (r: Option<T>)
    requires d.Valid()
    modifies d
    ensures d.Valid() && d.arr == old(d.arr) && d.capacity == old(d.capacity) && d.elemSize == old(d.elemSize)
    ensures d.hasFree == old(d.hasFree) && d.freed == old(d.freed)
    ensures r.Some? == (old(d.count) > 0)
    ensures r.Some? ==> r.value == old(d.Contents())[old(d.count) - 1]
    ensures r.Some? ==> d.Contents() == old(d.Contents())[..old(d.count) - 1]
    ensures r.Some? ==> d.tail == (old(d.tail) - 1 + d.Size()) % d.Size() && d.head == old(d.head)
    ensures r.Some? ==> d.count == old(d.count) - 1
    ensures r.None? ==> d.head == old(d.head) && d.tail == old(d.tail) && d.count == old(d.count)
  {
    if d.IsEmpty() {
      return None;
    }
    var size := d.Size();
    RingDropLast(d.arr[..], d.head, d.count, size);
    StepBack(d.tail, size);
    d.tail := (d.tail - 1 + size) % size;
    r := Some(d.arr[d.tail]);
    d.count := d.count - 1;
    ModWrap(d.head + d.count, size);
    ModWrap(d.head + old(d.count), size);
  }

  /** emblib_deque_peek_front: the element at `head`, if any; nothing changes. */
  method PeekFront<T>(d: CircBuffer<T>) returns (r: Option<T>)
    requires d.Valid()
    ensures r.Some? <==> d.Contents() != []
    ensures r.Some? ==> r.value == d.Contents()[0] && r.value == d.arr[d.head]
  {
    if d.IsEmpty() {
      return None;
    }
    RingPop(d.arr[..], d.head, d.count, d.Size());
    return Some(d.arr[d.head]);
  }

  /**
   * emblib_deque_peek_back: the element in the slot before `tail`, which is
   * the newest element, if any; nothing changes.
   */
  method PeekBack<T>(d: CircBuffer<T>) returns (r: Option<T>)
    requires d.Valid()
    ensures r.Some? <==> d.Contents() != []
    ensures r.Some? ==> r.value == d.Contents()[|d.Contents()| - 1]
    ensures r.Some? ==> r.value == d.arr[(d.tail - 1 + d.Size()) % d.Size()]
  {
    if d.IsEmpty() {
      return None;
    }
    var size := d.Size();
    RingDropLast(d.arr[..], d.head, d.count, size);
    var backIndex := (d.tail - 1 + size) % size;
    return Some(d.arr[backIndex]);
  }

  /**
   * The deque tests: on a five-slot deque, an element pushed at the front
   * comes back from the front, and one pushed at the back comes back from
   * the back; each time the deque is empty again.
   */
  method PushPopExample(x: int, y: int) returns (front: Option<int>, back: Option<int>, count: nat)
    ensures front == Some(x) && back == Some(y) && count == 0
  {
    var a := new int[5];
    var d := CircBuffer.Init(a, 20, 4, true, false);
    var ok := PushFront(d, x);
    front := PopFront(d);
    ok := PushBack(d, Some(y));
    back := PopBack(d);
    count := d.Count();
  }

  /** After as many successful pushes as there are slots, the deque is full. */
  method FillExample(n: nat, x: int) returns (full: bool)
    requires n > 0
    ensures full
  {
    var a := new int[n];
    var d := CircBuffer.Init(a, n, 1, true, false);
    var k := 0;
    while k < n
      invariant 0 <= k <= n
      invariant d.Valid() && d.arr == a && d.Size() == n && d.count == k
    {
      var ok := PushBack(d, Some(x));
      k := k + 1;
    }
    full := d.IsFull();
  }
}

/**
 * The legacy ring buffer of src/circ_buffer.c. It works on a caller's byte
 * buffer of `size` bytes holding elements of `sizeElem` bytes. Unlike the
 * current ring buffer, the cursors are byte offsets and the roles of the
 * names are swapped: `head` is where the next element is written and
 * `tail` is where the oldest element is read. There is no count field; the
 * count is computed from the two offsets, and the flag `isFull` tells a
 * full buffer from an empty one when `head == tail`.
 *
 * The C functions start with `assert`s on their pointer arguments; the
 * model follows a build with those compiled out, where the `if` tests on
 * the same pointers decide what happens. The `items` field of the C
 * structure is never read or written by these functions and is left out.
 */
module LegacyCircBuffer {
  import opened EmblibUtil
  import opened ByteRing

  class CircBuffer {
    var buf: array?<u8>
    var size: nat
    var sizeElem: nat
    /** Byte offset of the next write. */
    var head: nat
    /** Byte offset of the next read. */
    var tail: nat
    var isFull: bool

    /**
     * A usable descriptor: a buffer holding a whole number of elements,
     * both offsets element-aligned inside it, and the full flag only set
     * when the offsets meet.
     */
    ghost predicate Valid()
      reads this
    {
      && buf != null && Slot(head, sizeElem, size) && Slot(tail, sizeElem, size)
      && size % sizeElem == 0 && size <= buf.Length
      && (isFull ==> head == tail)
    }

    /** circ_buffer_size: the number of element slots. */
    function Size(): (r: nat)
      reads this
      requires Valid()
      ensures r > 0 && r * sizeElem == size
      ensures head / sizeElem < r && tail / sizeElem < r
    {
      OffsetSlot(head, sizeElem, size / sizeElem);
      OffsetSlot(tail, sizeElem, size / sizeElem);
      size / sizeElem
    }

    /**
     * circ_buffer_count: the element count computed from the offsets. It is
     * the number of slots from the read offset up to the write offset, or
     * every slot when the full flag is set.
     */
    function Count(): (r: nat)
      reads this
      requires Valid()
      ensures r <= Size()
      ensures isFull ==> r == Size()
      ensures !isFull ==> r < Size() && (tail / sizeElem + r) % Size() == head / sizeElem
      ensures r == 0 <==> !isFull && head == tail
    {
      CountDistance(head, tail, sizeElem, Size());
      if !isFull then
        if head >= tail then (head - tail) / sizeElem
        else (size - (tail - head)) / sizeElem
      else
        Size()
    }

    /** The stored elements, oldest first, each `sizeElem` bytes long. */
    ghost function Contents(): (r: seq<seq<u8>>)
      reads this, buf
      requires Valid()
      ensures |r| == Count()
    {
      Elements(buf[..], sizeElem, Size(), tail / sizeElem, Count())
    }

    /**
     * circ_buffer_init: fails only for a missing descriptor. Otherwise the
     * descriptor takes the buffer and both sizes as given, with both
     * offsets at 0 and the full flag clear; the arguments are not checked,
     * so the result is usable exactly when they describe a buffer of whole
     * elements, and it is then empty.
     */
    static method Init(cb: CircBuffer?, a: array?<u8>, bufferLen: nat, sizeElem: nat) returns (ok: bool)
      modifies cb
      ensures ok == (cb != null)
      ensures ok ==> cb.buf == a && cb.size == bufferLen && cb.sizeElem == sizeElem
      ensures ok ==> cb.head == 0 && cb.tail == 0 && !cb.isFull
      ensures ok ==> (cb.Valid() <==>
                      a != null && bufferLen > 0 && sizeElem > 0 && bufferLen % sizeElem == 0 && bufferLen <= a.Length)
      ensures ok && cb.Valid() ==> cb.Count() == 0 && cb.Contents() == []
    {
      if cb == null {
        return false;
      }
      if sizeElem > 0 && bufferLen > 0 && bufferLen % sizeElem == 0 {
        WholeElements(bufferLen, sizeElem);
      }
      cb.buf, cb.size, cb.sizeElem := a, bufferLen, sizeElem;
      cb.head, cb.tail, cb.isFull := 0, 0, false;
      return true;
    }

    /**
     * circ_buffer_insert: fails, changing nothing, for a missing element or
     * a full buffer. Otherwise the element's bytes are written at `head`,
     * `head` moves one element on (wrapping), and the full flag is set
     * exactly when it has caught up with `tail`. The element joins the
     * contents at the end.
     */
    method Insert(data: array?<u8>) returns (ok: bool)
      requires Valid()
      requires data != null ==> sizeElem <= data.Length
      modifies this, buf
      ensures Valid() && buf == old(buf) && size == old(size) && sizeElem == old(sizeElem)
      ensures ok == (data != null && old(Count()) < Size())
      ensures ok ==> Contents() == old(Contents()) + [old(data[..sizeElem])]
      ensures ok ==> Count() == old(Count()) + 1
      ensures ok ==> head == (old(head) + sizeElem) % size && tail == old(tail) && isFull == (head == tail)
      ensures ok ==> buf[..] == Write(old(buf[..]), old(head), old(data[..sizeElem]))
      ensures !ok ==> head == old(head) && tail == old(tail) && isFull == old(isFull)
      ensures !ok ==> buf[..] == old(buf[..])
    {
      if data == null || Count() >= Size() {
        return false;
      }
      Put(data[..sizeElem]);
      if head == tail {
        isFull := true;
      }
      return true;
    }

    /**
     * circ_buffer_insert_overwrite, as written: with an element, the full
     * flag is cleared first and never set again, so the computed count is
     * then below the slot count and the write always happens: the bytes go
     * to `head` and `head` moves on. A buffer that was full is left with
     * the new element alone, and one that this write fills reads as empty.
     */
    method InsertOverwrite(data: array?<u8>) returns (ok: bool)
      requires Valid()
      requires data != null ==> sizeElem <= data.Length
      modifies this, buf
      ensures Valid() && buf == old(buf) && size == old(size) && sizeElem == old(sizeElem)
      ensures ok == (data != null)
      ensures ok ==> head == (old(head) + sizeElem) % size && tail == old(tail) && !isFull
      ensures ok ==> buf[..] == Write(old(buf[..]), old(head), old(data[..sizeElem]))
      ensures ok ==> Count() == (if old(isFull) then 1 else old(Count()) + 1) % Size()
      ensures ok && old(isFull) && Size() > 1 ==> Contents() == [old(data[..sizeElem])]
      ensures ok && !old(isFull) && old(Count()) + 1 < Size() ==>
                Contents() == old(Contents()) + [old(data[..sizeElem])]
      ensures ok && !old(isFull) && old(Count()) + 1 == Size() ==> Contents() == []
      ensures !ok ==> head == old(head) && tail == old(tail) && isFull == old(isFull)
      ensures !ok ==> buf[..] == old(buf[..])
    {
      if data == null {
        return false;
      }
      isFull := false;
      if Count() < Size() {
        EmblibCircBuffer.ModWrap(Count() + 1, Size());
        Put(data[..sizeElem]);
        ok := true;
      }
    }

    /**
     * The write shared by both inserts, on a buffer that is not full: the
     * bytes of `d` go to `head` and `head` moves one element on. Unless that
     * fills the buffer, `d` joins the contents at the end; when it does,
     * the offsets meet and the ring of every slot from `tail` ends in `d`.
     */
    method Put(d: seq<u8>)
      requires Valid() && !isFull && |d| == sizeElem
      modifies this, buf
      ensures Valid() && buf == old(buf) && size == old(size) && sizeElem == old(sizeElem)
      ensures head == (old(head) + sizeElem) % size && tail == old(tail) && !isFull
      ensures buf[..] == Write(old(buf[..]), old(head), d)
      ensures (head == tail) == (old(Count()) + 1 == Size())
      ensures old(Count()) + 1 < Size() ==> Count() == old(Count()) + 1
      ensures Elements(buf[..], sizeElem, Size(), tail / sizeElem, old(Count()) + 1)
              == old(Contents()) + [d]
    {
      var n := Size();
      ghost var c0 := Count();
      ghost var t := tail / sizeElem;
      ghost var h := head / sizeElem;
      ghost var b0 := buf[..];
      OffsetSlot(head, sizeElem, n);
      OffsetStep(head, sizeElem, n);
      ElementsAppend(b0, sizeElem, n, t, c0, d);
      assert Elements(b0, sizeElem, n, t, c0) == Contents();
      var nextHead := (head + sizeElem) % size;
      RingStep(t, c0, h, n);
      SameSlot(nextHead, tail, sizeElem, n);
      RingWraps(t, c0 + 1, n);
      MemCpy(buf, head, d);
      head := nextHead;
      assert Size() == n && tail / sizeElem == t;
      if c0 + 1 < n {
        DistanceUnique(t, Count(), c0 + 1, n);
      }
    }

    /**
     * circ_buffer_retrieve, as written: there is no emptiness test. The
     * element at `tail` is copied out when an output buffer is given,
     * `tail` moves one element on, the full flag is cleared, and 1 is
     * returned, also on an empty buffer, which then counts one element
     * short of full.
     */
    method Retrieve(data: array?<u8>) returns (count: nat)
      requires Valid()
      requires data != null ==> sizeElem <= data.Length && data != buf
      modifies this, data
      ensures Valid() && buf == old(buf) && size == old(size) && sizeElem == old(sizeElem)
      ensures count == 1
      ensures tail == (old(tail) + sizeElem) % size && head == old(head) && !isFull
      ensures data != null ==>
                data[..] == Write(old(data[..]), 0, buf[old(tail)..old(tail) + sizeElem])
      ensures old(Count()) > 0 ==> Count() == old(Count()) - 1 && Contents() == old(Contents())[1..]
      ensures old(Count()) > 0 && data != null ==> data[..sizeElem] == old(Contents())[0]
      ensures old(Count()) == 0 ==> Count() == Size() - 1
    {
      if data != null {
        CopyOut(data);
      }
      AdvanceTail();
      return 1;
    }

    /**
     * The copy of circ_buffer_retrieve: the element at the read offset goes
     * to the front of `data`, and it is the oldest element when there is one.
     */
    method CopyOut(data: array<u8>)
      requires Valid() && sizeElem <= data.Length && data != buf
      modifies data
      ensures data[..] == Write(old(data[..]), 0, buf[tail..tail + sizeElem])
      ensures Count() > 0 ==> data[..sizeElem] == Contents()[0]
    {
      OffsetSlot(tail, sizeElem, Size());
      if Count() > 0 {
        ElementsPop(buf[..], sizeElem, Size(), tail / sizeElem, Count());
      }
      MemCpy(data, 0, buf[tail..tail + sizeElem]);
    }

    /**
     * The read offset of circ_buffer_retrieve moving one element on, with
     * the full flag cleared: the oldest element leaves the contents, and an
     * empty buffer wraps round to one element short of full.
     */
    method AdvanceTail()
      requires Valid()
      modifies this
      ensures Valid() && buf == old(buf) && size == old(size) && sizeElem == old(sizeElem)
      ensures tail == (old(tail) + sizeElem) % size && head == old(head) && !isFull
      ensures tail / sizeElem == (old(tail) / sizeElem + 1) % Size()
      ensures old(Count()) > 0 ==> Count() == old(Count()) - 1 && Contents() == old(Contents())[1..]
      ensures old(Count()) == 0 ==> Count() == Size() - 1
    {
      var n := Size();
      ghost var c0 := Count();
      ghost var t := tail / sizeElem;
      ghost var h := head / sizeElem;
      OffsetSlot(head, sizeElem, n);
      OffsetSlot(tail, sizeElem, n);
      OffsetStep(tail, sizeElem, n);
      tail, isFull := (tail + sizeElem) % size, false;
      assert Size() == n && tail / sizeElem == (t + 1) % n;
      PopDistance(t, c0, h, n, Count());
      if c0 > 0 {
        PopContents(this);
      }
    }

    /** circ_buffer_is_empty: the computed count is 0. */
    function IsEmpty(): (r: bool)
      reads this
      requires Valid()
      ensures r <==> !isFull && head == tail
    {
      Count() == 0
    }

    /** circ_buffer_is_full: the full flag. */
    function IsFull(): (r: bool)
      reads this
      requires Valid()
      ensures r <==> Count() == Size()
    {
      isFull
    }

    /**
     * circ_buffer_will_full: whether `n` more BYTES would not fit, i.e. the
     * bytes in use plus `n` exceed the buffer size.
     */
    function WillFull(n: nat): (r: bool)
      reads this
      requires Valid()
      ensures r <==> n > (Size() - Count()) * sizeElem
    {
      MulAdd(Count(), Size() - Count(), sizeElem);
      Count() * sizeElem + n > size
    }

    /**
     * circ_buffer_insert_overwrite as its header describes it: on a full
     * buffer the oldest element is dropped to make room, so the newest
     * `Size()` elements are kept; otherwise it is an insert.
     */
    method InsertOverwriteFixed(data: array?<u8>) returns (ok: bool)
      requires Valid()
      requires data != null ==> sizeElem <= data.Length && data != buf
      modifies this, buf
      ensures Valid() && buf == old(buf) && size == old(size) && sizeElem == old(sizeElem)
      ensures ok == (data != null)
      ensures ok && old(Count()) < Size() ==> Contents() == old(Contents()) + [old(data[..sizeElem])]
      ensures ok && old(Count()) == Size() ==> Contents() == old(Contents())[1..] + [old(data[..sizeElem])]
      ensures ok ==> Count() == if old(Count()) < Size() then old(Count()) + 1 else Size()
      ensures !ok ==> head == old(head) && tail == old(tail) && isFull == old(isFull)
      ensures !ok ==> buf[..] == old(buf[..])
    {
      if data == null {
        return false;
      }
      if IsFull() {
        AdvanceTail();
      }
      ok := Insert(data);
    }

    /**
     * circ_buffer_retrieve as its header describes it, returning the number
     * of elements retrieved: 0 from an empty buffer, which is left as it
     * was, and otherwise 1, with the oldest element copied out.
     */
    method RetrieveChecked(data: array?<u8>) returns (count: nat)
      requires Valid()
      requires data != null ==> sizeElem <= data.Length && data != buf
      modifies this, data
      ensures Valid() && buf == old(buf) && size == old(size) && sizeElem == old(sizeElem)
      ensures count == if old(Count()) > 0 then 1 else 0
      ensures count == 1 ==> Count() == old(Count()) - 1 && Contents() == old(Contents())[1..]
      ensures count == 1 && data != null ==> data[..sizeElem] == old(Contents())[0]
      ensures count == 0 ==> head == old(head) && tail == old(tail) && isFull == old(isFull)
      ensures count == 0 && data != null ==> data[..] == old(data[..])
    {
      if IsEmpty() {
        return 0;
      }
      count := Retrieve(data);
    }

    /** circ_buffer_flush: both offsets back to 0 and the flag cleared; always succeeds. */
    method Flush() returns (ok: bool)
      requires Valid()
      modifies this
      ensures Valid() && buf == old(buf) && size == old(size) && sizeElem == old(sizeElem)
      ensures ok && head == 0 && tail == 0 && !isFull
      ensures Count() == 0 && Contents() == []
    {
      tail, head := 0, 0;
      isFull := false;
      return true;
    }
  }

  /**
   * A read offset moved on by one element over unchanged bytes, with the
   * count one lower, drops the oldest element from the contents.
   */
  twostate lemma PopContents(cb: CircBuffer)
    requires old(cb.Valid()) && cb.Valid()
    requires cb.buf == old(cb.buf) && cb.size == old(cb.size) && cb.sizeElem == old(cb.sizeElem)
    requires cb.buf[..] == old(cb.buf[..])
    requires cb.tail / cb.sizeElem == (old(cb.tail) / cb.sizeElem + 1) % cb.Size()
    requires old(cb.Count()) > 0 && cb.Count() == old(cb.Count()) - 1
    ensures cb.Contents() == old(cb.Contents())[1..]
  {
    ElementsPop(cb.buf[..], cb.sizeElem, cb.Size(), old(cb.tail) / cb.sizeElem, old(cb.Count()));
  }

  /** A full buffer of two one-byte elements holding `x` then `y`. */
  method FullPair(x: u8, y: u8) returns (cb: CircBuffer)
    ensures fresh(cb) && fresh(cb.buf) && cb.Valid() && cb.sizeElem == 1 && cb.Size() == 2
    ensures cb.Count() == 2 && cb.Contents() == [[x], [y]]
  {
    cb := new CircBuffer;
    var arr := new u8[2];
    var ok := CircBuffer.Init(cb, arr, 2, 1);
    var d := new u8[1];
    d[0] := x;
    assert d[..1] == [x];
    ok := cb.Insert(d);
    d[0] := y;
    assert d[..1] == [y];
    ok := cb.Insert(d);
  }

  /**
   * circ_buffer_insert_overwrite as written, on a full buffer of two
   * one-byte elements holding 1 and 2: overwriting with 3 leaves a single
   * element, 3, where the oldest element left should be 2.
   */
  method OverwriteLosesData() returns (before: nat, after: nat, oldest: u8)
    ensures before == 2 && after == 1 && oldest == 3
  {
    var cb := FullPair(1, 2);
    before := cb.Count();
    var d := new u8[1];
    d[0] := 3;
    assert d[..1] == [3];
    var ok := cb.InsertOverwrite(d);
    after := cb.Count();
    var out := new u8[1];
    var n := cb.Retrieve(out);
    oldest := out[0];
  }

  /** The same run with the corrected overwrite keeps 2 and 3. */
  method OverwriteKeepsNewest() returns (before: nat, after: nat, oldest: u8)
    ensures before == 2 && after == 2 && oldest == 2
  {
    var cb := FullPair(1, 2);
    before := cb.Count();
    var d := new u8[1];
    d[0] := 3;
    assert d[..1] == [3];
    var ok := cb.InsertOverwriteFixed(d);
    after := cb.Count();
    var out := new u8[1];
    var n := cb.Retrieve(out);
    oldest := out[0];
  }

  /**
   * circ_buffer_retrieve as written, on an empty buffer of four slots:
   * it reports one element retrieved and the buffer then counts three.
   */
  method RetrieveFromEmpty() returns (retrieved: nat, after: nat)
    ensures retrieved == 1 && after == 3
  {
    var cb := new CircBuffer;
    var arr := new u8[8];
    var ok := CircBuffer.Init(cb, arr, 8, 2);
    retrieved := cb.Retrieve(null);
    after := cb.Count();
  }

  /** The corrected retrieve reports nothing retrieved and the buffer stays empty. */
  method RetrieveCheckedFromEmpty() returns (retrieved: nat, after: nat)
    ensures retrieved == 0 && after == 0
  {
    var cb := new CircBuffer;
    var arr := new u8[8];
    var ok := CircBuffer.Init(cb, arr, 8, 2);
    retrieved := cb.RetrieveChecked(null);
    after := cb.Count();
  }

  /** First in, first out: 10 and 20 go in and come out in that order, leaving nothing. */
  method FifoExample() returns (a: u8, b: u8, count: nat)
    ensures a == 10 && b == 20 && count == 0
  {
    var cb := FullPair(10, 20);
    var out := new u8[1];
    var n := cb.Retrieve(out);
    a := out[0];
    n := cb.Retrieve(out);
    b := out[0];
    count := cb.Count();
  }
}

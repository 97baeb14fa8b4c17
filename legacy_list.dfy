/**
 * The legacy byte-offset list of src/list.c: a first-in first-out ring of
 * elements of `sizeElem` bytes over a caller's buffer of `size` bytes. As in
 * the legacy ring buffer, `head` is the byte offset of the next write and
 * `tail` that of the next read, but here the element count is kept in the
 * field `items`, and the read takes up to `nelem` elements at once.
 *
 * The element size is a `uint8_t` field, so list_init keeps only the low
 * byte of the size it is given. The list's `int` fields are modelled as
 * naturals: they never go below 0, and they stay below the buffer size.
 */
module LegacyList {
  import opened EmblibUtil
  import opened ByteRing

  class List {
    var buf: array?<u8>
    var items: nat
    var size: nat
    /** Byte offset of the next write. */
    var head: nat
    /** Byte offset of the next read. */
    var tail: nat
    /** The element size, a byte wide. */
    var sizeElem: nat

    /** A buffer holding a positive whole number of elements of a byte-wide size. */
    ghost predicate Layout()
      reads this
    {
      buf != null && 0 < sizeElem < 256 && sizeElem <= size && size % sizeElem == 0 && size <= buf.Length
    }

    /** The number of element slots, `size / size_elem` in list_insert. */
    function Slots(): (r: nat)
      reads this
      requires Layout()
      ensures r > 0 && r * sizeElem == size
    {
      WholeElements(size, sizeElem);
      size / sizeElem
    }

    /**
     * A usable list: both offsets element-aligned inside the buffer, at most
     * one element per slot, and the write offset `items` slots after the
     * read offset, round the ring.
     */
    ghost predicate Valid()
      reads this
    {
      && Layout() && Slot(head, sizeElem, size) && Slot(tail, sizeElem, size)
      && items <= Slots() && (tail / sizeElem + items) % Slots() == head / sizeElem
    }

    /** The stored elements, oldest first, each `sizeElem` bytes long. */
    ghost function Contents(): (r: seq<seq<u8>>)
      reads this, buf
      requires Valid()
      ensures |r| == items
    {
      OffsetSlot(tail, sizeElem, Slots());
      Elements(buf[..], sizeElem, Slots(), tail / sizeElem, items)
    }

    /**
     * list_init: fails only for a missing descriptor. Otherwise the list
     * takes the buffer, its length and the low byte of the element size, and
     * starts empty at offset 0; the arguments are not checked, so the result
     * is usable exactly when they describe a buffer of whole elements.
     */
    static method Init(l: List?, a: array?<u8>, bufferLen: nat, sizeElem: nat) returns (ok: bool)
      modifies l
      ensures ok == (l != null)
      ensures ok ==> l.buf == a && l.size == bufferLen && l.sizeElem == sizeElem % 256
      ensures ok ==> l.head == 0 && l.tail == 0 && l.items == 0
      ensures ok ==> (l.Valid() <==>
                      a != null && bufferLen > 0 && sizeElem % 256 > 0 && bufferLen % (sizeElem % 256) == 0
                      && bufferLen <= a.Length)
      ensures ok && l.Valid() ==> l.Contents() == []
    {
      if l == null {
        return false;
      }
      var se := sizeElem % 256;
      l.buf, l.size, l.sizeElem := a, bufferLen, se;
      l.head, l.tail, l.items := 0, 0, 0;
      if a != null && se > 0 && bufferLen > 0 && bufferLen % se == 0 && bufferLen <= a.Length {
        WholeElements(bufferLen, se);
        ZeroRing(se, bufferLen, l.Slots());
      }
      return true;
    }

    /** list_size: the size of the buffer in bytes, not in elements. */
    function ByteSize(): (r: nat)
      reads this
      requires Valid()
      ensures r == Slots() * sizeElem
    {
      size
    }

    /** list_count: the number of stored elements. */
    function Count(): (r: nat)
      reads this
      requires Valid()
      ensures r <= Slots()
      ensures r == |Contents()|
    {
      items
    }

    /**
     * list_insert: fails, changing nothing, for a missing element or when
     * every slot is taken. Otherwise the element's bytes are written at
     * `head`, `head` moves one element on (wrapping), and the element joins
     * the contents at the end.
     */
    method Insert(data: array?<u8>) returns (ok: bool)
      requires Valid()
      requires data != null ==> sizeElem <= data.Length
      modifies this, buf
      ensures Valid() && buf == old(buf) && size == old(size) && sizeElem == old(sizeElem)
      ensures ok == (data != null && old(items) < Slots())
      ensures ok ==> Contents() == old(Contents()) + [old(data[..sizeElem])] && items == old(items) + 1
      ensures ok ==> head == (old(head) + sizeElem) % size && tail == old(tail)
      ensures ok ==> buf[..] == Write(old(buf[..]), old(head), old(data[..sizeElem]))
      ensures !ok ==> head == old(head) && tail == old(tail) && items == old(items)
      ensures !ok ==> buf[..] == old(buf[..])
    {
      if data == null || items >= size / sizeElem {
        return false;
      }
      Put(data[..sizeElem]);
      return true;
    }

    /** The write of list_insert, on a list with a free slot. */
    method Put(d: seq<u8>)
      requires Valid() && items < Slots() && |d| == sizeElem
      modifies this, buf
      ensures Valid() && buf == old(buf) && size == old(size) && sizeElem == old(sizeElem)
      ensures head == (old(head) + sizeElem) % size && tail == old(tail) && items == old(items) + 1
      ensures buf[..] == Write(old(buf[..]), old(head), d)
      ensures Contents() == old(Contents()) + [d]
    {
      var n := Slots();
      ghost var c0 := items;
      ghost var t := tail / sizeElem;
      ghost var h := head / sizeElem;
      ghost var b0 := buf[..];
      OffsetSlot(head, sizeElem, n);
      OffsetSlot(tail, sizeElem, n);
      OffsetStep(head, sizeElem, n);
      ElementsAppend(b0, sizeElem, n, t, c0, d);
      assert Elements(b0, sizeElem, n, t, c0) == Contents();
      RingStep(t, c0, h, n);
      MemCpy(buf, head, d);
      head := (head + sizeElem) % size;
      items := items + 1;
      assert Slots() == n && tail / sizeElem == t;
    }

    /** The number of elements a retrieve of `nelem` takes: all it asks for, or all there are. */
    function Take(nelem: nat): (m: nat)
      reads this
      ensures m <= items && m <= nelem
      ensures m == nelem || m == items
    {
      if nelem > items then items else nelem
    }

    /**
     * list_retrieve, with the copy wrapping at the end of the buffer the way
     * list_insert's writes do: for an output buffer, a positive request and
     * a non-empty list, the `Take(nelem)` oldest elements are copied out
     * laid end to end, leave the contents, and their number is returned; the
     * read offset moves on by that many elements. Otherwise 0 is returned
     * and nothing changes.
     */
    method Retrieve(data: array?<u8>, nelem: nat) returns (count: nat)
      requires Valid()
      requires data != null ==> data != buf && Take(nelem) * sizeElem <= data.Length
      modifies this, data
      ensures Valid() && buf == old(buf) && size == old(size) && sizeElem == old(sizeElem)
      ensures count == if data != null then old(Take(nelem)) else 0
      ensures count > 0 <==> data != null && nelem > 0 && old(items) > 0
      ensures items == old(items) - count && head == old(head)
      ensures tail == (old(tail) + count * sizeElem) % size
      ensures Contents() == old(Contents())[count..]
      ensures data != null ==> count * sizeElem <= data.Length
      ensures data != null ==> data[..count * sizeElem] == Flatten(old(Contents())[..count])
      ensures data != null ==> data[count * sizeElem..] == old(data[count * sizeElem..])
    {
      if data == null || nelem == 0 || items == 0 {
        EmblibCircBuffer.ModWrap(tail, size);
        assert old(Contents())[0..] == Contents();
        return 0;
      }
      count := Take(nelem);
      CopyOut(data, count);
      AdvanceBy(count);
    }

    /**
     * The copy of the corrected retrieve: the bytes of the `m` oldest
     * elements go to the front of `data`, in at most two copies: from the
     * read offset up to the end of the buffer, then, if the elements wrap,
     * the rest from the start of the buffer.
     */
    method CopyOut(data: array<u8>, m: nat)
      requires Valid() && data != buf && m <= items && m * sizeElem <= data.Length
      modifies data
      ensures data[..m * sizeElem] == Flatten(Contents()[..m])
      ensures data[m * sizeElem..] == old(data[m * sizeElem..])
    {
      CopyElements(data, buf, sizeElem, Slots(), tail, items, m);
    }

    /** The offset and count update of list_retrieve after taking `m` elements. */
    method AdvanceBy(m: nat)
      requires Valid() && m <= items
      modifies this
      ensures Valid() && buf == old(buf) && size == old(size) && sizeElem == old(sizeElem)
      ensures tail == (old(tail) + m * sizeElem) % size && head == old(head) && items == old(items) - m
      ensures Contents() == old(Contents())[m..]
    {
      var n := Slots();
      ghost var t := tail / sizeElem;
      OffsetSlot(tail, sizeElem, n);
      ChunkAdvance(t, m, sizeElem, n);
      MulDiv((t + m) % n, sizeElem);
      ChunkInside((t + m) % n, n, sizeElem);
      ElementsDrop(buf[..], sizeElem, n, t, items, m);
      ModSum(t + m, items - m, n);
      tail := (tail + m * sizeElem) % size;
      items := items - m;
      assert Slots() == n && tail / sizeElem == (t + m) % n;
    }

    /**
     * The end of the single copy of list_retrieve as written: it reads
     * `Take(nelem) * sizeElem` bytes straight on from the read offset. When
     * that span ends inside the buffer it holds exactly the elements taken;
     * it ends past the buffer exactly when those elements wrap round its end.
     */
    function CopyEndAsWritten(nelem: nat): (r: nat)
      reads this, buf
      requires Valid()
      ensures r > size <==> tail / sizeElem + Take(nelem) > Slots()
      ensures r <= size ==> tail <= r <= buf.Length && buf[tail..r] == Flatten(Contents()[..Take(nelem)])
    {
      var m := Take(nelem);
      SingleCopy(buf[..], sizeElem, Slots(), tail, items, m);
      tail + m * sizeElem
    }

    /**
     * list_empty, as written: the two offsets are equal. They are also equal
     * on a list with every slot taken, so a full list reads as empty.
     */
    function Empty(): (r: bool)
      reads this
      requires Valid()
      ensures r <==> items == 0 || items == Slots()
    {
      var n := Slots();
      SameSlot(tail, head, sizeElem, n);
      RingMeets(tail / sizeElem, items, n);
      tail == head
    }

    /** list_empty as its header describes it: no element is stored. */
    function EmptyFixed(): (r: bool)
      reads this, buf
      requires Valid()
      ensures r <==> Contents() == []
    {
      items == 0
    }

    /**
     * list_full, as written: the count is compared with the size in BYTES,
     * so it holds only for one-byte elements with every slot taken.
     */
    function Full(): (r: bool)
      reads this
      requires Valid()
      ensures r <==> sizeElem == 1 && items == Slots()
    {
      WideSlots(Slots(), sizeElem);
      items == size
    }

    /** list_full as its header describes it: every slot is taken. */
    function FullFixed(): (r: bool)
      reads this
      requires Valid()
      ensures r <==> items == Slots()
      ensures r ==> Empty()
    {
      items == size / sizeElem
    }

    /**
     * list_will_full: whether `n` more bytes would fill the buffer: the bytes
     * in use plus `n` reach its size (filling it exactly counts). The C sum
     * is an `int` compared with a `size_t`, so a negative sum converts to a
     * huge unsigned value and also reports full.
     */
    function WillFull(n: int): (r: bool)
      reads this
      requires Valid()
      ensures n >= 0 ==> (r <==> n >= (Slots() - items) * sizeElem)
      ensures items * sizeElem + n < 0 ==> r
    {
      MulAdd(items, Slots() - items, sizeElem);
      var sum := items * sizeElem + n;
      if sum < 0 then true else sum >= size
    }

    /** list_flush: count and both offsets back to 0; always succeeds. */
    method Flush() returns (ok: bool)
      requires Valid()
      modifies this
      ensures Valid() && buf == old(buf) && size == old(size) && sizeElem == old(sizeElem)
      ensures ok && items == 0 && tail == 0 && head == 0
      ensures Contents() == []
    {
      items, tail, head := 0, 0, 0;
      ZeroRing(sizeElem, size, Slots());
      return true;
    }
  }

  /** Both offsets at 0 with no element is a ring of a buffer of whole elements. */
  lemma ZeroRing(se: nat, size: nat, n: nat)
    requires 0 < se <= size && n > 0
    ensures Slot(0, se, size) && (0 / se + 0) % n == 0 / se
  {
  }

  /** With elements wider than a byte there are fewer slots than bytes. */
  lemma WideSlots(n: nat, se: nat)
    requires n > 0 && se > 0
    ensures se == 1 || n < n * se
  {
    if se >= 2 {
      MulMono(2, se, n);
    }
  }

  /** A ring of `c` slots from `t` ends back on `t` exactly when it is empty or goes all the way round. */
  lemma RingMeets(t: nat, c: nat, n: nat)
    requires t < n && c <= n
    ensures ((t + c) % n == t) <==> c == 0 || c == n
  {
    EmblibCircBuffer.ModWrap(t, n);
    if c > 0 {
      RingWraps(t, c, n);
    }
  }

  /**
   * The copy of the first `m` elements of a byte ring of `n` slots in `a`
   * whose oldest element is at the element-aligned offset `off`: the bytes
   * up to the end of the buffer, then the rest from its start.
   */
  method CopyElements(data: array<u8>, a: array<u8>, se: nat, n: nat, off: nat, count: nat, m: nat)
    requires data != a && 0 < n && n * se <= a.Length && Slot(off, se, n * se) && m <= count <= n
    requires m * se <= data.Length
    modifies data
    ensures off / se < n
    ensures data[..m * se] == Flatten(Elements(a[..], se, n, off / se, count)[..m])
    ensures data[m * se..] == old(data[m * se..])
  {
    var size, bytes := n * se, m * se;
    var first := if off + bytes <= size then bytes else size - off;
    TwoCopies(a[..], se, n, off, count, m, bytes, first);
    CopyTwo(data, a, off, first, bytes - first);
  }

  /**
   * Two memcpy calls out of `a`: `first` bytes from offset `off`, then
   * `rest` bytes from the start, laid end to end at the front of `data`.
   */
  method CopyTwo(data: array<u8>, a: array<u8>, off: nat, first: nat, rest: nat)
    requires data != a && off + first <= a.Length && rest <= a.Length && first + rest <= data.Length
    modifies data
    ensures data[..first + rest] == a[off..off + first] + a[..rest]
    ensures data[first + rest..] == old(data[first + rest..])
  {
    ghost var d0 := data[..];
    var x, y := a[off..off + first], a[..rest];
    MemCpy(data, 0, x);
    MemCpy(data, first, y);
    TwoWrites(d0, x, y);
  }

  /** Two writes laid end to end at the front of `d` replace its first bytes by their concatenation. */
  lemma TwoWrites(d: seq<u8>, x: seq<u8>, y: seq<u8>)
    requires |x| + |y| <= |d|
    ensures Write(Write(d, 0, x), |x|, y)[..|x| + |y|] == x + y
    ensures Write(Write(d, 0, x), |x|, y)[|x| + |y|..] == d[|x| + |y|..]
  {
    var d1 := Write(d, 0, x);
    WriteSplit(d, 0, x);
    WriteSplit(d1, |x|, y);
    assert d1[..|x|] == x;
  }

  /**
   * The bytes of the first `m` elements of a byte ring whose oldest element
   * is at the element-aligned offset `off`: those from `off` up to the end
   * of the buffer, or fewer when the elements end before it, followed by
   * the rest from the start of the buffer.
   */
  lemma TwoCopies(a: seq<u8>, se: nat, n: nat, off: nat, count: nat, m: nat, bytes: nat, first: nat)
    requires 0 < n && n * se <= |a| && Slot(off, se, n * se) && m <= count <= n
    requires bytes == m * se && first == if off + bytes <= n * se then bytes else n * se - off
    ensures off / se < n && first <= bytes && off + first <= |a| && bytes - first <= |a|
    ensures Flatten(Elements(a, se, n, off / se, count)[..m]) == a[off..off + first] + a[..bytes - first]
  {
    SingleCopy(a, se, n, off, count, m);
    if off + m * se > n * se {
      OffsetSlot(off, se, n);
      WrappedElements(a, se, n, off / se, count, m);
      MulAdd(off / se, m - (n - off / se), se);
      MulAdd(n - off / se, m - (n - off / se), se);
      MulAdd(off / se, n - off / se, se);
      assert m * se == (n - off / se) * se + (off / se + m - n) * se;
      MulMono(off / se + m - n, n, se);
    }
  }

  /**
   * When the first `m` elements of a ring from slot `start` wrap, their
   * bytes are those from chunk `start` to the end, then those of the
   * `start + m - n` chunks from the start of the buffer.
   */
  lemma WrappedElements(a: seq<u8>, se: nat, n: nat, start: nat, count: nat, m: nat)
    requires 0 < n && n * se <= |a| && start < n && m <= count <= n && start + m > n
    ensures start * se <= n * se && (start + m - n) * se <= n * se
    ensures Flatten(Elements(a, se, n, start, count)[..m])
            == a[start * se..n * se] + a[..(start + m - n) * se]
  {
    var e := Elements(a, se, n, start, count);
    var p := n - start;
    UpToEnd(a, se, n, start, count);
    FromStart(a, se, n, start, count, m);
    assert e[..m] == e[..p] + e[p..m];
    FlattenConcat(e[..p], e[p..m]);
  }

  /** The elements of a ring from slot `start` up to the last slot are the bytes from chunk `start` to the end. */
  lemma UpToEnd(a: seq<u8>, se: nat, n: nat, start: nat, count: nat)
    requires 0 < n && n * se <= |a| && start < n && n - start <= count <= n
    ensures start * se <= n * se
    ensures Flatten(Elements(a, se, n, start, count)[..n - start]) == a[start * se..n * se]
  {
    MulAdd(start, n - start, se);
    ContiguousElements(a, se, n, start, count, n - start);
  }

  /** The elements of a ring from slot `start` after the last slot are the bytes of the chunks from the start. */
  lemma FromStart(a: seq<u8>, se: nat, n: nat, start: nat, count: nat, m: nat)
    requires 0 < n && n * se <= |a| && start < n && m <= count <= n && start + m > n
    ensures (start + m - n) * se <= n * se
    ensures Flatten(Elements(a, se, n, start, count)[n - start..m]) == a[..(start + m - n) * se]
  {
    var e := Elements(a, se, n, start, count);
    var p := n - start;
    MulMono(start + m - n, n, se);
    PastEnd(a, se, n, start, count);
    ContiguousElements(a, se, n, 0, count - p, m - p);
    assert e[p..m] == e[p..][..m - p];
  }

  /** The elements of a ring from slot `start` that come after the last slot start again at slot 0. */
  lemma PastEnd(a: seq<u8>, se: nat, n: nat, start: nat, count: nat)
    requires 0 < n && n * se <= |a| && start < n && n - start <= count <= n
    ensures Elements(a, se, n, start, count)[n - start..] == Elements(a, se, n, 0, count - (n - start))
  {
    ElementsDrop(a, se, n, start, count, n - start);
    EmblibCircBuffer.ModWrap(n, n);
  }

  /** Two one-byte elements flatten to their two bytes. */
  lemma FlattenPair(x: u8, y: u8)
    ensures Flatten([[x], [y]]) == [x, y]
  {
    FlattenAppend([], [x]);
    FlattenAppend([[x]], [y]);
    assert [[x]] + [[y]] == [[x], [y]];
  }

  /** Flattening two sequences of elements one after the other concatenates their bytes. */
  lemma {:induction false} FlattenConcat(s: seq<seq<u8>>, t: seq<seq<u8>>)
    ensures Flatten(s + t) == Flatten(s) + Flatten(t)
  {
    if t != [] {
      var u := t[..|t| - 1];
      FlattenConcat(s, u);
      assert s + t == (s + u) + [t[|t| - 1]];
      FlattenAppend(s + u, t[|t| - 1]);
      assert t == u + [t[|t| - 1]];
      FlattenAppend(u, t[|t| - 1]);
    } else {
      assert s + t == s;
    }
  }

  /**
   * A copy of `m * se` bytes straight on from the element-aligned offset
   * `off` ends past the first `n` chunks exactly when the `m` elements from
   * that offset wrap; when it does not, it copies those elements.
   */
  lemma SingleCopy(a: seq<u8>, se: nat, n: nat, off: nat, count: nat, m: nat)
    requires 0 < n && n * se <= |a| && Slot(off, se, n * se) && m <= count <= n
    ensures off / se < n
    ensures off + m * se > n * se <==> off / se + m > n
    ensures off + m * se <= n * se ==>
              off <= off + m * se <= |a|
              && a[off..off + m * se] == Flatten(Elements(a, se, n, off / se, count)[..m])
  {
    OffsetSlot(off, se, n);
    MulMono(0, m, se);
    SpanEnd(se, n, off / se, m);
    SpanContents(a, se, n, off / se, count, m);
  }

  /**
   * The span of `m * se` bytes from chunk `start` ends past the first `n`
   * chunks exactly when the `m` chunks from `start` go past chunk `n - 1`.
   */
  lemma SpanEnd(se: nat, n: nat, start: nat, m: nat)
    requires se > 0
    ensures start * se + m * se > n * se <==> start + m > n
  {
    MulAdd(start, m, se);
    if start + m <= n {
      MulMono(start + m, n, se);
    } else {
      MulMono(n + 1, start + m, se);
      MulAdd(n, 1, se);
    }
  }

  /** When the `m` chunks from `start` do not wrap, their span of bytes holds the first `m` elements. */
  lemma SpanContents(a: seq<u8>, se: nat, n: nat, start: nat, count: nat, m: nat)
    requires 0 < n && n * se <= |a| && start < n && m <= count <= n
    ensures start + m <= n ==>
              start * se + m * se <= |a|
              && a[start * se..start * se + m * se] == Flatten(Elements(a, se, n, start, count)[..m])
  {
    if start + m <= n {
      ContiguousElements(a, se, n, start, count, m);
    }
  }

  /**
   * The first `m` elements of a ring that does not wrap before them are the
   * bytes from the start slot on, laid end to end.
   */
  lemma {:induction false} ContiguousElements(a: seq<u8>, se: nat, n: nat, start: nat, count: nat, m: nat)
    requires 0 < n && n * se <= |a| && start < n && m <= count <= n && start + m <= n
    ensures start * se <= start * se + m * se <= |a|
    ensures Flatten(Elements(a, se, n, start, count)[..m]) == a[start * se..start * se + m * se]
  {
    if m == 0 {
      MulMono(0, start, se);
      MulMono(start, n, se);
    } else {
      ContiguousElements(a, se, n, start, count, m - 1);
      ExtendRun(a, se, n, start, count, m);
    }
  }

  /** A run of `m - 1` elements laid out contiguously from chunk `start` extends by the next chunk. */
  lemma ExtendRun(a: seq<u8>, se: nat, n: nat, start: nat, count: nat, m: nat)
    requires 0 < n && n * se <= |a| && start < n && 0 < m <= count <= n && start + m <= n
    requires 0 <= start * se <= start * se + (m - 1) * se <= |a|
    requires Flatten(Elements(a, se, n, start, count)[..m - 1]) == a[start * se..start * se + (m - 1) * se]
    ensures start * se + m * se <= |a|
    ensures Flatten(Elements(a, se, n, start, count)[..m]) == a[start * se..start * se + m * se]
  {
    LastOfRun(a, se, n, start, count, m);
    var e := Elements(a, se, n, start, count);
    assert e[..m] == e[..m - 1] + [e[m - 1]];
    FlattenAppend(e[..m - 1], e[m - 1]);
    SliceConcat(a, start * se, start * se + (m - 1) * se, start * se + m * se);
  }

  /** Element `m - 1` of a ring that does not wrap before it is the `m`-th chunk of bytes from the start slot. */
  lemma LastOfRun(a: seq<u8>, se: nat, n: nat, start: nat, count: nat, m: nat)
    requires 0 < n && n * se <= |a| && start < n && 0 < m <= count <= n && start + m <= n
    ensures 0 <= start * se <= start * se + (m - 1) * se <= start * se + m * se <= |a|
    ensures Elements(a, se, n, start, count)[m - 1] == a[start * se + (m - 1) * se..start * se + m * se]
  {
    RunOffsets(start, m, se, n);
    EmblibCircBuffer.ModWrap(start + m - 1, n);
    ElementsAt(a, se, n, start, count, m - 1, start + m - 1);
  }

  /** The byte offsets of the last of `m` chunks from chunk `start`, with no wrap. */
  lemma RunOffsets(start: nat, m: nat, se: nat, n: nat)
    requires 0 < m && start + m <= n
    ensures 0 <= start * se <= start * se + (m - 1) * se
    ensures start * se + (m - 1) * se + se == start * se + m * se <= n * se
    ensures (start + m - 1) * se == start * se + (m - 1) * se
  {
    MulMono(0, start, se);
    MulMono(0, m - 1, se);
    MulAdd(m - 1, 1, se);
    MulAdd(start, m - 1, se);
    MulAdd(start, m, se);
    MulMono(start + m, n, se);
  }

  /** A slice splits at any point inside it. */
  lemma SliceConcat(a: seq<u8>, lo: nat, mid: nat, hi: nat)
    requires lo <= mid <= hi <= |a|
    ensures a[lo..hi] == a[lo..mid] + a[mid..hi]
  {
  }

  /** A list of two one-byte slots holding `x` then `y`. */
  /** A fresh, empty list of two one-byte slots. */
  method EmptyPair() returns (l: List)
    ensures fresh(l) && fresh(l.buf) && l.Valid() && l.sizeElem == 1 && l.size == 2
    ensures l.tail == 0 && l.head == 0 && l.items == 0 && l.Contents() == []
  {
    l := new List;
    var arr := new u8[2];
    var ok := List.Init(l, arr, 2, 1);
  }

  method FullPair(x: u8, y: u8) returns (l: List)
    ensures fresh(l) && fresh(l.buf) && l.Valid() && l.sizeElem == 1 && l.size == 2
    ensures l.tail == 0 && l.items == 2 && l.Contents() == [[x], [y]]
  {
    l := EmptyPair();
    var ok;
    var d := new u8[1];
    d[0] := x;
    assert d[..1] == [x];
    ok := l.Insert(d);
    d[0] := y;
    assert d[..1] == [y];
    ok := l.Insert(d);
  }

  /**
   * A list of two one-byte slots after 1 and 2 went in, one element came
   * out and 3 went in: the two stored elements, 2 and 3, wrap round the end
   * of the buffer.
   */
  method Wrapped() returns (l: List)
    ensures fresh(l) && fresh(l.buf) && l.Valid() && l.sizeElem == 1 && l.size == 2
    ensures l.tail == 1 && l.items == 2 && l.Contents() == [[2], [3]]
  {
    l := FullPair(1, 2);
    var out := new u8[2];
    var n := l.Retrieve(out, 1);
    assert n == 1 && l.tail == 1 && l.Contents() == [[2]];
    var d := new u8[1];
    d[0] := 3;
    assert d[..1] == [3];
    var ok := l.Insert(d);
  }

  /**
   * list_retrieve as written, on the wrapped list: the single copy of a
   * retrieve of both elements reads from offset 1 up to offset 3 of a
   * two-byte buffer.
   */
  method RetrieveOverrunsBuffer() returns (size: nat, copyEnd: nat)
    ensures size == 2 && copyEnd == 3
  {
    var l := Wrapped();
    size := l.size;
    copyEnd := l.CopyEndAsWritten(2);
  }

  /** On the same list the corrected retrieve takes 2 then 3, in order, and empties the list. */
  method RetrieveWrapsInOrder() returns (count: nat, first: u8, second: u8, left: nat)
    ensures count == 2 && first == 2 && second == 3 && left == 0
  {
    var l := Wrapped();
    var out := new u8[2];
    count := l.Retrieve(out, 2);
    assert count == 2 && l.sizeElem == 1;
    FlattenPair(2, 3);
    assert out[..2] == [2, 3];
    first, second := out[0], out[1];
    left := l.Count();
  }

  /** list_empty as written reports a list with both slots taken as empty; the corrected test does not. */
  method FullReadsEmpty() returns (count: nat, empty: bool, emptyFixed: bool)
    ensures count == 2 && empty && !emptyFixed
  {
    var l := FullPair(1, 2);
    count := l.Count();
    empty := l.Empty();
    emptyFixed := l.EmptyFixed();
  }

  /** list_full as written never reports full for two-byte elements; the corrected test does. */
  method WideFullNotReported() returns (count: nat, full: bool, fullFixed: bool)
    ensures count == 1 && !full && fullFixed
  {
    var l := new List;
    var arr := new u8[2];
    var ok := List.Init(l, arr, 2, 2);
    var d := new u8[2];
    ok := l.Insert(d);
    count := l.Count();
    full := l.Full();
    fullFixed := l.FullFixed();
  }
}

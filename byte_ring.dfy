/**
 * The byte-level view shared by the legacy containers (src/circ_buffer.c,
 * src/list.c, src/stack.c). They keep their cursors as byte offsets into a
 * caller's byte buffer and copy `size_elem` bytes at a time with memcpy.
 * Here a buffer of `n` elements is cut into `n` chunks of `se` bytes, and a
 * ring of chunks is the ring of EmblibCircBuffer with chunks as elements;
 * an offset `off` that is a multiple of `se` names chunk `off / se`.
 */
module ByteRing {
  import opened EmblibUtil
  import EmblibCircBuffer

  /** `off` is the byte offset of one of the whole elements of `se` bytes in a buffer of `size` bytes. */
  ghost predicate Slot(off: nat, se: nat, size: nat)
  {
    se > 0 && off % se == 0 && off + se <= size
  }

  /** Multiplying by a natural number keeps the order. */
  lemma MulMono(i: nat, j: nat, se: nat)
    requires i <= j
    ensures i * se <= j * se
  {
    assert j * se == i * se + (j - i) * se;
  }

  /** Multiplication distributes over a sum. */
  lemma MulAdd(i: nat, j: nat, se: nat)
    ensures (i + j) * se == i * se + j * se
  {
  }

  /** Chunk `i` of `n` chunks of `se` bytes lies inside the first `n * se` bytes. */
  lemma ChunkInside(i: nat, n: nat, se: nat)
    requires i < n
    ensures i * se + se <= n * se
  {
    MulMono(i + 1, n, se);
    assert (i + 1) * se == i * se + se;
  }

  /** The first `n * se` bytes of `a` as `n` elements of `se` bytes. */
  ghost function Chunks(a: seq<u8>, se: nat, n: nat): (r: seq<seq<u8>>)
    requires n * se <= |a|
    ensures |r| == n
  {
    seq(n, i requires 0 <= i < n => ChunkInside(i, n, se); a[i * se..i * se + se])
  }

  /** `a` with the bytes of `d` written over it from offset `off` on (memcpy into a buffer). */
  ghost function Write(a: seq<u8>, off: nat, d: seq<u8>): (r: seq<u8>)
    requires off + |d| <= |a|
    ensures |r| == |a|
    ensures forall k :: 0 <= k < |a| ==> r[k] == if off <= k < off + |d| then d[k - off] else a[k]
  {
    a[..off] + d + a[off + |d|..]
  }

  /** The bytes of a sequence of elements laid end to end. */
  ghost function Flatten(s: seq<seq<u8>>): (r: seq<u8>)
  {
    if s == [] then [] else Flatten(s[..|s| - 1]) + s[|s| - 1]
  }

  /** Flattening one more element appends its bytes. */
  lemma FlattenAppend(s: seq<seq<u8>>, x: seq<u8>)
    ensures Flatten(s + [x]) == Flatten(s) + x
  {
    assert (s + [x])[..|s|] == s;
  }

  /** Flattening `k` elements of `se` bytes gives `k * se` bytes. */
  lemma {:induction false} FlattenLength(s: seq<seq<u8>>, se: nat)
    requires forall i :: 0 <= i < |s| ==> |s[i]| == se
    ensures |Flatten(s)| == |s| * se
  {
    if s != [] {
      FlattenLength(s[..|s| - 1], se);
      assert (|s| - 1) * se + se == |s| * se;
    }
  }

  /**
   * Writing `se` bytes at offset `j * se` replaces chunk `j` and leaves every
   * other chunk as it was.
   */
  lemma ChunksWrite(a: seq<u8>, se: nat, n: nat, j: nat, d: seq<u8>)
    requires j < n && n * se <= |a| && |d| == se
    ensures j * se + se <= |a|
    ensures Chunks(Write(a, j * se, d), se, n) == Chunks(a, se, n)[j := d]
  {
    ChunkInside(j, n, se);
    var b := Write(a, j * se, d);
    var lhs := Chunks(b, se, n);
    var rhs := Chunks(a, se, n)[j := d];
    forall i | 0 <= i < n
      ensures lhs[i] == rhs[i]
    {
      ChunkInside(i, n, se);
      if i < j {
        MulMono(i + 1, j, se);
        assert (i + 1) * se == i * se + se;
      } else if j < i {
        MulMono(j + 1, i, se);
        assert (j + 1) * se == j * se + se;
      }
    }
  }

  /**
   * The elements of a byte ring: `count` chunks starting at chunk `start`,
   * wrapping after chunk `n - 1`.
   */
  ghost function Elements(a: seq<u8>, se: nat, n: nat, start: nat, count: nat): (r: seq<seq<u8>>)
    requires 0 < n && n * se <= |a| && start < n && count <= n
    ensures |r| == count
  {
    EmblibCircBuffer.Ring(Chunks(a, se, n), start, count, n)
  }

  /** Every element of a byte ring is `se` bytes long. */
  lemma ElementsLength(a: seq<u8>, se: nat, n: nat, start: nat, count: nat)
    requires 0 < n && n * se <= |a| && start < n && count <= n
    ensures forall i :: 0 <= i < count ==> |Elements(a, se, n, start, count)[i]| == se
  {
    var c := Chunks(a, se, n);
    forall i | 0 <= i < count
      ensures |Elements(a, se, n, start, count)[i]| == se
    {
      var j := (start + i) % n;
      ChunkInside(j, n, se);
      assert Elements(a, se, n, start, count)[i] == c[j] == a[j * se..j * se + se];
    }
  }

  /** Writing an element into the chunk after a ring appends it to the ring. */
  lemma ElementsAppend(a: seq<u8>, se: nat, n: nat, start: nat, count: nat, d: seq<u8>)
    requires 0 < n && n * se <= |a| && start < n && count < n && |d| == se
    ensures (start + count) % n * se + se <= |a|
    ensures Elements(Write(a, (start + count) % n * se, d), se, n, start, count + 1)
            == Elements(a, se, n, start, count) + [d]
  {
    var j := (start + count) % n;
    ChunksWrite(a, se, n, j, d);
    EmblibCircBuffer.RingAppend(Chunks(a, se, n), start, count, n, d);
  }

  /** Advancing the start of a non-empty ring drops its first element, the chunk at `start`. */
  lemma ElementsPop(a: seq<u8>, se: nat, n: nat, start: nat, count: nat)
    requires 0 < n && n * se <= |a| && start < n && 0 < count <= n
    ensures start * se + se <= |a|
    ensures Elements(a, se, n, start, count)[0] == a[start * se..start * se + se]
    ensures Elements(a, se, n, (start + 1) % n, count - 1) == Elements(a, se, n, start, count)[1..]
  {
    ChunkInside(start, n, se);
    EmblibCircBuffer.RingPop(Chunks(a, se, n), start, count, n);
  }

  /** Element `i` of a byte ring is the chunk in slot `j`, `i` slots after the start. */
  lemma ElementsAt(a: seq<u8>, se: nat, n: nat, start: nat, count: nat, i: nat, j: nat)
    requires 0 < n && n * se <= |a| && start < n && count <= n && i < count && j == (start + i) % n
    ensures j * se + se <= |a|
    ensures Elements(a, se, n, start, count)[i] == a[j * se..j * se + se]
  {
    ChunkInside(j, n, se);
  }

  /** `x % n` for `0 <= x < 3n`: two subtractions at most. */
  lemma ModWrap3(x: int, n: int)
    requires 0 < n && 0 <= x < 3 * n
    ensures x % n == if x < n then x else if x < 2 * n then x - n else x - 2 * n
  {
  }

  /** Reducing a start below `2n` before adding an offset of at most `n` lands on the same slot. */
  lemma ModSum(x: nat, i: nat, n: nat)
    requires 0 < n && x < 2 * n && i <= n
    ensures (x % n + i) % n == (x + i) % n
  {
    EmblibCircBuffer.ModWrap(x, n);
    EmblibCircBuffer.ModWrap(x % n + i, n);
    ModWrap3(x + i, n);
  }

  /** Moving the start of a ring on by `m` slots drops its first `m` elements. */
  lemma ElementsDrop(a: seq<u8>, se: nat, n: nat, start: nat, count: nat, m: nat)
    requires 0 < n && n * se <= |a| && start < n && m <= count <= n
    ensures (start + m) % n < n
    ensures Elements(a, se, n, (start + m) % n, count - m) == Elements(a, se, n, start, count)[m..]
  {
    var c := Chunks(a, se, n);
    forall i | 0 <= i < count - m
      ensures Elements(a, se, n, (start + m) % n, count - m)[i] == Elements(a, se, n, start, count)[m..][i]
    {
      ModSum(start + m, i, n);
    }
  }

  /** Advancing chunk `i` of `n` by `m <= n` chunks, in bytes and wrapping at the end. */
  lemma ChunkAdvance(i: nat, m: nat, se: nat, n: nat)
    requires se > 0 && i < n && m <= n
    ensures (i * se + m * se) % (n * se) == (i + m) % n * se
  {
    MulAdd(i, m, se);
    EmblibCircBuffer.ModWrap(i + m, n);
    if i + m < n {
      ChunkInside(i + m, n, se);
    } else {
      MulAdd(i + m - n, n, se);
      ChunkInside(i + m - n, n, se);
    }
    EmblibCircBuffer.ModWrap((i + m) * se, n * se);
  }

  /** The bytes of a write: the prefix before it, then `d`, then the old bytes after it. */
  lemma WriteSplit(a: seq<u8>, off: nat, d: seq<u8>)
    requires off + |d| <= |a|
    ensures Write(a, off, d)[..off + |d|] == a[..off] + d
    ensures Write(a, off, d)[off + |d|..] == a[off + |d|..]
  {
  }

  /**
   * A byte offset that is a multiple of `se` and lies inside a buffer of
   * `n * se` bytes advances by one element to the next chunk, wrapping at
   * the end of the buffer.
   */
  lemma OffsetStep(off: nat, se: nat, n: nat)
    requires se > 0 && off % se == 0 && off < n * se
    ensures off / se < n
    ensures (off + se) % (n * se) % se == 0
    ensures (off + se) % (n * se) / se == (off / se + 1) % n
    ensures (off + se) % (n * se) + se <= n * se
  {
    var i := off / se;
    OffsetSlot(off, se, n);
    NextChunk(i, se, n);
    var j := (i + 1) % n;
    MulDiv(j, se);
    ChunkInside(j, n, se);
  }

  /** The chunk after chunk `i` of `n` starts `se` bytes later, or at 0 after the last. */
  lemma NextChunk(i: nat, se: nat, n: nat)
    requires se > 0 && i < n
    ensures (i * se + se) % (n * se) == (i + 1) % n * se
  {
    MulAdd(i, 1, se);
    EmblibCircBuffer.ModWrap(i + 1, n);
    ChunkInside(i, n, se);
    if i + 1 < n {
      ChunkInside(i + 1, n, se);
      EmblibCircBuffer.ModWrap(i * se + se, n * se);
    } else {
      EmblibCircBuffer.ModWrap(i * se + se, n * se);
    }
  }

  /** `k * se` divided by `se` is `k`, with no remainder. */
  lemma MulDiv(k: nat, se: nat)
    requires se > 0
    ensures (k * se) / se == k && (k * se) % se == 0
  {
    var q, r := (k * se) / se, (k * se) % se;
    assert k * se == q * se + r && 0 <= r < se;
    if q < k {
      MulMono(q + 1, k, se);
    } else if k < q {
      MulMono(k + 1, q, se);
    }
  }

  /** An element-aligned offset inside a buffer of `n` elements names one of its chunks. */
  lemma OffsetSlot(off: nat, se: nat, n: nat)
    requires se > 0 && off % se == 0 && off < n * se
    ensures off / se < n && off / se * se == off && off + se <= n * se
  {
    var i := off / se;
    assert off == i * se;
    if i >= n {
      MulMono(n, i, se);
    }
    ChunkInside(i, n, se);
  }

  /** Two element-aligned offsets are equal exactly when they name the same chunk. */
  lemma SameSlot(a: nat, b: nat, se: nat, n: nat)
    requires se > 0 && a % se == 0 && b % se == 0 && a < n * se && b < n * se
    ensures a / se < n && b / se < n
    ensures (a == b) <==> (a / se == b / se)
  {
    OffsetSlot(a, se, n);
    OffsetSlot(b, se, n);
  }

  /** A buffer holding a positive whole number of elements holds at least one. */
  lemma WholeElements(size: nat, se: nat)
    requires se > 0 && size > 0 && size % se == 0
    ensures se <= size && size / se > 0 && size / se * se == size
  {
    assert size == size / se * se;
    MulMono(1, size / se, se);
  }

  /** One more element after a ring of `c` elements from `t` ends one slot later. */
  lemma RingStep(t: nat, c: nat, h: nat, n: nat)
    requires t < n && h < n && c < n && (t + c) % n == h
    ensures (t + c + 1) % n == (h + 1) % n
  {
    EmblibCircBuffer.ModWrap(t + c, n);
    EmblibCircBuffer.ModWrap(t + c + 1, n);
    EmblibCircBuffer.ModWrap(h + 1, n);
  }

  /** A ring of `c` slots from `t` that ends back on `t` goes all the way round. */
  lemma RingWraps(t: nat, c: nat, n: nat)
    requires t < n && 0 < c <= n
    ensures ((t + c) % n == t) <==> c == n
  {
    EmblibCircBuffer.ModWrap(t + c, n);
  }

  /**
   * After the start of a ring of `c` slots from `t` ending at `h` moves on
   * one slot, the ring still ending at `h` has one slot fewer, or, when
   * there was none, all but one.
   */
  lemma PopDistance(t: nat, c: nat, h: nat, n: nat, r: nat)
    requires t < n && h < n && c <= n && r < n
    requires c < n ==> (t + c) % n == h
    requires c == n ==> h == t
    requires ((t + 1) % n + r) % n == h
    ensures c > 0 ==> r == c - 1
    ensures c == 0 ==> r == n - 1
  {
    EmblibCircBuffer.ModWrap(t + n, n);
    EmblibCircBuffer.ModWrap(t, n);
    if c > 0 {
      EmblibCircBuffer.ModShift(t, c - 1, n);
      DistanceUnique((t + 1) % n, r, c - 1, n);
    } else {
      EmblibCircBuffer.ModShift(t, n - 1, n);
      DistanceUnique((t + 1) % n, r, n - 1, n);
    }
  }

  /** Two rings from the same start that end on the same slot have the same length. */
  lemma DistanceUnique(t: nat, c1: nat, c2: nat, n: nat)
    requires t < n && c1 < n && c2 < n && (t + c1) % n == (t + c2) % n
    ensures c1 == c2
  {
    EmblibCircBuffer.ModWrap(t + c1, n);
    EmblibCircBuffer.ModWrap(t + c2, n);
  }

  /**
   * The element count of a ring whose read offset is `tail` and write
   * offset is `head` (both element-aligned byte offsets), computed the way
   * the legacy containers do: it is the number of slots from `tail/se` on
   * up to `head/se`, and it is below the slot count.
   */
  lemma CountDistance(head: nat, tail: nat, se: nat, n: nat)
    requires se > 0 && head % se == 0 && tail % se == 0 && head < n * se && tail < n * se
    ensures var r := if head >= tail then (head - tail) / se else (n * se - (tail - head)) / se;
            r < n && (tail / se + r) % n == head / se && (r == 0 <==> head == tail)
  {
    OffsetSlot(head, se, n);
    OffsetSlot(tail, se, n);
    if head >= tail {
      CountForward(head / se, tail / se, se, n);
    } else {
      CountWrapped(head / se, tail / se, se, n);
    }
  }

  /** The count when the write offset is at or after the read offset: the slots between. */
  lemma CountForward(h: nat, t: nat, se: nat, n: nat)
    requires se > 0 && h < n && t < n && h * se >= t * se
    ensures h >= t && (h * se - t * se) / se == h - t
    ensures (t + (h - t)) % n == h
  {
    if h < t {
      MulMono(h + 1, t, se);
      MulAdd(h, 1, se);
    }
    MulAdd(t, h - t, se);
    MulDiv(h - t, se);
    EmblibCircBuffer.ModWrap(h, n);
  }

  /** The count when the write offset is before the read offset: the slots round the end. */
  lemma CountWrapped(h: nat, t: nat, se: nat, n: nat)
    requires se > 0 && h < n && t < n && h * se < t * se
    ensures h < t && (n * se - (t * se - h * se)) / se == n - t + h
    ensures 0 < n - t + h < n && (t + (n - t + h)) % n == h
  {
    if t <= h {
      MulMono(t, h, se);
    }
    MulAdd(h, n - t, se);
    MulAdd(t, n - t, se);
    MulDiv(n - t + h, se);
    EmblibCircBuffer.ModWrap(n + h, n);
  }

  /** memcpy of the bytes `d` into `dst` from offset `off` on. */
  method MemCpy(dst: array<u8>, off: nat, d: seq<u8>)
    requires off + |d| <= dst.Length
    modifies dst
    ensures dst[..] == Write(old(dst[..]), off, d)
  {
    forall k | 0 <= k < |d| {
      dst[off + k] := d[k];
    }
  }
}

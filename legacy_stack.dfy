/**
 * The legacy stack of src/stack.c. A stack is the list descriptor of
 * src/list.c used the other way: elements are pushed at the byte offset
 * `tail` and popped from below it, `tail` never wraps, and `items` counts
 * the elements. `head` is not used. Starting from an empty list, the byte
 * offset `tail` always equals `items * sizeElem`, so the stack holds the
 * first `items` chunks of the buffer, bottom first.
 */
module LegacyStack {
  import opened EmblibUtil
  import opened ByteRing
  import opened LegacyList

  /** A usable stack: a buffer of whole elements with `tail` just past the `items` stored ones. */
  ghost predicate StackValid(s: List)
    reads s
  {
    s.Layout() && s.items <= s.Slots() && s.tail == s.items * s.sizeElem
  }

  /** The stored elements, bottom first, each `sizeElem` bytes long. */
  ghost function Elems(s: List): (r: seq<seq<u8>>)
    reads s, s.buf
    requires StackValid(s)
    ensures |r| == s.items
  {
    Chunks(s.buf[..], s.sizeElem, s.Slots())[..s.items]
  }

  /** A freshly initialised list (count and offsets 0) is an empty stack. */
  lemma EmptyStack(s: List)
    requires s.Layout() && s.items == 0 && s.tail == 0
    ensures StackValid(s) && Elems(s) == []
  {
  }

  /**
   * stack_push: fails, changing nothing, for a missing element or when
   * every slot is taken. Otherwise the element's bytes are written at
   * `tail`, `tail` moves one element up (no wrap) and `items` grows by one:
   * the element goes on top.
   */
  method Push(s: List, data: array?<u8>) returns (ok: bool)
    requires StackValid(s)
    requires data != null ==> s.sizeElem <= data.Length
    modifies s, s.buf
    ensures StackValid(s) && s.buf == old(s.buf) && s.size == old(s.size) && s.sizeElem == old(s.sizeElem)
    ensures s.head == old(s.head)
    ensures ok == (data != null && old(s.items) < s.Slots())
    ensures ok ==> s.items == old(s.items) + 1 && s.tail == old(s.tail) + s.sizeElem
    ensures ok ==> Elems(s) == old(Elems(s)) + [old(data[..s.sizeElem])]
    ensures !ok ==> s.items == old(s.items) && s.tail == old(s.tail) && s.buf[..] == old(s.buf[..])
  {
    if data == null || s.items >= s.size / s.sizeElem {
      return false;
    }
    var d := data[..s.sizeElem];
    ghost var b0 := s.buf[..];
    ghost var n := s.Slots();
    ChunksWrite(b0, s.sizeElem, n, s.items, d);
    MulAdd(s.items, 1, s.sizeElem);
    MemCpy(s.buf, s.tail, d);
    s.tail := s.tail + s.sizeElem;
    s.items := s.items + 1;
    TopWritten(Chunks(b0, s.sizeElem, n), Chunks(s.buf[..], s.sizeElem, n), s.items - 1, d);
    return true;
  }

  /**
   * stack_pop: fails, changing nothing, for a missing output buffer (even
   * on a non-empty stack) or an empty stack. Otherwise `tail` moves one
   * element down and `items` shrinks by one, and the element there, the
   * top one, is copied out.
   */
  method Pop(s: List, data: array?<u8>) returns (ok: bool)
    requires StackValid(s)
    requires data != null ==> s.sizeElem <= data.Length && data != s.buf
    modifies s, data
    ensures StackValid(s) && s.buf == old(s.buf) && s.size == old(s.size) && s.sizeElem == old(s.sizeElem)
    ensures s.head == old(s.head)
    ensures ok == (data != null && old(s.items) > 0)
    ensures ok ==> s.items == old(s.items) - 1 && s.tail == old(s.tail) - s.sizeElem
    ensures ok ==> Elems(s) == old(Elems(s))[..s.items]
    ensures ok ==> data[..s.sizeElem] == old(Elems(s))[s.items]
    ensures ok ==> data[s.sizeElem..] == old(data[s.sizeElem..])
    ensures !ok ==> s.items == old(s.items) && s.tail == old(s.tail)
    ensures !ok && data != null ==> data[..] == old(data[..])
  {
    if data == null || s.items == 0 {
      return false;
    }
    MulAdd(s.items - 1, 1, s.sizeElem);
    ChunkInside(s.items - 1, s.Slots(), s.sizeElem);
    s.tail := s.tail - s.sizeElem;
    s.items := s.items - 1;
    ghost var d0 := data[..];
    MemCpy(data, 0, s.buf[s.tail..s.tail + s.sizeElem]);
    WriteSplit(d0, 0, s.buf[s.tail..s.tail + s.sizeElem]);
    return true;
  }

  /**
   * stack_peek: fails for a missing output buffer or an empty stack.
   * Otherwise the top element, the one just below `tail`, is copied out;
   * the stack is not changed.
   */
  method Peek(s: List, data: array?<u8>) returns (ok: bool)
    requires StackValid(s)
    requires data != null ==> s.sizeElem <= data.Length && data != s.buf
    modifies data
    ensures ok == (data != null && s.items > 0)
    ensures ok ==> data[..s.sizeElem] == Elems(s)[s.items - 1]
    ensures ok ==> data[s.sizeElem..] == old(data[s.sizeElem..])
    ensures !ok && data != null ==> data[..] == old(data[..])
  {
    if data == null || s.items == 0 {
      return false;
    }
    MulAdd(s.items - 1, 1, s.sizeElem);
    ChunkInside(s.items - 1, s.Slots(), s.sizeElem);
    var top := s.tail - s.sizeElem;
    ghost var d0 := data[..];
    MemCpy(data, 0, s.buf[top..top + s.sizeElem]);
    WriteSplit(d0, 0, s.buf[top..top + s.sizeElem]);
    return true;
  }

  /** A push then a pop: the pushed element comes back and the stack is as it was. */
  method PushPop(s: List, data: array<u8>, out: array<u8>) returns (ok: bool)
    requires StackValid(s) && s.items < s.Slots()
    requires s.sizeElem <= data.Length && s.sizeElem <= out.Length && out != s.buf && out != data
    modifies s, s.buf, out
    ensures StackValid(s) && s.buf == old(s.buf) && s.sizeElem == old(s.sizeElem)
    ensures ok && out[..s.sizeElem] == old(data[..s.sizeElem])
    ensures s.items == old(s.items) && s.tail == old(s.tail) && Elems(s) == old(Elems(s))
  {
    ok := Push(s, data);
    ok := Pop(s, out);
  }

  /**
   * Writing `d` into chunk `k` of a run of chunks leaves the ones below as
   * they were and puts `d` on top of them.
   */
  lemma TopWritten(c0: seq<seq<u8>>, c1: seq<seq<u8>>, k: nat, d: seq<u8>)
    requires k < |c0| && c1 == c0[k := d]
    ensures c1[..k + 1] == c0[..k] + [d]
  {
  }

  /** An empty stack of two one-byte slots. */
  method EmptyStackPair() returns (s: List)
    ensures fresh(s) && fresh(s.buf) && StackValid(s) && s.sizeElem == 1 && s.Slots() == 2
    ensures s.items == 0 && Elems(s) == []
  {
    s := LegacyList.EmptyPair();
    EmptyStack(s);
  }

  /** 10 then 20 pushed on a stack of two one-byte slots; a third push fails. */
  method TwoPushed() returns (s: List, third: bool)
    ensures fresh(s) && fresh(s.buf) && StackValid(s) && s.sizeElem == 1
    ensures s.items == 2 && Elems(s) == [[10], [20]] && !third
  {
    s := EmptyStackPair();
    var d := new u8[1];
    d[0] := 10;
    assert d[..1] == [10];
    var ok := Push(s, d);
    d[0] := 20;
    assert d[..1] == [20];
    ok := Push(s, d);
    third := Push(s, d);
  }

  /**
   * Last in, first out: on a stack of two one-byte slots, 10 and 20 go in,
   * a third push fails, the pops give 20 then 10, and a pop from the empty
   * stack fails.
   */
  method LifoExample() returns (third: bool, a: u8, b: u8, fourth: bool)
    ensures !third && a == 20 && b == 10 && !fourth
  {
    var s;
    s, third := TwoPushed();
    var out := new u8[1];
    var ok := Pop(s, out);
    a := out[0];
    ok := Pop(s, out);
    b := out[0];
    fourth := Pop(s, out);
  }

  /** stack_pop without an output buffer fails and leaves a non-empty stack as it was. */
  method PopWithoutBuffer() returns (ok: bool, count: nat)
    ensures !ok && count == 1
  {
    var s := EmptyStackPair();
    var d := new u8[1];
    var pushed := Push(s, d);
    ok := Pop(s, null);
    count := s.items;
  }
}

/**
 * The set of src/emblib_set.c: an array list (EmblibList) whose elements
 * are kept pairwise distinct by `add`. Membership is decided by comparing
 * the bytes of the stored element with those of the candidate (`memcmp`
 * over `elem_size` bytes); elements are values here, so byte equality is
 * equality of values of an equality-supporting type T. The comparison
 * function a set declares in its header is never called by the code.
 *
 * The set operations take the list descriptor itself, as the C functions
 * pass the set pointer straight to the list functions.
 */
module EmblibSet {
  import opened Optional
  import opened EmblibList

  /** No two positions of `s` hold equal elements. */
  ghost predicate NoDuplicates<T>(s: seq<T>)
  {
    forall i, j :: 0 <= i < j < |s| ==> s[i] != s[j]
  }

  /** The first position holding `x`. */
  ghost function FirstIndex<T>(s: seq<T>, x: T): (k: nat)
    requires x in s
    ensures k < |s| && s[k] == x && x !in s[..k]
  {
    if s[0] == x then 0 else 1 + FirstIndex(s[1..], x)
  }

  /** `s` without position `k`: the order of the others is kept. */
  ghost function Without<T>(s: seq<T>, k: nat): (r: seq<T>)
    requires k < |s|
    ensures |r| == |s| - 1
    ensures forall i :: 0 <= i < k ==> r[i] == s[i]
    ensures forall i :: k <= i < |r| ==> r[i] == s[i + 1]
  {
    s[..k] + s[k + 1..]
  }

  /**
   * Removing a position keeps a sequence duplicate-free, and the removed
   * element is then gone from it.
   */
  lemma WithoutNoDuplicates<T>(s: seq<T>, k: nat)
    requires k < |s| && NoDuplicates(s)
    ensures NoDuplicates(Without(s, k))
    ensures s[k] !in Without(s, k)
  {
    var r := Without(s, k);
    forall i, j | 0 <= i < j < |r|
      ensures r[i] != r[j]
    {
      var i' := if i < k then i else i + 1;
      var j' := if j < k then j else j + 1;
      assert r[i] == s[i'] && r[j] == s[j'];
    }
  }

  /** Appending an element not yet present keeps a sequence duplicate-free. */
  lemma AppendNoDuplicates<T>(s: seq<T>, x: T)
    requires NoDuplicates(s) && x !in s
    ensures NoDuplicates(s + [x])
  {
    var r := s + [x];
    forall i, j | 0 <= i < j < |r|
      ensures r[i] != r[j]
    {
      if j == |s| {
        assert r[i] == s[i];
      }
    }
  }

  /**
   * An add followed by a remove of the same element gives the set back:
   * the added element is the last and the first occurrence of itself.
   */
  lemma AddThenRemove<T>(s: seq<T>, x: T)
    requires x !in s
    ensures x in s + [x] && Without(s + [x], FirstIndex(s + [x], x)) == s
  {
    var k := FirstIndex(s + [x], x);
    assert (s + [x])[..|s|] == s;
  }

  /**
   * emblib_set_init: the list's init; a new set is empty and so
   * duplicate-free.
   */
  method Init<T>(a: array?<T>, bufferLen: nat, sizeElem: nat) returns (s: List?<T>)
    requires a != null && sizeElem > 0 ==> bufferLen / sizeElem <= a.Length
    ensures (s != null) == (a != null && bufferLen > 0 && sizeElem > 0 && bufferLen % sizeElem == 0)
    ensures s != null ==> fresh(s) && s.Valid() && s.arr == a && s.Contents() == []
    ensures s != null ==> s.capacity == bufferLen && s.elemSize == sizeElem
    ensures s != null ==> NoDuplicates(s.Contents())
  {
    s := List.Init(a, bufferLen, sizeElem);
  }

  /**
   * emblib_set_contains: true exactly when some stored element equals `x`,
   * found by reading positions 0, 1, ... in turn. Nothing changes.
   */
  method Contains<T(==)>(s: List<T>, x: T) returns (found: bool)
    requires s.Valid()
    ensures found <==> x in s.Contents()
  {
    var i := 0;
    while i < s.Count()
      invariant 0 <= i <= s.count
      invariant x !in s.Contents()[..i]
    {
      var temp := s.Get(i);
      if temp.value == x {
        return true;
      }
      assert s.Contents()[..i + 1] == s.Contents()[..i] + [s.Contents()[i]];
      i := i + 1;
    }
    assert s.Contents()[..i] == s.Contents();
    return false;
  }

  /**
   * emblib_set_add: fails, changing nothing, when an equal element is
   * already stored or the set is full; otherwise `x` is appended at
   * position `count`. A duplicate-free set stays duplicate-free.
   */
  method Add<T(==)>(s: List<T>, x: T) returns (ok: bool)
    requires s.Valid()
    modifies s, s.arr
    ensures s.Valid()
    ensures ok == (x !in old(s.Contents()) && old(s.count) < s.slots)
    ensures ok ==> s.Contents() == old(s.Contents()) + [x]
    ensures !ok ==> s.count == old(s.count) && s.arr[..] == old(s.arr[..])
    ensures NoDuplicates(old(s.Contents())) ==> NoDuplicates(s.Contents())
  {
    var present := Contains(s, x);
    if present || s.IsFull() {
      return false;
    }
    ghost var before := s.Contents();
    ok := s.Insert(s.Count(), x);
    assert before[..|before|] == before;
    if NoDuplicates(before) {
      AppendNoDuplicates(before, x);
    }
  }

  /**
   * emblib_set_remove: deletes the first stored element equal to `x`,
   * keeping the order of the others; fails, changing nothing, when there is
   * none. In a duplicate-free set `x` is then no longer present.
   */
  method Remove<T(==)>(s: List<T>, x: T) returns (ok: bool)
    requires s.Valid()
    modifies s, s.arr
    ensures s.Valid()
    ensures ok == (x in old(s.Contents()))
    ensures ok ==> s.Contents() == Without(old(s.Contents()), FirstIndex(old(s.Contents()), x))
    ensures !ok ==> s.count == old(s.count) && s.arr[..] == old(s.arr[..])
    ensures NoDuplicates(old(s.Contents())) ==> NoDuplicates(s.Contents())
    ensures NoDuplicates(old(s.Contents())) ==> x !in s.Contents()
  {
    ghost var before := s.Contents();
    var i := 0;
    while i < s.Count()
      invariant s.Valid() && s.Contents() == before
      invariant s.count == old(s.count) && s.arr[..] == old(s.arr[..])
      invariant 0 <= i <= s.count
      invariant x !in before[..i]
    {
      var temp := s.Get(i);
      if temp.value == x {
        var removed := s.Remove(i);
        assert FirstIndex(before, x) == i by {
          FirstIndexUnique(before, x, i);
        }
        if NoDuplicates(before) {
          WithoutNoDuplicates(before, i);
        }
        return true;
      }
      assert before[..i + 1] == before[..i] + [before[i]];
      i := i + 1;
    }
    assert before[..i] == before;
    return false;
  }

  /** A position holding `x` with no `x` before it is the first index of `x`. */
  lemma {:induction false} FirstIndexUnique<T>(s: seq<T>, x: T, k: nat)
    requires k < |s| && s[k] == x && x !in s[..k]
    ensures FirstIndex(s, x) == k
  {
    if k > 0 {
      assert s[0] == s[..k][0];
      assert s[1..][..k - 1] == s[..k][1..];
      FirstIndexUnique(s[1..], x, k - 1);
    }
  }

  /** emblib_set_size: the list's number of element slots. */
  function Size<T>(s: List<T>): (r: nat)
    reads s
    requires s.Valid()
    ensures r == s.slots && r * s.elemSize == s.capacity
  {
    s.Size()
  }

  /** emblib_set_count: the number of elements the set holds. */
  function Count<T>(s: List<T>): (r: nat)
    reads s, s.arr
    requires s.Valid()
    ensures r == |s.Contents()| && r <= s.slots
  {
    s.Count()
  }

  /**
   * emblib_set_flush: the list's flush; afterwards the set holds nothing,
   * so `Contains` is false for every element.
   */
  method Flush<T>(s: List<T>)
    requires s.Valid()
    modifies s
    ensures s.Valid() && s.count == 0 && s.Contents() == []
    ensures forall x :: x !in s.Contents()
  {
    s.Flush();
  }

  /**
   * The set tests on a ten-slot set: 42 is added once and refused the
   * second time; removing it succeeds, after which it is absent and a
   * second removal fails.
   */
  method AddRemoveExample() returns (first: bool, again: bool, removed: bool, present: bool,
                                     removedAgain: bool)
    ensures first && !again && removed && !present && !removedAgain
  {
    var a := new int[10];
    var s := Init(a, 40, 4);
    assert Size(s) == 10;
    first := Add(s, 42);
    assert s.Contents() == [42];
    again := Add(s, 42);
    assert s.Contents() == [42];
    removed := Remove(s, 42);
    assert FirstIndex([42], 42) == 0;
    assert s.Contents() == [];
    present := Contains(s, 42);
    removedAgain := Remove(s, 42);
  }

  /** The count tests: 42 and 43 make a count of 2 that a flush takes back to 0. */
  method CountFlushExample() returns (count2: nat, count0: nat, afterFlush: bool)
    ensures count2 == 2 && count0 == 0 && !afterFlush
  {
    var a := new int[10];
    var s := Init(a, 40, 4);
    assert Size(s) == 10;
    var ok := Add(s, 42);
    assert s.Contents() == [42];
    ok := Add(s, 43);
    assert s.Contents() == [42, 43];
    count2 := Count(s);
    Flush(s);
    count0 := Count(s);
    afterFlush := Contains(s, 42);
  }
}

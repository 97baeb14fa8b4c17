/**
 * The legacy helpers of src/util.c that differ from src/emblib_util.c:
 * a memrev that returns nothing and tests `p` for null inside its loop
 * guard, and strrev, which reverses a NUL-terminated string in place.
 * HIBYTE, LOBYTE, HIWORD, LOWORD, MAKEWORD and MAKEDWORD in src/util.c have
 * the same bodies as in src/emblib_util.c and are EmblibUtil's functions.
 */
module Util {
  import opened EmblibUtil

  /**
   * memrev (legacy): reverses p[0..len) in place. With a null pointer the
   * loop guard fails at once and nothing happens.
   */
  method MemRev(p: array?<u8>, len: nat)
    requires p != null ==> len <= p.Length
    modifies p
    ensures p != null ==> p[..len] == Reversed(old(p[..len]))
    ensures p != null ==> p[len..] == old(p[len..])
  {
    var i := 0;
    while i < len / 2 && p != null
      invariant 0 <= i <= len / 2
      invariant p != null ==> forall k :: 0 <= k < i ==> p[k] == old(p[len - 1 - k]) && p[len - 1 - k] == old(p[k])
      invariant p != null ==> forall k :: i <= k < len - i ==> p[k] == old(p[k])
      invariant p != null ==> p[len..] == old(p[len..])
    {
      var c := p[i];
      p[i] := p[len - i - 1];
      p[len - i - 1] := c;
      i := i + 1;
    }
    if p != null {
      MirrorIsReversed(old(p[..len]), p[..len]);
    }
  }

  /** memrev with a length of at most one leaves the buffer as it was. */
  lemma MemRevShortIsIdentity(s: seq<u8>, len: nat)
    requires len <= 1 && len <= |s|
    ensures Reversed(s[..len]) + s[len..] == s
  {
    ReversedShort(s[..len]);
    assert s[..len] + s[len..] == s;
  }

  /** strlen: the number of characters before the first NUL of `s`. */
  function StrLen(s: seq<u8>): (n: nat)
    requires 0 in s
    ensures n < |s| && s[n] == 0
    ensures forall k :: 0 <= k < n ==> s[k] != 0
  {
    if s[0] == 0 then 0 else 1 + StrLen(s[1..])
  }

  /** The first NUL is unique: any position holding the first NUL is StrLen. */
  lemma {:induction false} StrLenIsFirstNul(s: seq<u8>, n: nat)
    requires n < |s| && s[n] == 0
    requires forall k :: 0 <= k < n ==> s[k] != 0
    ensures StrLen(s) == n
  {
    if n > 0 {
      StrLenIsFirstNul(s[1..], n - 1);
    }
  }

  /**
   * strrev: reverses the characters of the string before its terminating
   * NUL; the terminator and everything after it stay where they are.
   */
  method StrRev(s: array<u8>)
    requires 0 in s[..]
    modifies s
    ensures var n := old(StrLen(s[..])); s[..n] == Reversed(old(s[..n])) && s[n..] == old(s[n..])
    ensures 0 in s[..] && StrLen(s[..]) == old(StrLen(s[..]))
  {
    var len := StrLen(s[..]);
    MemRev(s, len);
    forall k | 0 <= k < len
      ensures s[k] != 0
    {
      ReversedAt(old(s[..len]), k);
      assert s[k] == s[..len][k];
    }
    assert s[len] == s[len..][0];
    StrLenIsFirstNul(s[..], len);
  }
}

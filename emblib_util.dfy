/**
 * Byte and word helpers of src/emblib_util.c: splitting a 16-bit word into
 * bytes and a 32-bit double word into words, joining them back, and the
 * in-place byte reversal memrev. The same split/join helpers appear word for
 * word in src/util.c; they are defined once, here.
 *
 * Fixed-width unsigned C integers are integer newtypes. A right shift of an
 * unsigned value by 8 (16) bits is division by 0x100 (0x1_0000), a cast to a
 * narrower unsigned type is the remainder, and `(hi << n) | lo` with `lo`
 * below 2^n is `hi * 2^n + lo`.
 */
module EmblibUtil {

  newtype u8 = x: int | 0 <= x < 0x100
  newtype u16 = x: int | 0 <= x < 0x1_0000
  newtype u32 = x: int | 0 <= x < 0x1_0000_0000

  /** HIBYTE: the high byte of a word, i.e. how many whole 256-blocks it holds. */
  function HiByte(b: u16): (r: u8)
    ensures r as int * 0x100 <= b as int < (r as int + 1) * 0x100
  {
    (b / 0x100) as u8
  }

  /** LOBYTE: the low byte of a word, congruent to the word modulo 256. */
  function LoByte(b: u16): (r: u8)
    ensures (b as int - r as int) % 0x100 == 0
  {
    (b % 0x100) as u8
  }

  /** HIWORD: the high 16 bits of a double word. */
  function HiWord(b: u32): (r: u16)
    ensures r as int * 0x1_0000 <= b as int < (r as int + 1) * 0x1_0000
  {
    (b / 0x1_0000) as u16
  }

  /** LOWORD: the low 16 bits of a double word. */
  function LoWord(b: u32): (r: u16)
    ensures (b as int - r as int) % 0x1_0000 == 0
  {
    (b % 0x1_0000) as u16
  }

  /** MAKEWORD: the word whose high byte is `hi` and whose low byte is `lo`. */
  function MakeWord(lo: u8, hi: u8): (r: u16)
    ensures HiByte(r) == hi && LoByte(r) == lo
  {
    hi as u16 * 0x100 + lo as u16
  }

  /**
   * MAKEDWORD: the double word whose high word is `hi` and whose low word is
   * `lo`. Computed over mathematical integers; see README for the C `int`
   * promotion of `hi << 16`.
   */
  function MakeDWord(lo: u16, hi: u16): (r: u32)
    ensures HiWord(r) == hi && LoWord(r) == lo
  {
    hi as u32 * 0x1_0000 + lo as u32
  }

  /** Splitting a word and joining the halves gives the word back. */
  lemma WordSplitJoin(w: u16)
    ensures MakeWord(LoByte(w), HiByte(w)) == w
  {
  }

  /** Splitting a double word and joining the halves gives it back. */
  lemma DWordSplitJoin(w: u32)
    ensures MakeDWord(LoWord(w), HiWord(w)) == w
  {
  }

  /** The values the unit tests assert for the split and join helpers. */
  lemma HelperExamples()
    ensures HiByte(0xAA55) == 0xAA && LoByte(0xAA55) == 0x55
    ensures HiWord(0xAA55_55AA) == 0xAA55 && LoWord(0xAA55_55AA) == 0x55AA
    ensures MakeWord(0xBB, 0xAA) == 0xAABB
    ensures MakeDWord(0xCCDD, 0xAABB) == 0xAABB_CCDD
  {
  }

  /** The reversal of a sequence: last element first. */
  function Reversed<T>(s: seq<T>): (r: seq<T>)
    ensures |r| == |s|
  {
    if |s| == 0 then [] else [s[|s| - 1]] + Reversed(s[..|s| - 1])
  }

  /** Position k of the reversal holds the element k places from the end. */
  lemma {:induction false} ReversedAt<T>(s: seq<T>, k: nat)
    requires k < |s|
    ensures Reversed(s)[k] == s[|s| - 1 - k]
  {
    if k > 0 {
      ReversedAt(s[..|s| - 1], k - 1);
    }
  }

  /** A sequence is the reversal of `s` exactly when it mirrors `s` position by position. */
  lemma MirrorIsReversed<T>(s: seq<T>, t: seq<T>)
    requires |t| == |s|
    requires forall k :: 0 <= k < |s| ==> t[k] == s[|s| - 1 - k]
    ensures t == Reversed(s)
  {
    forall k | 0 <= k < |s|
      ensures t[k] == Reversed(s)[k]
    {
      ReversedAt(s, k);
    }
  }

  /** Reversing twice is the identity (memrev applied twice restores the buffer). */
  lemma ReversedTwice<T>(s: seq<T>)
    ensures Reversed(Reversed(s)) == s
  {
    var r := Reversed(s);
    forall k | 0 <= k < |s|
      ensures s[k] == r[|r| - 1 - k]
    {
      ReversedAt(s, |s| - 1 - k);
    }
    MirrorIsReversed(r, s);
  }

  /** For an odd length the middle element does not move. */
  lemma ReversedKeepsMiddle<T>(s: seq<T>)
    requires |s| % 2 == 1
    ensures Reversed(s)[|s| / 2] == s[|s| / 2]
  {
    ReversedAt(s, |s| / 2);
  }

  /** A sequence of length at most one is its own reversal. */
  lemma ReversedShort<T>(s: seq<T>)
    requires |s| <= 1
    ensures Reversed(s) == s
  {
    if |s| == 1 {
      ReversedAt(s, 0);
    }
  }

  /**
   * memrev: reverses p[0..len) in place and returns p; a null pointer is
   * returned unchanged and nothing is touched.
   */
  method MemRev(p: array?<u8>, len: nat) returns (r: array?<u8>)
    requires p != null ==> len <= p.Length
    modifies p
    ensures r == p
    ensures p != null ==> p[..len] == Reversed(old(p[..len]))
    ensures p != null ==> p[len..] == old(p[len..])
  {
    if p == null {
      return null;
    }
    var i := 0;
    while i < len / 2
      invariant 0 <= i <= len / 2
      invariant forall k :: 0 <= k < i ==> p[k] == old(p[len - 1 - k]) && p[len - 1 - k] == old(p[k])
      invariant forall k :: i <= k < len - i ==> p[k] == old(p[k])
      invariant p[len..] == old(p[len..])
    {
      var c := p[i];
      p[i] := p[len - i - 1];
      p[len - i - 1] := c;
      i := i + 1;
    }
    MirrorIsReversed(old(p[..len]), p[..len]);
    return p;
  }
}

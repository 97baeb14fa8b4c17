/**
 * The bounded, append-only string builder of modules/string_builder.c. The
 * builder borrows a caller's char buffer of `capacity` bytes, keeps the
 * number of bytes written in `len`, and always keeps one byte in reserve
 * for a terminator, so `len` never exceeds `capacity - 1`.
 */
module StringBuilder {
  import opened EmblibUtil

  class StringBuilder {
    var len: nat
    var capacity: nat
    var s: array<u8>

    /** The builder invariant: a non-empty buffer with one byte reserved. */
    ghost predicate Valid()
      reads this
    {
      0 < capacity <= s.Length && len <= capacity - 1
    }

    /** The bytes appended so far. */
    ghost function Text(): seq<u8>
      reads this, s
      requires Valid()
    {
      s[..len]
    }

    constructor Attach(buf: array<u8>, size: nat)
      requires 0 < size <= buf.Length
      ensures Valid() && s == buf && capacity == size && len == 0
    {
      s := buf;
      capacity := size;
      len := 0;
    }

    /**
     * sb_init: fails for a missing buffer or a zero size; otherwise the
     * builder is empty, its capacity is `size` and s[0] becomes NUL.
     */
    static method Init(buf: array?<u8>, size: nat) returns (sb: StringBuilder?)
      requires buf != null ==> size <= buf.Length
      modifies buf
      ensures (sb != null) == (buf != null && size > 0)
      ensures sb != null ==> fresh(sb) && sb.Valid() && sb.s == buf && sb.capacity == size
      ensures sb != null ==> sb.len == 0 && sb.Text() == [] && buf[0] == 0 && buf[1..] == old(buf[1..])
      ensures sb == null ==> buf == null || unchanged(buf)
    {
      if buf == null || size == 0 {
        return null;
      }
      sb := new StringBuilder.Attach(buf, size);
      buf[0] := 0;
    }

    /** sb_get_remainning_bytes: the room left before the reserved byte. */
    function RemainingBytes(): (r: nat)
      reads this
      requires Valid()
      ensures len + r < capacity
      ensures len + r + 1 == capacity
    {
      capacity - len - 1
    }

    /** sb_get_len: the number of bytes appended, which stays below the capacity. */
    function GetLen(): (r: nat)
      reads this
      requires Valid()
      ensures r < capacity
    {
      len
    }

    /** sb_get_capacity: the size of the borrowed buffer, never zero. */
    function GetCapacity(): (r: nat)
      reads this
      requires Valid()
      ensures 0 < r <= s.Length
    {
      capacity
    }

    /** sb_str: the borrowed buffer itself. */
    function Str(): (r: array<u8>)
      reads this
      requires Valid()
      ensures r.Length >= capacity && r == s
    {
      s
    }

    /**
     * sb_append_char_array: copies `n` bytes of `buffer` to s[len..len+n)
     * and grows `len` by `n`. Fails, changing nothing, for a missing buffer,
     * `n == 0`, or `n` larger than the remaining room. No terminator is
     * written: the bytes from the new `len` on are untouched.
     */
    method AppendCharArray(buffer: array?<u8>, n: nat) returns (ok: bool)
      requires Valid()
      requires buffer != null ==> n <= buffer.Length
      modifies this, s
      ensures Valid() && s == old(s) && capacity == old(capacity)
      ensures ok == (buffer != null && n > 0 && n <= old(RemainingBytes()))
      ensures ok ==> len == old(len) + n && Text() == old(Text()) + old(buffer[..n])
      ensures !ok ==> len == old(len)
      ensures s[len..] == old(s[..])[len..]
      ensures !ok ==> s[..] == old(s[..])
    {
      if buffer == null || n == 0 || RemainingBytes() < n {
        return false;
      }
      var src := buffer[..n];
      forall k | 0 <= k < n {
        s[len + k] := src[k];
      }
      len := len + n;
      return true;
    }
  }

  /** The builder test: a 32-byte buffer takes "ABCDEF" and then holds six bytes. */
  method AppendExample() returns (capacity: nat, len: nat)
    ensures capacity == 32 && len == 6
  {
    var buf := new u8[32](_ => 0);
    var sb := StringBuilder.Init(buf, 32);
    var text := new u8[6](k requires 0 <= k < 6 => (0x41 + k) as u8);
    var ok := sb.AppendCharArray(text, 6);
    capacity, len := sb.GetCapacity(), sb.GetLen();
  }
}

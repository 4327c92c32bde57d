/** `struct abuf`: the output buffer the screen is drawn into before a single
    `write`. `abAppend` grows it by reallocating to the new length and
    copying the new bytes in after the old ones. */
module AppendBuffer {
  import opened Bytes

  class ABuf {
    var b: array<byte>
    var len: int

    /** `len` is the size of the allocation, every byte of which is used. */
    ghost predicate Valid()
      reads this
    {
      len == b.Length
    }

    /** The bytes appended so far. */
    ghost function Contents(): seq<byte>
      reads this, b
      requires Valid()
    {
      b[..len]
    }

    /** `ABUF_INIT`: no bytes. */
    constructor ()
      ensures Valid() && Contents() == []
    {
      b := new byte[0];
      len := 0;
    }

    /** `abAppend(ab, s, n)`: the first `n` bytes of `s` go after the bytes
        already in the buffer, in a fresh allocation of `len + n` bytes. */
    method Append(s: seq<byte>, n: int)
      requires Valid() && 0 <= n <= |s|
      modifies this
      ensures Valid() && fresh(b)
      ensures Contents() == old(Contents()) + s[..n]
      ensures len == old(len) + n
    {
      var used, prev := len, b;
      var grown := new byte[used + n];
      var k := 0;
      while k < used
        invariant 0 <= k <= used
        invariant grown[..k] == prev[..k]
      {
        grown[k] := prev[k];
        k := k + 1;
      }
      k := 0;
      while k < n
        invariant 0 <= k <= n
        invariant grown[..used] == prev[..used]
        invariant grown[used..used + k] == s[..k]
      {
        grown[used + k] := s[k];
        k := k + 1;
      }
      assert grown[..used + n] == grown[..used] + grown[used..used + n];
      b := grown;
      len := used + n;
    }
  }
}

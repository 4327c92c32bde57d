/** Bytes as flit.c keeps them in `char` buffers, the byte values the editor
    singles out, and the two conversions between a `char` and the `int` a key
    travels in. */
module Bytes {

  /** One byte of a row, of a file or of terminal input. */
  type byte = b: int | 0 <= b < 256

  const NUL: byte := 0
  const TAB: byte := 9
  const NL: byte := 10
  const CR: byte := 13
  const ESC: byte := 27
  const SPACE: byte := 32

  /** The `int` a `char` holding `b` widens to. `char` is signed on the
      platforms the editor is built for, so bytes 128..255 widen to negative
      values; bytes below 128 keep their value. */
  function SignedChar(b: byte): (v: int)
    ensures -128 <= v < 128
    ensures b < 128 ==> v == b
    ensures b >= 128 ==> v == b - 256
  {
    if b < 128 then b else b - 256
  }

  /** The byte an `int` becomes when it is stored into a `char`: its low eight
      bits (two's complement truncation). */
  function ToByte(v: int): (b: byte)
    ensures (v - b) % 256 == 0
    ensures 0 <= v < 256 ==> b == v
  {
    v % 256
  }

  /** Widening a `char` to `int` and storing it back gives the same byte. */
  lemma StoreWidenedChar(b: byte)
    ensures ToByte(SignedChar(b)) == b
  {
  }
}

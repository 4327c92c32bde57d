/** The keys the editor distinguishes (the `editorKey` enum and `CTRL_KEY`) and
    the decoding half of `editorReadKey`: turning the byte that arrived, plus
    whatever bytes arrive before the read timeout, into one key. */
module Keys {
  import opened Bytes

  const BACKSPACE: int := 127
  const LEFT: int := 1000
  const RIGHT: int := 1001
  const UP: int := 1002
  const DOWN: int := 1003
  const DEL: int := 1004
  const P_UP: int := 1005
  const P_DOWN: int := 1006

  /** `CTRL_KEY(k)`: the control code of an ASCII letter, its low five bits. */
  function CtrlKey(k: char): (code: int)
    requires k as int < 128
    ensures 0 <= code < 32
    ensures 'a' <= k <= 'z' ==> code == k as int - 'a' as int + 1
  {
    (k as int) % 32
  }

  const CTRL_H: int := CtrlKey('h')
  const CTRL_L: int := CtrlKey('l')
  const CTRL_Q: int := CtrlKey('q')
  const CTRL_S: int := CtrlKey('s')

  /** The keys that are not a byte: the arrows, delete and the page keys. */
  predicate IsNamedKey(k: int) {
    LEFT <= k <= P_DOWN
  }

  /** A decoded key and how many of the pending bytes were read for it. */
  datatype Decoded = Decoded(key: int, used: nat)

  /** `editorReadKey` once its blocking read has delivered byte `c`. `pending`
      are the bytes that each follow-up `read` would deliver before its
      timeout; a follow-up read past the end of `pending` times out. */
  function ReadKey(c: byte, pending: seq<byte>): (d: Decoded)
    ensures d.used <= |pending| && d.used <= 3
    ensures c != ESC ==> d == Decoded(SignedChar(c), 0)
    ensures c == ESC ==> IsNamedKey(d.key) || d.key == ESC
    ensures IsNamedKey(d.key) || -128 <= d.key < 128
  {
    if c != ESC then Decoded(SignedChar(c), 0)
    else if |pending| < 2 then Decoded(ESC, |pending|)
    else if pending[0] != '[' as int then Decoded(ESC, 2)
    else if '0' as int <= pending[1] <= '9' as int then
      if |pending| < 3 then Decoded(ESC, 2)
      else if pending[2] != '~' as int then Decoded(ESC, 3)
      else if pending[1] == '3' as int then Decoded(DEL, 3)
      else if pending[1] == '5' as int then Decoded(P_UP, 3)
      else if pending[1] == '6' as int then Decoded(P_DOWN, 3)
      else Decoded(ESC, 3)
    else if pending[1] == 'A' as int then Decoded(UP, 2)
    else if pending[1] == 'B' as int then Decoded(DOWN, 2)
    else if pending[1] == 'C' as int then Decoded(RIGHT, 2)
    else if pending[1] == 'D' as int then Decoded(LEFT, 2)
    else Decoded(ESC, 2)
  }

  /** The bytes a terminal sends after ESC for a named key. */
  function EscapeSequence(k: int): (s: seq<byte>)
    requires IsNamedKey(k)
    ensures 2 <= |s| <= 3 && s[0] == '[' as int
  {
    if k == UP then ['[' as int, 'A' as int]
    else if k == DOWN then ['[' as int, 'B' as int]
    else if k == RIGHT then ['[' as int, 'C' as int]
    else if k == LEFT then ['[' as int, 'D' as int]
    else if k == DEL then ['[' as int, '3' as int, '~' as int]
    else if k == P_UP then ['[' as int, '5' as int, '~' as int]
    else ['[' as int, '6' as int, '~' as int]
  }

  /** Every named key is decoded from its escape sequence, whatever follows it,
      and exactly the sequence's bytes are consumed. */
  lemma DecodeEscapeSequence(k: int, rest: seq<byte>)
    requires IsNamedKey(k)
    ensures ReadKey(ESC, EscapeSequence(k) + rest) == Decoded(k, |EscapeSequence(k)|)
  {
  }

  /** Conversely, a named key comes only from ESC followed by that key's
      escape sequence: named keys never collide with a byte value. */
  lemma NamedKeyOnlyFromSequence(c: byte, pending: seq<byte>)
    requires IsNamedKey(ReadKey(c, pending).key)
    ensures c == ESC
    ensures ReadKey(c, pending).used == |EscapeSequence(ReadKey(c, pending).key)|
    ensures pending[..ReadKey(c, pending).used] == EscapeSequence(ReadKey(c, pending).key)
  {
  }

  /** ESC with fewer than two bytes behind it (a read timed out) is a bare ESC. */
  lemma TimeoutIsBareEscape(pending: seq<byte>)
    requires |pending| < 2
    ensures ReadKey(ESC, pending) == Decoded(ESC, |pending|)
  {
  }
}

/** The editor state of `struct editorConfig` as a value, and what each
    operation of flit.c does to it. The class in module Editor updates its
    fields in place and is proved to follow these functions; the lemmas here
    are the properties the editor keeps: the cursor stays in the document, the
    window keeps the cursor visible, typing then backspacing restores a row. */
module EditorState {
  import opened Bytes
  import opened Keys
  import opened RowRender
  import opened FileFormat

  /** `rows` holds the `chars` of every row; `render` is never stored here
      because it is always `Render` of `chars`. `numrows` is |rows|. */
  datatype State = State(
    rows: seq<seq<byte>>,
    cx: int, cy: int, rx: int,
    rowoff: int, coloff: int,
    screenrows: int, screencols: int,
    dirty: nat)

  /** What the key handler asks of its caller besides the state change. */
  datatype Action = Continue | Save | Quit

  function Min(a: int, b: int): int { if a <= b then a else b }
  function Max(a: int, b: int): int { if a >= b then a else b }

  /** The length of row `y`, 0 for the virtual row past the end. */
  function RowLen(rows: seq<seq<byte>>, y: int): nat {
    if 0 <= y < |rows| then |rows[y]| else 0
  }

  /** `cy` names a row or the virtual row `numrows`, and `cx` a position in it. */
  predicate CursorValid(s: State) {
    0 <= s.cy <= |s.rows| && 0 <= s.cx <= RowLen(s.rows, s.cy)
  }

  /** The weaker state the page keys pass through: `cx` may lie past the end. */
  predicate CursorInDocument(s: State) {
    0 <= s.cy <= |s.rows| && 0 <= s.cx
  }

  /** The invariant the editor keeps between keypresses. */
  predicate Valid(s: State) {
    && CursorValid(s)
    && s.screenrows >= 1 && s.screencols >= 1
    && 0 <= s.rowoff <= |s.rows| && 0 <= s.coloff
  }

  // ---------------------------------------------------------------- row store

  /** Where `editorRowInsertChar` inserts: `at`, or the end of the row when
      `at` is out of range. */
  function InsertPos(s: seq<byte>, at: int): (p: nat)
    ensures p <= |s|
    ensures 0 <= at <= |s| ==> p == at
    ensures at < 0 || at > |s| ==> p == |s|
  {
    if at < 0 || at > |s| then |s| else at
  }

  /** The row bytes after `editorRowInsertChar(row, at, c)`. */
  function InsertByte(s: seq<byte>, at: int, c: byte): (r: seq<byte>)
    ensures |r| == |s| + 1
    ensures r[InsertPos(s, at)] == c
    ensures forall k :: 0 <= k < InsertPos(s, at) ==> r[k] == s[k]
    ensures forall k :: InsertPos(s, at) < k < |r| ==> r[k] == s[k - 1]
  {
    var p := InsertPos(s, at);
    s[..p] + [c] + s[p..]
  }

  /** The row bytes after deleting byte `at`. */
  function DeleteByte(s: seq<byte>, at: int): (r: seq<byte>)
    requires 0 <= at < |s|
    ensures |r| == |s| - 1
    ensures forall k :: 0 <= k < at ==> r[k] == s[k]
    ensures forall k :: at <= k < |r| ==> r[k] == s[k + 1]
  {
    s[..at] + s[at + 1..]
  }

  /** Inserting a byte and deleting it again at the same in-range position
      restores the row's bytes, and so its size; its `render` and `rsize`,
      which are recomputed from the bytes, are restored with them. */
  lemma {:induction false} InsertThenDelete(s: seq<byte>, at: int, c: byte)
    requires 0 <= at <= |s|
    ensures DeleteByte(InsertByte(s, at, c), at) == s
  {
    var ins := InsertByte(s, at, c);
    assert ins == s[..at] + [c] + s[at..];
    assert ins[..at] == s[..at] && ins[at + 1..] == s[at..];
    assert s[..at] + s[at..] == s;
  }

  /** Deleting a byte and inserting it back at the same position restores
      the row. */
  lemma {:induction false} DeleteThenInsert(s: seq<byte>, at: int)
    requires 0 <= at < |s|
    ensures InsertByte(DeleteByte(s, at), at, s[at]) == s
  {
    var del := DeleteByte(s, at);
    assert del == s[..at] + s[at + 1..];
    assert del[..at] == s[..at] && del[at..] == s[at + 1..];
    assert s[..at] + [s[at]] + s[at + 1..] == s;
  }

  /** `editorAppendRow`: a new last row; the dirty counter goes up. */
  function AppendRowF(s: State, line: seq<byte>): (t: State)
    ensures |t.rows| == |s.rows| + 1 && t.rows[..|s.rows|] == s.rows && t.rows[|s.rows|] == line
    ensures t.dirty == s.dirty + 1
    ensures t == s.(rows := t.rows, dirty := t.dirty)
  {
    s.(rows := s.rows + [line], dirty := s.dirty + 1)
  }

  /** `editorOpen`: every line of the file appended as a row, then the
      dirty counter cleared. */
  function OpenF(s: State, data: seq<byte>): (t: State)
    ensures |t.rows| == |s.rows| + |LoadRows(data)| && t.rows[..|s.rows|] == s.rows
    ensures t.rows[|s.rows|..] == LoadRows(data)
    ensures t.dirty == 0
    ensures t == s.(rows := t.rows, dirty := t.dirty)
  {
    s.(rows := s.rows + LoadRows(data), dirty := 0)
  }

  /** Opening a file keeps the editor invariant and leaves the rows already
      there, the cursor and the window alone. */
  lemma {:induction false} OpenKeepsValid(s: State, data: seq<byte>)
    requires Valid(s)
    ensures Valid(OpenF(s, data))
    ensures OpenF(s, data).rows[..|s.rows|] == s.rows
  {
    var t := OpenF(s, data);
    assert t.rows[..|s.rows|] == s.rows;
    if s.cy < |s.rows| {
      assert t.rows[s.cy] == s.rows[s.cy];
    }
  }

  /** `editorRowInsertChar` on row `y`; it leaves the dirty counter alone. */
  function RowInsertCharF(s: State, y: int, at: int, c: byte): (t: State)
    requires 0 <= y < |s.rows|
    ensures |t.rows| == |s.rows| && |t.rows[y]| == |s.rows[y]| + 1
    ensures forall i :: 0 <= i < |s.rows| && i != y ==> t.rows[i] == s.rows[i]
    ensures t == s.(rows := t.rows)
  {
    s.(rows := s.rows[y := InsertByte(s.rows[y], at, c)])
  }

  /** `editorRowDeleteChar` on row `y` with the bound `at >= size` (see
      RowDeleteCharAsWritten for the bound flit.c writes); only an actual
      deletion bumps the dirty counter. */
  function RowDeleteCharF(s: State, y: int, at: int): (t: State)
    requires 0 <= y < |s.rows|
    ensures |t.rows| == |s.rows|
    ensures forall i :: 0 <= i < |s.rows| && i != y ==> t.rows[i] == s.rows[i]
    ensures 0 <= at < |s.rows[y]| ==> |t.rows[y]| == |s.rows[y]| - 1 && t.dirty == s.dirty + 1
    ensures t == s.(rows := t.rows, dirty := t.dirty)
  {
    if at < 0 || at >= |s.rows[y]| then s
    else s.(rows := s.rows[y := DeleteByte(s.rows[y], at)], dirty := s.dirty + 1)
  }

  /** The row as flit.c leaves it: the first `size` bytes of its buffer, and
      `size`, which can become negative. */
  datatype RawRow = RawRow(bytes: seq<byte>, size: int)

  /** `editorRowDeleteChar` exactly as flit.c writes it: the guard rejects
      only `at > size`, the `memmove` shifts the `size - at` bytes after `at`
      (the NUL terminator included; none when `at == size`) one place down,
      and `size` drops by one. */
  function RowDeleteCharAsWritten(chars: seq<byte>, at: int): (r: RawRow)
    ensures at < 0 || at > |chars| ==> r == RawRow(chars, |chars|)
    ensures 0 <= at < |chars| ==> r == RawRow(DeleteByte(chars, at), |chars| - 1)
  {
    if at < 0 || at > |chars| then RawRow(chars, |chars|)
    else
      var buf := chars + [NUL];
      var moved := buf[..at] + buf[at + 1..] + [buf[|chars|]];
      var size := |chars| - 1;
      RawRow(if size >= 0 then moved[..size] else [], size)
  }

  /** With `at == size` on a non-empty row, flit.c's guard lets the call
      through and the row loses its last byte, though `at` names no byte. */
  lemma {:induction false} DeleteAtSizeDropsLastByte(chars: seq<byte>)
    requires chars != []
    ensures RowDeleteCharAsWritten(chars, |chars|) == RawRow(chars[..|chars| - 1], |chars| - 1)
  {
    var buf := chars + [NUL];
    assert buf[..|chars|] + buf[|chars| + 1..] + [buf[|chars|]] == chars + [NUL];
  }

  /** With `at == size == 0`, the row's size becomes -1. */
  lemma DeleteAtSizeOnEmptyRow()
    ensures RowDeleteCharAsWritten([], 0).size == -1
  {
  }

  /** The corrected bound leaves a row alone whenever `at` names no byte. */
  lemma RowDeleteCharOutOfRange(s: State, y: int, at: int)
    requires 0 <= y < |s.rows| && (at < 0 || at >= |s.rows[y]|)
    ensures RowDeleteCharF(s, y, at) == s
  {
  }

  // ------------------------------------------------------- editor operations

  /** `editorInsertChar`: on the virtual row first append an empty row, then
      insert the key's byte at the cursor and move the cursor right. */
  function InsertCharF(s: State, c: int): (t: State)
    requires 0 <= s.cy <= |s.rows|
    ensures |t.rows| == if s.cy == |s.rows| then |s.rows| + 1 else |s.rows|
    ensures |t.rows[s.cy]| == RowLen(s.rows, s.cy) + 1
    ensures forall i :: 0 <= i < |s.rows| && i != s.cy ==> t.rows[i] == s.rows[i]
    ensures t == s.(rows := t.rows, cx := s.cx + 1, dirty := t.dirty)
  {
    var s1 := if s.cy == |s.rows| then AppendRowF(s, []) else s;
    RowInsertCharF(s1, s1.cy, s1.cx, ToByte(c)).(cx := s1.cx + 1)
  }

  /** `editorDeleteChar`: nothing on the virtual row or at column 0; otherwise
      delete the byte before the cursor and move the cursor left. */
  function DeleteCharF(s: State): (t: State)
    requires 0 <= s.cy <= |s.rows|
    ensures |t.rows| == |s.rows|
    ensures forall i :: 0 <= i < |s.rows| && i != s.cy ==> t.rows[i] == s.rows[i]
    ensures t.cx == s.cx - 1 || t == s
    ensures t == s.(rows := t.rows, cx := t.cx, dirty := t.dirty)
  {
    if s.cy == |s.rows| then s
    else if s.cx > 0 then RowDeleteCharF(s, s.cy, s.cx - 1).(cx := s.cx - 1)
    else s
  }

  /** With a valid cursor, `editorDeleteChar` never passes `at == size`, so
      flit.c's guard and the corrected one delete the same byte. */
  lemma DeleteCharAgrees(s: State)
    requires CursorValid(s) && s.cy < |s.rows| && s.cx > 0
    ensures RowDeleteCharAsWritten(s.rows[s.cy], s.cx - 1)
         == RawRow(DeleteCharF(s).rows[s.cy], |DeleteCharF(s).rows[s.cy]|)
  {
  }

  lemma {:induction false} InsertCharKeepsValid(s: State, c: int)
    requires Valid(s)
    ensures Valid(InsertCharF(s, c))
    ensures InsertCharF(s, c).cx == s.cx + 1 && InsertCharF(s, c).cy == s.cy
    ensures |InsertCharF(s, c).rows| == if s.cy == |s.rows| then |s.rows| + 1 else |s.rows|
  {
    var s1 := if s.cy == |s.rows| then AppendRowF(s, []) else s;
    var row := InsertByte(s1.rows[s.cy], s.cx, ToByte(c));
    var t := InsertCharF(s, c);
    assert t == s1.(rows := s1.rows[s.cy := row], cx := s.cx + 1);
    assert RowLen(t.rows, t.cy) == |s1.rows[s.cy]| + 1;
  }

  lemma DeleteCharKeepsValid(s: State)
    requires Valid(s)
    ensures Valid(DeleteCharF(s))
    ensures |DeleteCharF(s).rows| == |s.rows| && DeleteCharF(s).cy == s.cy
  {
  }

  /** Typing a byte and then deleting it backwards restores the document and
      the cursor; the dirty counter has gone up by one (only the deletion
      counts), or by two on the virtual row, which keeps the appended empty
      row. */
  lemma {:induction false} TypeThenBackspace(s: State, c: int)
    requires Valid(s)
    ensures var t := DeleteCharF(InsertCharF(s, c));
      && t.cx == s.cx && t.cy == s.cy
      && (s.cy < |s.rows| ==> t.rows == s.rows && t.dirty == s.dirty + 1)
      && (s.cy == |s.rows| ==> t.rows == s.rows + [[]] && t.dirty == s.dirty + 2)
  {
    var s1 := if s.cy == |s.rows| then AppendRowF(s, []) else s;
    InsertThenDelete(s1.rows[s.cy], s.cx, ToByte(c));
    var t := DeleteCharF(InsertCharF(s, c));
    assert t.rows == s1.rows;
  }

  // ------------------------------------------------------------------ viewport

  /** `editorScroll`: `rx` from `cx` on a real row, then the smallest shift of
      the offsets that brings the cursor into the window. */
  function ScrollF(s: State): (t: State)
    requires Valid(s)
    ensures t == s.(rx := t.rx, rowoff := t.rowoff, coloff := t.coloff)
  {
    var rx := if s.cy < |s.rows| then |Render(s.rows[s.cy][..s.cx])| else 0;
    var rowoff1 := if s.cy < s.rowoff then s.cy else s.rowoff;
    var rowoff2 := if s.cy >= rowoff1 + s.screenrows then s.cy - s.screenrows + 1 else rowoff1;
    var coloff1 := if rx < s.coloff then rx else s.coloff;
    var coloff2 := if rx >= coloff1 + s.screencols then rx - s.screencols + 1 else coloff1;
    s.(rx := rx, rowoff := rowoff2, coloff := coloff2)
  }

  /** After scrolling the cursor is inside the window, the offsets stay
      non-negative, and `rx` is the rendered column of `cx`. */
  lemma ScrollShowsCursor(s: State)
    requires Valid(s)
    ensures var t := ScrollF(s);
      && Valid(t)
      && t.rowoff <= t.cy < t.rowoff + t.screenrows
      && t.coloff <= t.rx < t.coloff + t.screencols
      && t.rx == (if s.cy < |s.rows| then |Render(s.rows[s.cy][..s.cx])| else 0)
      && t == s.(rx := t.rx, rowoff := t.rowoff, coloff := t.coloff)
  {
  }

  /** An offset already showing the cursor is left as it was, and scrolling
      a second time changes nothing. */
  lemma ScrollIsMinimal(s: State)
    requires Valid(s)
    ensures s.rowoff <= s.cy < s.rowoff + s.screenrows ==> ScrollF(s).rowoff == s.rowoff
    ensures ScrollF(s).rx == s.rx && s.coloff <= s.rx < s.coloff + s.screencols ==> ScrollF(s).coloff == s.coloff
    ensures ScrollF(ScrollF(s)) == ScrollF(s)
  {
  }

  // ------------------------------------------------------------------- cursor

  /** `editorMoveCursor`: one arrow key, with wrap at line ends, then `cx`
      cut back to the length of the row the cursor ends on. */
  function MoveF(s: State, key: int): (t: State)
    requires CursorInDocument(s)
    ensures CursorValid(t)
    ensures t == s.(cx := t.cx, cy := t.cy)
  {
    var cy :=
      if key == LEFT then (if s.cx == 0 && s.cy > 0 then s.cy - 1 else s.cy)
      else if key == RIGHT then (if s.cy < |s.rows| && s.cx == |s.rows[s.cy]| then s.cy + 1 else s.cy)
      else if key == UP then (if s.cy != 0 then s.cy - 1 else s.cy)
      else if key == DOWN then (if s.cy < |s.rows| then s.cy + 1 else s.cy)
      else s.cy;
    var cx :=
      if key == LEFT then (if s.cx != 0 then s.cx - 1 else if s.cy > 0 then |s.rows[s.cy - 1]| else s.cx)
      else if key == RIGHT then
        (if s.cy < |s.rows| && s.cx < |s.rows[s.cy]| then s.cx + 1
         else if s.cy < |s.rows| && s.cx == |s.rows[s.cy]| then 0
         else s.cx)
      else s.cx;
    s.(cx := Min(cx, RowLen(s.rows, cy)), cy := cy)
  }

  /** The wraps and stops of the arrow keys. */
  lemma MoveAtEdges(s: State)
    requires CursorValid(s)
    ensures s.cx == 0 && s.cy > 0 ==>
      MoveF(s, LEFT).cy == s.cy - 1 && MoveF(s, LEFT).cx == |s.rows[s.cy - 1]|
    ensures s.cx == 0 && s.cy == 0 ==> MoveF(s, LEFT).cx == 0 && MoveF(s, LEFT).cy == 0
    ensures s.cy < |s.rows| && s.cx == |s.rows[s.cy]| ==>
      MoveF(s, RIGHT).cy == s.cy + 1 && MoveF(s, RIGHT).cx == 0
    ensures s.cy == |s.rows| ==> MoveF(s, RIGHT) == s && MoveF(s, DOWN) == s
    ensures s.cy == 0 ==> MoveF(s, UP) == s
  {
  }

  /** `n` moves with the same key, as the page keys make them. */
  function MoveNF(s: State, key: int, n: nat): (t: State)
    requires CursorInDocument(s)
    ensures CursorInDocument(t)
    ensures n > 0 ==> CursorValid(t)
    ensures t == s.(cx := t.cx, cy := t.cy)
  {
    if n == 0 then s else MoveF(MoveNF(s, key, n - 1), key)
  }

  /** `n` moves up stop at row 0. */
  lemma {:induction false} MoveNUp(s: State, n: nat)
    requires CursorInDocument(s)
    ensures MoveNF(s, UP, n).cy == Max(s.cy - n, 0)
  {
    if n > 0 {
      MoveNUp(s, n - 1);
    }
  }

  /** `n` moves down stop at the virtual row `numrows`. */
  lemma {:induction false} MoveNDown(s: State, n: nat)
    requires CursorInDocument(s)
    ensures MoveNF(s, DOWN, n).cy == Min(s.cy + n, |s.rows|)
  {
    if n > 0 {
      MoveNDown(s, n - 1);
    }
  }

  /** The page keys of `editorHandleKeyPress`: put `cy` at the top of the
      window (page up) or at its bottom, cut to `numrows` (page down), then move
      a screenful of rows up or down. */
  function PageF(s: State, key: int): (t: State)
    requires Valid(s)
    ensures CursorValid(t)
    ensures t == s.(cx := t.cx, cy := t.cy)
  {
    var top := if key == P_UP then s.rowoff else Min(s.rowoff + s.screenrows - 1, |s.rows|);
    MoveNF(s.(cy := top), if key == P_UP then UP else DOWN, s.screenrows)
  }

  /** Where the page keys land: a window above the top of the window or a
      window below its bottom, within the document. */
  lemma {:induction false} PageLanding(s: State, key: int)
    requires Valid(s)
    ensures Valid(PageF(s, key))
    ensures key == P_UP ==> PageF(s, key).cy == Max(s.rowoff - s.screenrows, 0)
    ensures key != P_UP ==> PageF(s, key).cy == Min(s.rowoff + 2 * s.screenrows - 1, |s.rows|)
    ensures PageF(s, key).rows == s.rows
  {
    var top := if key == P_UP then s.rowoff else Min(s.rowoff + s.screenrows - 1, |s.rows|);
    if key == P_UP {
      MoveNUp(s.(cy := top), s.screenrows);
    } else {
      MoveNDown(s.(cy := top), s.screenrows);
    }
  }

  // -------------------------------------------------------------- key handler

  /** The key handler's request to its caller: save on Ctrl-S, quit on
      Ctrl-Q (flit.c saves the file or exits there). */
  function KeyAction(c: int): (a: Action)
    ensures (a == Quit) == (c == CTRL_Q) && (a == Save) == (c == CTRL_S)
    ensures a != Continue ==> 0 < c < 32
  {
    if c == CTRL_Q then Quit else if c == CTRL_S then Save else Continue
  }

  /** The state change of `editorHandleKeyPress` for key `c`. Enter (a TODO),
      Ctrl-L, ESC, Ctrl-Q and Ctrl-S leave the state alone. */
  function DispatchF(s: State, c: int): (t: State)
    requires Valid(s)
    ensures t == s.(rows := t.rows, cx := t.cx, cy := t.cy, dirty := t.dirty)
    ensures KeyAction(c) != Continue ==> t == s
  {
    if c == CR || c == CTRL_L || c == ESC || c == CTRL_Q || c == CTRL_S then s
    else if c == BACKSPACE || c == CTRL_H then DeleteCharF(s)
    else if c == DEL then DeleteCharF(MoveF(s, RIGHT))
    else if c == P_UP || c == P_DOWN then PageF(s, c)
    else if c == UP || c == DOWN || c == LEFT || c == RIGHT then MoveF(s, c)
    else InsertCharF(s, c)
  }

  /** Every keypress keeps the editor invariant: the cursor stays in the
      document and the window offsets stay in range. Rows are never removed,
      and only typing, backspace and delete change their bytes. */
  lemma {:induction false} DispatchKeepsValid(s: State, c: int)
    requires Valid(s)
    ensures Valid(DispatchF(s, c))
    ensures |DispatchF(s, c).rows| >= |s.rows|
    ensures IsNamedKey(c) && c != DEL ==> DispatchF(s, c).rows == s.rows
  {
    if c == CR || c == CTRL_L || c == ESC || c == CTRL_Q || c == CTRL_S {
    } else if c == BACKSPACE || c == CTRL_H {
      DeleteCharKeepsValid(s);
    } else if c == DEL {
      DeleteCharKeepsValid(MoveF(s, RIGHT));
    } else if c == P_UP || c == P_DOWN {
      PageLanding(s, c);
    } else if c == UP || c == DOWN || c == LEFT || c == RIGHT {
    } else {
      InsertCharKeepsValid(s, c);
    }
  }
}

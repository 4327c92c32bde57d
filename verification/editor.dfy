/** The global `struct editorConfig E` of flit.c as a class whose methods
    update its fields in place, one method per editor function. A method with
    a matching function of module EditorState is proved to change the state
    exactly as that function says; the others are proved against the
    functions that specify them (`ReadLines` and `ReadLine` against
    `LoadRows`, `RowsToString` and `TotalLength` against `Serialize`,
    `DrawRow` against `VisibleSlice`, `MoveTimes` against `MoveNF`). Every
    method that changes the rows keeps each row's `render` equal to `Render`
    of its `chars`. */
module Editor {
  import opened Bytes
  import opened Keys
  import opened RowRender
  import opened FileFormat
  import opened EditorState
  import opened AppendBuffer
  import opened Screen

  /** `erow`: `size` is |chars| and `rsize` is |render|. */
  datatype Row = Row(chars: seq<byte>, render: seq<byte>)

  function CharsOf(rs: seq<Row>): (cs: seq<seq<byte>>)
    ensures |cs| == |rs| && forall i :: 0 <= i < |rs| ==> cs[i] == rs[i].chars
  {
    seq(|rs|, i requires 0 <= i < |rs| => rs[i].chars)
  }

  class EditorConfig {
    var cx: int
    var cy: int
    var rx: int
    var rowoff: int
    var coloff: int
    var screenrows: int
    var screencols: int
    var rows: seq<Row>
    var dirty: nat

    /** The fields as a value of the specification's state. */
    ghost function Snapshot(): State
      reads this
    {
      State(CharsOf(rows), cx, cy, rx, rowoff, coloff, screenrows, screencols, dirty)
    }

    /** No row's `render` is stale. */
    ghost predicate Rendered()
      reads this`rows
    {
      forall i {:trigger rows[i].render} :: 0 <= i < |rows| ==> rows[i].render == Render(rows[i].chars)
    }

    ghost predicate Valid()
      reads this
    {
      Rendered() && EditorState.Valid(Snapshot())
    }

    /** `initEditor`, given the terminal size `getWindowSize` reports: an
        empty document, the cursor home, two screen rows kept for the status
        and message bars. */
    constructor (termRows: int, termCols: int)
      requires termRows >= 3 && termCols >= 1
      ensures Valid()
      ensures Snapshot() == State([], 0, 0, 0, 0, 0, termRows - 2, termCols, 0)
    {
      cx, cy, rx := 0, 0, 0;
      rowoff, coloff := 0, 0;
      rows := [];
      dirty := 0;
      screenrows, screencols := termRows - 2, termCols;
    }

    /** `editorAppendRow`: a new last row with its rendering; dirty goes up. */
    method AppendRow(s: seq<byte>)
      requires Rendered()
      modifies this`rows, this`dirty
      ensures Rendered()
      ensures Snapshot() == AppendRowF(old(Snapshot()), s)
    {
      var render := UpdateRow(s);
      rows := rows + [Row(s, render)];
      dirty := dirty + 1;
      assert CharsOf(rows) == old(CharsOf(rows)) + [s];
    }

    /** `editorRowInsertChar(&E.row[y], at, c)`: `at` out of range means the
        end of the row; the key is stored as a `char`. */
    method RowInsertChar(y: int, at: int, c: int)
      requires Rendered() && 0 <= y < |rows|
      modifies this`rows
      ensures Rendered()
      ensures Snapshot() == RowInsertCharF(old(Snapshot()), y, at, ToByte(c))
    {
      var chars := rows[y].chars;
      var p := at;
      if p < 0 || p > |chars| {
        p := |chars|;
      }
      var grown := chars[..p] + [ToByte(c)] + chars[p..];
      var render := UpdateRow(grown);
      rows := rows[y := Row(grown, render)];
      assert CharsOf(rows) == old(CharsOf(rows))[y := grown];
    }

    /** `editorRowDeleteChar(&E.row[y], at)` with the bound `at >= size`:
        a deletion shifts the bytes after `at` down and bumps dirty. */
    method RowDeleteChar(y: int, at: int)
      requires Rendered() && 0 <= y < |rows|
      modifies this`rows, this`dirty
      ensures Rendered()
      ensures Snapshot() == RowDeleteCharF(old(Snapshot()), y, at)
    {
      var chars := rows[y].chars;
      if at < 0 || at >= |chars| {
        return;
      }
      var shrunk := chars[..at] + chars[at + 1..];
      var render := UpdateRow(shrunk);
      rows := rows[y := Row(shrunk, render)];
      dirty := dirty + 1;
      assert CharsOf(rows) == old(CharsOf(rows))[y := shrunk];
    }

    /** `editorInsertChar`. */
    method InsertChar(c: int)
      requires Valid()
      modifies this`rows, this`dirty, this`cx
      ensures Valid()
      ensures Snapshot() == InsertCharF(old(Snapshot()), c)
    {
      if cy == |rows| {
        AppendRow([]);
      }
      RowInsertChar(cy, cx, c);
      cx := cx + 1;
      InsertCharKeepsValid(old(Snapshot()), c);
    }

    /** `editorDeleteChar`. */
    method DeleteChar()
      requires Valid()
      modifies this`rows, this`dirty, this`cx
      ensures Valid()
      ensures Snapshot() == DeleteCharF(old(Snapshot()))
    {
      if cy == |rows| {
        DeleteCharKeepsValid(Snapshot());
        return;
      }
      if cx > 0 {
        RowDeleteChar(cy, cx - 1);
        cx := cx - 1;
      }
      DeleteCharKeepsValid(old(Snapshot()));
    }

    /** `editorRowsToString`: the length of every row plus its '\n', then the
        rows copied one after the other through a moving pointer. */
    method RowsToString() returns (buf: seq<byte>, buflen: int)
      ensures buflen == |buf| == TotalLen(Snapshot().rows)
      ensures buf == Serialize(Snapshot().rows)
    {
      var rs := rows;
      ghost var all := CharsOf(rs);
      var totlen := TotalLength();
      buflen := totlen;
      var out := new byte[totlen];
      var p := 0;
      var j := 0;
      while j < |rs|
        invariant 0 <= j <= |rs| == |all|
        invariant 0 <= p && p + TotalLen(all[j..]) == totlen == out.Length
        invariant out[..p] == Serialize(all[..j])
      {
        var chars := rs[j].chars;
        assert chars == all[j];
        SerializeStep(all, j);
        ghost var prev := out[..p];
        CopyRow(out, p, chars);
        out[p + |chars|] := NL;
        assert out[..p + |chars| + 1] == prev + chars + [NL] by {
          assert out[..p + |chars| + 1] == out[..p] + out[p..p + |chars|] + [NL];
        }
        p := p + |chars| + 1;
        j := j + 1;
      }
      assert all[..j] == all;
      buf := out[..];
    }

    /** The first loop of `editorRowsToString`: `buflen`, the length of
        every row plus one for its '\n'. */
    method TotalLength() returns (totlen: int)
      ensures totlen == TotalLen(Snapshot().rows)
    {
      ghost var all := CharsOf(rows);
      totlen := 0;
      var j := 0;
      while j < |rows|
        invariant 0 <= j <= |rows|
        invariant totlen == TotalLen(all[..j])
      {
        SerializeStep(all, j);
        totlen := totlen + |rows[j].chars| + 1;
        j := j + 1;
      }
      assert all[..j] == all;
    }

    /** `editorOpen` on the bytes of the file: each line `getline` returns,
        without its trailing '\r' and '\n' bytes, is appended as a row; the
        dirty counter is then cleared. */
    method Open(data: seq<byte>)
      requires Valid()
      modifies this`rows, this`dirty
      ensures Valid()
      ensures Snapshot() == OpenF(old(Snapshot()), data)
    {
      ghost var s := Snapshot();
      ReadLines(data);
      dirty := 0;
      OpenKeepsValid(s, data);
    }

    /** The `getline` loop of `editorOpen`: every line of the file becomes a
        row after the rows already there. */
    method ReadLines(data: seq<byte>)
      requires Rendered()
      modifies this`rows, this`dirty
      ensures Rendered()
      ensures CharsOf(rows) == old(CharsOf(rows)) + LoadRows(data)
      ensures dirty == old(dirty) + |LoadRows(data)|
    {
      var pos := 0;
      while pos < |data|
        invariant 0 <= pos <= |data|
        invariant Rendered()
        invariant CharsOf(rows) + LoadRows(data[pos..]) == old(CharsOf(rows)) + LoadRows(data)
        invariant dirty + |LoadRows(data[pos..])| == old(dirty) + |LoadRows(data)|
        decreases |data| - pos
      {
        pos := ReadLine(data, pos);
      }
      assert data[pos..] == [];
    }

    /** One turn of the `getline` loop of `editorOpen`: the line starting at
        `pos` is appended as a row without its trailing '\r' and '\n' bytes;
        `next` is where the following line starts. */
    method ReadLine(data: seq<byte>, pos: int) returns (next: int)
      requires Rendered() && 0 <= pos < |data|
      modifies this`rows, this`dirty
      ensures Rendered()
      ensures next == pos + LineLen(data[pos..])
      ensures CharsOf(rows) == old(CharsOf(rows)) + [StripEol(data[pos..next])]
      ensures CharsOf(rows) + LoadRows(data[next..]) == old(CharsOf(rows)) + LoadRows(data[pos..])
      ensures dirty == old(dirty) + 1
    {
      next := GetLine(data, pos);
      LoadNextLine(data, pos, next);
      ghost var before := CharsOf(rows);
      var line := data[pos..next];
      var linelen := StripLength(line);
      AppendRow(line[..linelen]);
      MoveOne(before, StripEol(line), LoadRows(data[next..]));
    }

    /** `editorScroll`: `rx` from `cx`, then `rowoff` and `coloff` shifted just
        enough to bring the cursor into the window. */
    method Scroll()
      requires EditorState.Valid(Snapshot())
      modifies this`rx, this`rowoff, this`coloff
      ensures EditorState.Valid(Snapshot())
      ensures Snapshot() == ScrollF(old(Snapshot()))
    {
      ghost var t := ScrollF(Snapshot());
      rx := 0;
      if cy < |rows| {
        rx := RowCxToRx(rows[cy].chars, cx);
      }
      assert rx == t.rx;
      if cy < rowoff {
        rowoff := cy;
      }
      if cy >= rowoff + screenrows {
        rowoff := cy - screenrows + 1;
      }
      assert rowoff == t.rowoff;
      if rx < coloff {
        coloff := rx;
      }
      if rx >= coloff + screencols {
        coloff := rx - screencols + 1;
      }
      assert coloff == t.coloff;
      ScrollShowsCursor(old(Snapshot()));
    }

    /** `editorMoveCursor`. */
    method MoveCursor(key: int)
      requires CursorInDocument(Snapshot())
      modifies this`cx, this`cy
      ensures Snapshot() == MoveF(old(Snapshot()), key)
    {
      var onRow := cy < |rows|;
      if key == LEFT {
        if cx != 0 {
          cx := cx - 1;
        } else if cy > 0 {
          cy := cy - 1;
          cx := |rows[cy].chars|;
        }
      } else if key == RIGHT {
        if onRow && cx < |rows[cy].chars| {
          cx := cx + 1;
        } else if onRow && cx == |rows[cy].chars| {
          cy := cy + 1;
          cx := 0;
        }
      } else if key == UP {
        if cy != 0 {
          cy := cy - 1;
        }
      } else if key == DOWN {
        if cy < |rows| {
          cy := cy + 1;
        }
      }
      var rowlen := if cy < |rows| then |rows[cy].chars| else 0;
      if cx > rowlen {
        cx := rowlen;
      }
    }

    /** `editorHandleKeyPress`: decode the key from the byte that arrived and
        the bytes pending behind it, then act on it. Saving and quitting are
        returned to the caller as `action`; `used` is how many pending bytes
        the decoder read. */
    method HandleKeyPress(first: byte, pending: seq<byte>) returns (action: Action, used: nat)
      requires Valid()
      modifies this`rows, this`dirty, this`cx, this`cy
      ensures Valid()
      ensures var d := ReadKey(first, pending);
        && action == KeyAction(d.key) && used == d.used
        && Snapshot() == DispatchF(old(Snapshot()), d.key)
    {
      var d := ReadKey(first, pending);
      var c := d.key;
      used := d.used;
      action := KeyAction(c);
      DispatchKeepsValid(Snapshot(), c);
      if c == CR || c == CTRL_L || c == ESC || c == CTRL_Q || c == CTRL_S {
      } else if c == BACKSPACE || c == CTRL_H || c == DEL {
        if c == DEL {
          MoveCursor(RIGHT);
        }
        DeleteChar();
      } else if c == P_UP || c == P_DOWN {
        PageKey(c);
      } else if c == UP || c == DOWN || c == LEFT || c == RIGHT {
        MoveCursor(c);
      } else {
        InsertChar(c);
      }
    }

    /** The page-up / page-down branch of `editorHandleKeyPress`. */
    method PageKey(c: int)
      requires EditorState.Valid(Snapshot()) && (c == P_UP || c == P_DOWN)
      modifies this`cx, this`cy
      ensures EditorState.Valid(Snapshot())
      ensures Snapshot() == PageF(old(Snapshot()), c)
    {
      if c == P_UP {
        cy := rowoff;
      } else {
        cy := rowoff + screenrows - 1;
        if cy > |rows| {
          cy := |rows|;
        }
      }
      var key := if c == P_UP then UP else DOWN;
      assert PageF(old(Snapshot()), c) == MoveNF(Snapshot(), key, screenrows);
      MoveTimes(key, screenrows);
      PageLanding(old(Snapshot()), c);
    }

    /** The branch of `editorDrawRows` for a row of the document, reading the
        row's `render` (see Screen.SliceAsWritten for the bytes flit.c
        reads): the visible columns of the row's rendering are appended. */
    method DrawRow(ab: ABuf, filerow: int)
      requires Rendered() && EditorState.Valid(Snapshot()) && ab.Valid()
      requires 0 <= filerow < |rows|
      modifies ab
      ensures ab.Valid()
      ensures ab.Contents() == old(ab.Contents()) + VisibleSlice(Render(Snapshot().rows[filerow]), coloff, screencols)
    {
      AppendVisible(ab, rows[filerow].render, coloff, screencols);
    }

    /** The `while (times--) editorMoveCursor(...)` loop of the page keys. */
    method MoveTimes(key: int, times: nat)
      requires CursorInDocument(Snapshot())
      modifies this`cx, this`cy
      ensures Snapshot() == MoveNF(old(Snapshot()), key, times)
    {
      var left := times;
      while left > 0
        invariant 0 <= left <= times
        invariant CursorInDocument(Snapshot())
        invariant Snapshot() == MoveNF(old(Snapshot()), key, times - left)
      {
        MoveCursor(key);
        left := left - 1;
      }
    }
  }

  /** `getline`: the end of the line starting at `pos`, just past its '\n'
      or at the end of the data. */
  method GetLine(data: seq<byte>, pos: int) returns (end: int)
    requires 0 <= pos < |data|
    ensures end == pos + LineLen(data[pos..])
  {
    end := pos;
    while end < |data| && data[end] != NL
      invariant pos <= end <= |data|
      invariant forall k :: pos <= k < end ==> data[k] != NL
    {
      end := end + 1;
    }
    LineLenAt(data[pos..], end - pos);
    if end < |data| {
      end := end + 1;
    }
  }

  /** The `linelen` loop of `editorOpen`: trailing '\n' and '\r' bytes are
      cut off the line. */
  method StripLength(line: seq<byte>) returns (linelen: int)
    ensures 0 <= linelen <= |line| && line[..linelen] == StripEol(line)
  {
    linelen := |line|;
    assert line[..linelen] == line;
    while linelen > 0 && (line[linelen - 1] == NL || line[linelen - 1] == CR)
      invariant 0 <= linelen <= |line|
      invariant StripEol(line[..linelen]) == StripEol(line)
    {
      assert line[..linelen][..linelen - 1] == line[..linelen - 1];
      linelen := linelen - 1;
    }
  }

  /** The `memcpy` of one row into the save buffer at `p`. */
  method CopyRow(out: array<byte>, p: int, chars: seq<byte>)
    requires 0 <= p && p + |chars| <= out.Length
    modifies out
    ensures out[..p] == old(out[..p])
    ensures out[p..p + |chars|] == chars
  {
    var k := 0;
    while k < |chars|
      invariant 0 <= k <= |chars|
      invariant out[..p] == old(out[..p])
      invariant out[p..p + k] == chars[..k]
    {
      out[p + k] := chars[k];
      k := k + 1;
    }
  }
}

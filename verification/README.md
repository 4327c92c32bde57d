# flit: a verified model of the editor core

flit is a small kilo-style terminal text editor written in C (`flit.c`). It
keeps all of its state in one global `struct editorConfig E`. That state is a
list of rows, each holding its raw bytes `chars` and its tab-expanded form
`render`, plus the cursor (`cx`, `cy`), the rendered cursor column `rx`, the
window offsets (`rowoff`, `coloff`), the screen size and a `dirty` counter.
Key presses arrive as bytes and are decoded into keys, and each key edits the
rows or moves the cursor. Saving joins the rows with '\n'. Loading splits a
file into lines and strips the line endings.

This project models that core in Dafny on two layers:

- **Module EditorState** holds the state as a value (`State`) and has one
  function for each editor operation (`InsertCharF`, `ScrollF`, `MoveF`,
  `PageF`, `DispatchF`, …). The lemmas there are the properties the editor
  keeps:
  - the cursor stays inside the document;
  - scrolling keeps the cursor inside the window;
  - typing a byte and backspacing over it restores the row;
  - every key press preserves the invariant.
- **Module Editor** holds `class EditorConfig`, which mirrors `struct
  editorConfig`. Its fields are updated in place, one method per C function.
  Each method with a matching EditorState function is proved to change the
  fields exactly as that function says (`Snapshot() == XF(old(Snapshot()))`);
  the loop helpers of `editorOpen` (`ReadLines`, `ReadLine`) state the rows
  and `dirty` they leave. Each method that touches the rows also keeps every row's `render` equal to `Render(chars)` (`Rendered()`). Methods
  that do not touch the rows (`Scroll`, `MoveCursor`, `PageKey`) modify only
  the cursor or offset fields, so `Rendered()` carries over by framing.

The other modules:

- **Bytes**: the byte type and the signed-`char` conversions.
- **Keys**: the `editorKey` enum, `CTRL_KEY` and the escape-sequence decoder
  of `editorReadKey`, written as a function over the bytes that arrive before
  a read times out.
- **RowRender**: `Render`, the specification of tab expansion. `UpdateRow`,
  `TabCount`, `PadToTabStop` and `RowCxToRx` are the loops of
  `editorUpdateRow` and `editorRowCxToRx`, proved against it.
- **FileFormat**: `Serialize`, which is what `editorRowsToString` writes, and
  `LoadRows`, which is what `editorOpen` makes of a file. It also holds the
  two round trips between them.
- **AppendBuffer**: `struct abuf` and `abAppend`, as a class over an array.
- **Screen**: the row-text branch of `editorDrawRows`, both as written and
  corrected (see Findings).

A C `char` is taken to be signed, as on x86 Linux. `editorReadKey` therefore
returns bytes 128..255 as negative `int`s. Storing an `int` into a `char`
keeps its low eight bits (`ToByte`). Integers are unbounded. The model does
not represent C `int` overflow of the counters and offsets.

`editorRowInsertChar` does not raise `dirty`; only `editorAppendRow`
(flit.c:234) and `editorRowDeleteChar` (flit.c:255) do. So typing changes
`dirty` only when it first appends a row on the virtual line, and loading a
file raises it once per line before `editorOpen` clears it.

## Model

| member | source | states |
|---|---|---|
| Bytes.ToByte | flit.c:245 | storing the key `int` into a `char` keeps it modulo 256, and keeps any value 0..255 unchanged |
| Bytes.StoreWidenedChar | flit.c:245 | a byte read as a key and stored back into a row is the same byte |
| Bytes.SignedChar | flit.c:146 | the `char` byte returned as an `int` key lies in -128..127: bytes below 128 keep their value, bytes from 128 come back 256 lower |
| Keys.ReadKey | flit.c:118-147 | a non-ESC byte is the key and reads nothing more; after ESC the key is a named key or ESC; at most 3 follow-up bytes are read, never more than arrived |
| Keys.EscapeSequence | flit.c:123-139 | each named key's escape sequence is 2 or 3 bytes long and starts with '[' |
| Keys.DecodeEscapeSequence | flit.c:123-139 | ESC followed by a named key's sequence decodes to that key whatever follows, and consumes exactly the sequence |
| Keys.NamedKeyOnlyFromSequence | flit.c:118-147 | a named key is decoded only from ESC followed by exactly its sequence, so named keys never collide with a byte |
| Keys.TimeoutIsBareEscape | flit.c:120-121 | ESC with fewer than two bytes behind it decodes to a bare ESC |
| Keys.CtrlKey | flit.c:25 | `CTRL_KEY(k)` keeps the low 5 bits, a code in 0..31, and maps the letters 'a'..'z' to 1..26 |
| RowRender.RenderStep | flit.c:209-213 | one byte of the row rendered after the text so far: that text is kept as a prefix; a tab adds 1 to 8 spaces ending on a multiple of 8; any other byte is appended as itself |
| RowRender.Render | flit.c:205 | the rendered row is at least as long as the raw row and at most 7 bytes longer per tab, so it fits the allocation |
| RowRender.RenderHasNoTab | flit.c:208-215 | the rendered text holds no tab byte |
| RowRender.RenderWithoutTabs | flit.c:212-213 | a row without tabs renders as itself |
| RowRender.NextTabStop | flit.c:209-211 | a tab after `a` columns becomes 1 to 8 spaces and ends on a multiple of 8 |
| RowRender.RenderBlock | flit.c:208-215 | byte j of a row takes one rendered column holding the byte itself, or, for a tab, 1 to 8 spaces ending on a tab stop, in row order |
| RowRender.TabAfterTwoBytes | flit.c:208-217 | the row "ab\tc" renders as "ab", six spaces and "c", with rsize 9 |
| RowRender.UpdateRow | flit.c:197-218 | the buffer filled by the loop, up to `idx`, is `Render(chars)`, and every write stays inside the `size + tabs*7 + 1` allocation |
| RowRender.RenderNext | flit.c:208-214 | each loop turn extends the rendered prefix by `RenderStep` of byte `j` and stays within `size + tabs*7` bytes |
| RowRender.RenderByte | flit.c:209-214 | one loop turn writes byte `j` as rendered after the bytes before it, and leaves room for the NUL |
| RowRender.PutByte | flit.c:213 | the non-tab branch copies the byte at `idx` and leaves earlier bytes alone |
| RowRender.TabCount | flit.c:198-202 | the first loop counts the tab bytes of the row |
| RowRender.PadToTabStop | flit.c:209-211 | the tab branch writes spaces up to the next multiple of 8, at least one, and leaves earlier bytes alone |
| RowRender.RowCxToRx | flit.c:186-195 | the column of byte offset `cx` is the width of the rendered prefix `chars[..cx]`; at `cx == size` that is `rsize` |
| FileFormat.Serialize | flit.c:283-301 | the save buffer's length is the sum of `size + 1` over the rows |
| FileFormat.LineLen | flit.c:314 | the line `getline` returns is non-empty and inside the data when data remains |
| FileFormat.StripEol | flit.c:315-316 | the stripped line is a prefix of the line, does not end in '\r' or '\n', and every byte cut off is a '\r' or '\n' |
| FileFormat.LoadRows | flit.c:314-318 | one row per `getline` line, each stripped of its trailing '\r'/'\n' bytes, in file order: no more rows than bytes, and none exactly for an empty file |
| FileFormat.LoadNextLine | flit.c:314-318 | the rows loaded from `pos` on are the row of the line at `pos`, then the rows from the next line on |
| FileFormat.LoadedRowsAreLines | flit.c:314-318 | no loaded row holds '\n' or ends in '\r' |
| FileFormat.LoadSerialized | flit.c:283-321 | loading what was saved gives back the same rows, count and contents, when no row holds '\n' or ends in '\r' |
| FileFormat.SerializeLoaded | flit.c:283-321 | saving what was loaded gives back the file, one row per '\n', when no '\n' of the file follows a '\r' and the file is empty or ends in '\n'; a '\r' inside a line is kept |
| AppendBuffer.ABuf.constructor | flit.c:355 | `ABUF_INIT` is an empty buffer |
| AppendBuffer.ABuf.Append | flit.c:357-364 | the first `n` bytes of `s` go after the old contents in a fresh allocation, and `len` grows by `n` |
| EditorState.AppendRowF | flit.c:220-235 | a new last row holding `line`, the earlier rows kept, dirty up by one, nothing else changed |
| EditorState.OpenF | flit.c:303-322 | the existing rows followed by `LoadRows` of the file, dirty reset to 0, nothing else changed |
| EditorState.RowInsertCharF | flit.c:237-247 | row `y` grows by one byte, every other row and field is unchanged, and dirty is not touched |
| EditorState.RowDeleteCharF | flit.c:249-256 | corrected; see Findings: an `at` naming a byte of row `y` shrinks that row by one and raises dirty by one; other rows, the cursor and the offsets are unchanged |
| EditorState.InsertPos | flit.c:238-240 | an out-of-range `at` is clamped to the row's size, and an in-range one is kept |
| EditorState.InsertByte | flit.c:242-245 | the row grows by one, with `c` at the insert position and the bytes before and after it kept in order |
| EditorState.DeleteByte | flit.c:252-253 | the row shrinks by one, and the bytes after `at` move down one place |
| EditorState.InsertThenDelete | flit.c:237-256 | inserting a byte at an in-range position and deleting it there restores the row's bytes, size and (recomputed) render |
| EditorState.DeleteThenInsert | flit.c:237-256 | deleting a byte and inserting it back at the same position restores the row |
| EditorState.OpenKeepsValid | flit.c:303-322 | opening keeps the editor invariant and keeps the existing rows as a prefix |
| EditorState.RowDeleteCharAsWritten | flit.c:249-256 | as written, out-of-range `at` leaves the row alone and in-range `at` removes exactly byte `at` |
| EditorState.DeleteAtSizeDropsLastByte | flit.c:250-253 | as written, `at == size` on a non-empty row drops its last byte |
| EditorState.DeleteAtSizeOnEmptyRow | flit.c:250-253 | as written, `at == size == 0` makes the size -1 |
| EditorState.DeleteCharAgrees | flit.c:268-276 | with a valid cursor `editorDeleteChar` passes `at < size`, where flit.c's guard and the corrected one delete the same byte |
| EditorState.RowDeleteCharOutOfRange | flit.c:250 | with the corrected guard, any `at` naming no byte leaves the state alone, dirty included |
| EditorState.InsertCharF | flit.c:260-266 | the cursor row grows by one byte (a new empty row first when the cursor is on the virtual row), other rows are kept, `cx` moves right by one, `cy` and the view are unchanged |
| EditorState.DeleteCharF | flit.c:268-276 | the row count and other rows are kept; either nothing changes or `cx` moves left by one; `cy` and the view are unchanged |
| EditorState.InsertCharKeepsValid | flit.c:260-266 | typing keeps the cursor valid, moves `cx` right by one, and adds a row exactly when the cursor was on the virtual row |
| EditorState.DeleteCharKeepsValid | flit.c:268-276 | backspace keeps the cursor valid and never changes the row count or `cy` |
| EditorState.TypeThenBackspace | flit.c:260-276 | typing then backspacing restores the rows and cursor, with dirty up by 1, or by 2 and an extra empty row on the virtual row |
| EditorState.ScrollF | flit.c:372-390 | scrolling sets only `rx`, `rowoff` and `coloff` |
| EditorState.ScrollShowsCursor | flit.c:372-390 | after scrolling, `rx` is the rendered column of `cx` (0 on the virtual row), the cursor is inside the window, the offsets stay in range, and nothing else changes |
| EditorState.ScrollIsMinimal | flit.c:378-389 | an offset already showing the cursor is left alone, and scrolling twice is scrolling once |
| EditorState.MoveF | flit.c:493-526 | any arrow key from a cursor inside the document leaves `cy` in `[0, numrows]` and `cx` within its row, and changes only the cursor |
| EditorState.MoveAtEdges | flit.c:496-519 | LEFT at column 0 goes to the end of the previous row; RIGHT at a row's end goes to column 0 of the next; UP stops at 0; DOWN and RIGHT stop on the virtual row |
| EditorState.MoveNF | flit.c:565-567 | repeated moves keep the cursor in the document, and in range once at least one move is made |
| EditorState.MoveNUp | flit.c:565-567 | n moves up land on `max(cy - n, 0)` |
| EditorState.MoveNDown | flit.c:565-567 | n moves down land on `min(cy + n, numrows)` |
| EditorState.PageF | flit.c:555-569 | a page key leaves the cursor valid and changes only `cx` and `cy` |
| EditorState.PageLanding | flit.c:555-569 | page up lands on `max(rowoff - screenrows, 0)`, page down on `min(rowoff + 2*screenrows - 1, numrows)`; the rows are unchanged and the invariant kept |
| EditorState.KeyAction | flit.c:537-546 | Ctrl-Q and only Ctrl-Q quits, Ctrl-S and only Ctrl-S saves, and both are control codes below 32 |
| EditorState.DispatchF | flit.c:532-586 | a key changes only the rows, the cursor and dirty, never the offsets, `rx` or the screen size; Ctrl-Q and Ctrl-S leave the state as it is |
| EditorState.DispatchKeepsValid | flit.c:529-587 | every key keeps the invariant, never removes a row, and arrow and page keys never change the rows |
| Editor.EditorConfig.constructor | flit.c:591-607 | an empty document, cursor and offsets at 0, dirty 0, two screen rows kept for the bars, all rows rendered |
| Editor.EditorConfig.AppendRow | flit.c:220-235 | a new last row with its rendering, and dirty up by one |
| Editor.EditorConfig.RowInsertChar | flit.c:237-247 | the row gets the key's byte at the clamped position, its render is recomputed, and dirty is not touched |
| Editor.EditorConfig.RowDeleteChar | flit.c:249-256 | with the corrected guard, an in-range `at` removes exactly that byte and bumps dirty; otherwise nothing changes |
| Editor.EditorConfig.InsertChar | flit.c:260-266 | follows `InsertCharF`: appends an empty row on the virtual row, inserts at the cursor, `cx` up by one; the invariant is kept |
| Editor.EditorConfig.DeleteChar | flit.c:268-276 | follows `DeleteCharF`: nothing on the virtual row or at column 0, else deletes the byte before the cursor and moves left |
| Editor.EditorConfig.RowsToString | flit.c:283-301 | the buffer is each row's bytes followed by '\n', and `buflen` is its length, the sum of `size + 1` |
| Editor.EditorConfig.TotalLength | flit.c:284-289 | the first loop sums `size + 1` over the rows |
| Editor.EditorConfig.Open | flit.c:303-322 | every line of the file is appended as a row, stripped of trailing '\r'/'\n', and dirty ends at 0 |
| Editor.EditorConfig.ReadLines | flit.c:314-318 | the getline loop appends exactly `LoadRows(data)` after the existing rows, all rendered, and raises dirty once per row |
| Editor.EditorConfig.ReadLine | flit.c:314-317 | one loop turn appends the stripped line at `pos`, raises dirty by one, and moves `pos` past its '\n' |
| Editor.EditorConfig.Scroll | flit.c:372-390 | follows `ScrollF`, whose properties are ScrollShowsCursor and ScrollIsMinimal |
| Editor.EditorConfig.MoveCursor | flit.c:493-526 | follows `MoveF`, changing only `cx` and `cy` |
| Editor.EditorConfig.HandleKeyPress | flit.c:529-587 | decodes the key with `ReadKey`, applies `DispatchF` and keeps the invariant; Ctrl-S and Ctrl-Q are returned as Save and Quit |
| Editor.EditorConfig.PageKey | flit.c:555-569 | follows `PageF`: `cy` is set to the window top or bottom, then a screenful of moves; the invariant is kept |
| Editor.EditorConfig.DrawRow | flit.c:414-419 | corrected; flit.c:418 reads `chars`, see Findings: the visible columns of the row's rendering are appended to the output buffer |
| Editor.EditorConfig.MoveTimes | flit.c:565-567 | `times` moves with one key land where `MoveNF` says |
| Editor.GetLine | flit.c:314 | `getline` ends the line just past the first '\n' at or after `pos`, or at the end of the data |
| Editor.StripLength | flit.c:315-316 | the loop cuts exactly the trailing '\r'/'\n' bytes |
| Editor.CopyRow | flit.c:294 | the row's bytes are copied at `p`, and the bytes before `p` are kept |
| Screen.SliceLen | flit.c:415-417 | `0 <= len <= screencols`, a non-empty slice lies inside the rendered row, and no longer slice would fit both |
| Screen.VisibleSlice | flit.c:415-418 | corrected; flit.c:418 reads `chars`, see Findings: the drawn bytes are rendered columns `coloff..coloff+len`, as many as fit the screen and the row |
| Screen.SliceAsWritten | flit.c:415-418 | as written: `len` bytes of `chars` from `coloff`, and a read past the `size` bytes and NUL of `chars` exactly when the clamped `len` is positive and `coloff + len > size + 1` |
| Screen.DrawRowsOverRead | flit.c:415-418 | a row holding one tab, drawn from column 0 on 80 columns, makes flit.c read past the `chars` allocation |
| Screen.TabFreeRowsAgree | flit.c:415-418 | on a row without tabs, the bytes flit.c draws are the visible rendered columns |
| Screen.VisibleSliceHasNoTab | flit.c:415-418 | the drawn text never contains a tab |
| Screen.AppendVisible | flit.c:415-418 | corrected; flit.c:418 reads `chars`, see Findings: the clamp, then `abAppend` of exactly the visible rendered columns |

## Left out

- Raw-mode setup and teardown, `getWindowSize`, `getCursorPosition`, `fail`, `main` and process exit are terminal and process plumbing. The constructor takes the terminal size as parameters.
- Editor.EditorConfig.constructor: requires a terminal of at least 3 rows. On a smaller one flit.c leaves `screenrows` at 0 or below, and the window invariants do not hold.
- Keys.ReadKey: the blocking read loop (flit.c:114-116) is left out. The bytes that arrive before each follow-up read times out are a parameter.
- Editor.EditorConfig.Open: `fopen`, `getline` on a `FILE*`, the filename and the `fopen` failure are left out; the file's bytes are a parameter. flit.c:313 tests the uninitialised `linelen`, and the model treats the loop as always running.
- `editorSave` (open, ftruncate, write, and `dirty = 0` on success) is file I/O and is left out. Only its buffer, `editorRowsToString`, is modelled.
- Editor.EditorConfig.HandleKeyPress: Ctrl-S and Ctrl-Q leave the state alone and are returned as an Action, rather than saving the file or exiting.
- `editorRefreshScreen`, `editorDrawStatusBar`, `editorDrawMessageBar` and `editorSetStatusMessage` are formatted terminal output and clock reads, and are left out.
- Editor.EditorConfig.DrawRow: only the row-text branch of `editorDrawRows` is modelled. The `~` lines, the welcome text, the escape strings and the loop over screen rows are left out.
- AppendBuffer.ABuf.Append: the `realloc` failure path, which leaves the buffer unchanged, is not modelled. Allocation always succeeds in Dafny.
- Memory management (`malloc`, `realloc`, `free`) is left out; rows are sequences. The NUL terminator of `chars` appears only in the as-written members `RowDeleteCharAsWritten` and `SliceAsWritten`, which model it; `SliceAsWritten` takes a row's readable bytes to be its `size` bytes and the NUL, although after `editorRowDeleteChar`, which does not reallocate, the allocation can be longer.
- EditorState.InsertThenDelete: states the row's bytes only. Its `render` and `rsize` come back because the class keeps `render == Render(chars)` for every row.
- C `int` overflow of `cx`, `cy`, the offsets, `dirty` and `buflen` is not modelled. Integers are unbounded.

## Findings

| source | as written | input that shows it | evidently intended | confidence | as-written member | corrected member |
|---|---|---|---|---|---|---|
| flit.c:250 | `editorRowDeleteChar` returns only when `at > size`, so `at == size`, which names no byte, gets through. The `memmove` then moves `size - at == 0` bytes and `size--` alone drops the row's last byte | row "ab" with `at = 2` becomes "a"; an empty row with `at = 0` gets size -1. `editorDeleteChar` never passes `at == size` while the cursor is valid | reject `at >= size` | medium, not executed | EditorState.RowDeleteCharAsWritten, EditorState.DeleteAtSizeDropsLastByte, EditorState.DeleteAtSizeOnEmptyRow | EditorState.RowDeleteCharOutOfRange, Editor.EditorConfig.RowDeleteChar |
| flit.c:418 | `editorDrawRows` computes `len` from `rsize`, the rendered length, but appends bytes from `chars` | a row holding one tab, `coloff` 0, 80 columns: `len` is 8 while `chars` holds 2 bytes with its NUL, so 6 bytes are read past the allocation | append from `render` | high, not executed | Screen.SliceAsWritten, Screen.DrawRowsOverRead | Screen.VisibleSlice, Screen.AppendVisible, Editor.EditorConfig.DrawRow |

/** The text part of `editorDrawRows`: for a row of the document, the
    `len = rsize - coloff` clamp to `[0, screencols]` and the bytes appended
    to the output buffer. flit.c takes those bytes from `chars` although the
    length was computed from `render`; `SliceAsWritten` models that, and
    `VisibleSlice` / `AppendVisible` the rendered text it evidently meant to
    draw. */
module Screen {
  import opened Bytes
  import opened RowRender
  import opened AppendBuffer

  datatype Option<T> = None | Some(value: T)

  /** The clamp of `editorDrawRows`: how many rendered columns from `coloff`
      are drawn. They lie inside the rendered row, they fit the screen, and
      no more would fit on both counts. */
  function SliceLen(rsize: int, coloff: int, screencols: int): (len: int)
    requires screencols >= 0
    ensures 0 <= len <= screencols
    ensures len > 0 ==> coloff + len <= rsize
    ensures len == screencols || coloff + len >= rsize
  {
    var len := rsize - coloff;
    var len1 := if len < 0 then 0 else len;
    if len1 > screencols then screencols else len1
  }

  /** The rendered columns `[coloff, coloff + len)` of a row: what the screen
      shows of it with the window scrolled `coloff` columns right. */
  function VisibleSlice(render: seq<byte>, coloff: int, screencols: int): (v: seq<byte>)
    requires coloff >= 0 && screencols >= 0
    ensures |v| <= screencols
    ensures v == [] || coloff + |v| <= |render|
    ensures forall k :: 0 <= k < |v| ==> v[k] == render[coloff + k]
    ensures |v| == screencols || coloff + |v| >= |render|
  {
    var len := SliceLen(|render|, coloff, screencols);
    if len == 0 then [] else render[coloff..coloff + len]
  }

  /** What flit.c appends for a row: `len` computed from `rsize`, but the
      bytes read from `chars`. The model takes the `size` bytes and the NUL
      that `chars` always holds; that is its whole allocation after
      `editorAppendRow` or `editorRowInsertChar`, while `editorRowDeleteChar`
      does not reallocate and leaves a longer one behind. A read past those
      bytes is `None`; otherwise the bytes from `coloff` on, `len` of them. */
  function SliceAsWritten(chars: seq<byte>, rsize: int, coloff: int, screencols: int): (r: Option<seq<byte>>)
    requires coloff >= 0 && screencols >= 0
    ensures r.None? <==>
      SliceLen(rsize, coloff, screencols) > 0 && coloff + SliceLen(rsize, coloff, screencols) > |chars| + 1
    ensures r.Some? ==> |r.value| == SliceLen(rsize, coloff, screencols)
    ensures r.Some? ==> forall k :: 0 <= k < |r.value| ==> r.value[k] == (chars + [NUL])[coloff + k]
  {
    var len := SliceLen(rsize, coloff, screencols);
    var alloc := chars + [NUL];
    if len == 0 then Some([])
    else if coloff + len > |alloc| then None
    else Some(alloc[coloff..coloff + len])
  }

  /** The row holding one tab, drawn from column 0 on an 80-column screen:
      `rsize` is 8 but `chars` has a 2-byte allocation, so flit.c reads 6
      bytes past it. */
  lemma {:induction false} DrawRowsOverRead()
    ensures |Render([TAB])| == 8
    ensures SliceAsWritten([TAB], |Render([TAB])|, 0, 80) == None
  {
    assert Render([TAB]) == RenderStep(Render([]), TAB) by {
      assert [TAB][..0] == [];
    }
  }

  /** On a row without tabs `chars` and `render` are the same bytes, and
      flit.c draws what it should. */
  lemma {:induction false} TabFreeRowsAgree(chars: seq<byte>, coloff: int, screencols: int)
    requires coloff >= 0 && screencols >= 0
    requires forall k :: 0 <= k < |chars| ==> chars[k] != TAB
    ensures SliceAsWritten(chars, |Render(chars)|, coloff, screencols)
         == Some(VisibleSlice(Render(chars), coloff, screencols))
  {
    RenderWithoutTabs(chars);
    SliceOfSameBytes(chars, coloff, screencols);
  }

  lemma {:induction false} SliceOfSameBytes(chars: seq<byte>, coloff: int, screencols: int)
    requires coloff >= 0 && screencols >= 0
    ensures SliceAsWritten(chars, |chars|, coloff, screencols) == Some(VisibleSlice(chars, coloff, screencols))
  {
    var len := SliceLen(|chars|, coloff, screencols);
    if len > 0 {
      assert (chars + [NUL])[coloff..coloff + len] == chars[coloff..coloff + len];
    }
  }

  /** The drawn part of a rendered row never sends a tab to the terminal. */
  lemma {:induction false} VisibleSliceHasNoTab(chars: seq<byte>, coloff: int, screencols: int)
    requires coloff >= 0 && screencols >= 0
    ensures forall k :: 0 <= k < |VisibleSlice(Render(chars), coloff, screencols)| ==>
      VisibleSlice(Render(chars), coloff, screencols)[k] != TAB
  {
    RenderHasNoTab(chars);
  }

  /** The row branch of `editorDrawRows`, reading `render`: the clamp, then
      `abAppend` of the visible columns. */
  method AppendVisible(ab: ABuf, render: seq<byte>, coloff: int, screencols: int)
    requires ab.Valid() && coloff >= 0 && screencols >= 0
    modifies ab
    ensures ab.Valid()
    ensures ab.Contents() == old(ab.Contents()) + VisibleSlice(render, coloff, screencols)
  {
    var len := |render| - coloff;
    if len < 0 {
      len := 0;
    }
    if len > screencols {
      len := screencols;
    }
    if len > 0 {
      ab.Append(render[coloff..], len);
      assert render[coloff..][..len] == render[coloff..coloff + len];
    }
  }
}

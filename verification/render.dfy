/** The render model of one row: `editorUpdateRow`, which expands each tab of
    `chars` into spaces up to the next multiple of TAB_STOP, and
    `editorRowCxToRx`, which maps a byte offset in `chars` to a column of the
    rendered text. `Render` is the specification both are proved against. */
module RowRender {
  import opened Bytes

  const TAB_STOP: int := 8

  function Spaces(n: nat): (r: seq<byte>)
    ensures |r| == n && forall k :: 0 <= k < n ==> r[k] == SPACE
  {
    seq(n, _ => SPACE)
  }

  /** The number of tab bytes in `s`. */
  function CountTabs(s: seq<byte>): nat
    decreases |s|
  {
    if s == [] then 0 else CountTabs(s[..|s| - 1]) + (if s[|s| - 1] == TAB then 1 else 0)
  }

  /** Rendering byte `c` after the rendered text `r`: a tab becomes the spaces
      that reach the next tab stop (at least one), any other byte is copied. */
  function RenderStep(r: seq<byte>, c: byte): (next: seq<byte>)
    ensures |r| < |next| <= |r| + TAB_STOP && next[..|r|] == r
    ensures c != TAB ==> next == r + [c]
    ensures c == TAB ==> |next| % TAB_STOP == 0 && next[|r|..] == Spaces(|next| - |r|)
  {
    NextTabStop(|r|);
    if c == TAB then r + Spaces(TAB_STOP - |r| % TAB_STOP) else r + [c]
  }

  /** The rendered form of the row bytes `s`, built left to right. */
  function Render(s: seq<byte>): (r: seq<byte>)
    ensures |s| <= |r| <= |s| + (TAB_STOP - 1) * CountTabs(s)
    decreases |s|
  {
    if s == [] then [] else RenderStep(Render(s[..|s| - 1]), s[|s| - 1])
  }

  lemma {:induction false} RenderSnoc(s: seq<byte>, c: byte)
    ensures Render(s + [c]) == RenderStep(Render(s), c)
    ensures CountTabs(s + [c]) == CountTabs(s) + (if c == TAB then 1 else 0)
  {
    assert (s + [c])[..|s|] == s;
  }

  lemma {:induction false} CountTabsPrefix(s: seq<byte>, i: nat)
    requires i <= |s|
    ensures CountTabs(s[..i]) <= CountTabs(s)
    decreases |s| - i
  {
    if i < |s| {
      CountTabsPrefix(s, i + 1);
      assert s[..i + 1][..i] == s[..i];
    } else {
      assert s[..i] == s;
    }
  }

  /** The rendered text holds no tab byte. */
  lemma {:induction false} RenderHasNoTab(s: seq<byte>)
    ensures forall k :: 0 <= k < |Render(s)| ==> Render(s)[k] != TAB
    decreases |s|
  {
    if s != [] {
      RenderHasNoTab(s[..|s| - 1]);
    }
  }

  /** A row without tabs renders as itself. */
  lemma {:induction false} RenderWithoutTabs(s: seq<byte>)
    requires forall k :: 0 <= k < |s| ==> s[k] != TAB
    ensures Render(s) == s
    decreases |s|
  {
    if s != [] {
      RenderWithoutTabs(s[..|s| - 1]);
    }
  }

  /** Rendering a prefix of a row gives a prefix of the row's rendering. */
  lemma {:induction false} RenderPrefix(s: seq<byte>, j: nat)
    requires j <= |s|
    ensures |Render(s[..j])| <= |Render(s)|
    ensures Render(s)[..|Render(s[..j])|] == Render(s[..j])
    decreases |s|
  {
    if j == |s| {
      assert s[..j] == s;
    } else {
      var t := s[..|s| - 1];
      assert t[..j] == s[..j];
      RenderPrefix(t, j);
    }
  }

  /** The spaces a tab expands to after `a` columns: one to TAB_STOP of
      them, ending on a tab stop. */
  lemma {:induction false} NextTabStop(a: nat)
    ensures 0 < TAB_STOP - a % TAB_STOP <= TAB_STOP
    ensures (a + TAB_STOP - a % TAB_STOP) % TAB_STOP == 0
  {
    var q := a / TAB_STOP;
    assert a == TAB_STOP * q + a % TAB_STOP;
    assert a + TAB_STOP - a % TAB_STOP == TAB_STOP * (q + 1);
  }

  /** Byte `j` of a row occupies the rendered columns from
      |Render(s[..j])| up to |Render(s[..j+1])|: one column holding the byte
      itself, or, for a tab, one to TAB_STOP spaces ending on a tab stop. */
  lemma {:induction false} RenderBlock(s: seq<byte>, j: nat)
    requires j < |s|
    ensures var a, b := |Render(s[..j])|, |Render(s[..j + 1])|;
      && b <= |Render(s)|
      && (s[j] != TAB ==> b == a + 1 && Render(s)[a] == s[j])
      && (s[j] == TAB ==> a < b <= a + TAB_STOP && b % TAB_STOP == 0
                          && forall k :: a <= k < b ==> Render(s)[k] == SPACE)
  {
    var r, p := Render(s), Render(s[..j + 1]);
    RenderPrefix(s, j + 1);
    assert s[..j + 1] == s[..j] + [s[j]];
    RenderSnoc(s[..j], s[j]);
    var a := |Render(s[..j])|;
    assert p == RenderStep(Render(s[..j]), s[j]);
    forall k | a <= k < |p|
      ensures r[k] == p[k]
    {
      assert r[..|p|][k] == p[k];
    }
  }

  /** The row "ab\tc": the tab after two bytes becomes six spaces, so 'c'
      lands on column 8 and `rsize` is 9. */
  lemma {:induction false} TabAfterTwoBytes()
    ensures Render(['a' as int, 'b' as int, TAB, 'c' as int])
         == ['a' as int, 'b' as int] + Spaces(6) + ['c' as int]
  {
    var s: seq<byte> := ['a' as int, 'b' as int, TAB, 'c' as int];
    assert s[..3][..2] == ['a' as int, 'b' as int];
    assert s[..3][..2][..1] == ['a' as int];
    assert Render(s[..3][..2]) == ['a' as int, 'b' as int];
    assert Render(s[..3]) == ['a' as int, 'b' as int] + Spaces(6);
  }

  /** `editorUpdateRow`: counts the tabs, allocates `size + tabs*(TAB_STOP-1) + 1`
      bytes, fills them index by index and NUL-terminates; the rendered text is
      the buffer up to `idx`, which is `rsize`. Every write stays inside the
      allocation. */
  method UpdateRow(chars: seq<byte>) returns (render: seq<byte>)
    ensures render == Render(chars)
    ensures |render| <= |chars| + (TAB_STOP - 1) * CountTabs(chars)
  {
    var tabs := TabCount(chars);
    var buf := new byte[|chars| + tabs * (TAB_STOP - 1) + 1];
    var idx := 0;
    var j := 0;
    while j < |chars|
      invariant 0 <= j <= |chars|
      invariant 0 <= idx < buf.Length
      invariant buf[..idx] == Render(chars[..j])
    {
      idx := RenderByte(buf, idx, chars, j);
      j := j + 1;
    }
    assert chars[..j] == chars;
    buf[idx] := NUL;
    render := buf[..idx];
  }

  /** The body of `editorUpdateRow`'s loop: byte `j` is written as rendered
      after the bytes before it, still inside the allocation. */
  method RenderByte(buf: array<byte>, idx: int, chars: seq<byte>, j: int) returns (next: int)
    requires 0 <= j < |chars| && buf.Length == |chars| + (TAB_STOP - 1) * CountTabs(chars) + 1
    requires 0 <= idx <= buf.Length && buf[..idx] == Render(chars[..j])
    modifies buf
    ensures 0 <= next < buf.Length && buf[..next] == Render(chars[..j + 1])
  {
    RenderNext(chars, j);
    if chars[j] == TAB {
      next := PadToTabStop(buf, idx);
    } else {
      next := PutByte(buf, idx, chars[j]);
    }
  }

  /** One step of `editorUpdateRow`'s loop: the rendered prefix grows by
      `RenderStep` and never outgrows the allocation. */
  lemma {:induction false} RenderNext(chars: seq<byte>, j: nat)
    requires j < |chars|
    ensures Render(chars[..j + 1]) == RenderStep(Render(chars[..j]), chars[j])
    ensures |Render(chars[..j + 1])| <= |chars| + (TAB_STOP - 1) * CountTabs(chars)
  {
    assert chars[..j + 1] == chars[..j] + [chars[j]];
    RenderSnoc(chars[..j], chars[j]);
    CountTabsPrefix(chars, j + 1);
  }

  /** The first loop of `editorUpdateRow`: the number of tab bytes in the row. */
  method TabCount(chars: seq<byte>) returns (tabs: nat)
    ensures tabs == CountTabs(chars)
  {
    tabs := 0;
    var j := 0;
    while j < |chars|
      invariant 0 <= j <= |chars|
      invariant tabs == CountTabs(chars[..j])
    {
      assert chars[..j + 1] == chars[..j] + [chars[j]];
      RenderSnoc(chars[..j], chars[j]);
      if chars[j] == TAB {
        tabs := tabs + 1;
      }
      j := j + 1;
    }
    assert chars[..j] == chars;
  }

  /** The other branch of `editorUpdateRow`: the byte itself, copied. */
  method PutByte(buf: array<byte>, idx: int, c: byte) returns (next: int)
    requires 0 <= idx < buf.Length
    modifies buf
    ensures next == idx + 1
    ensures buf[..next] == old(buf[..idx]) + [c]
  {
    buf[idx] := c;
    next := idx + 1;
    assert buf[..next] == buf[..idx] + [c];
  }

  /** The tab branch of `editorUpdateRow`: one space, then spaces until `idx`
      is a multiple of TAB_STOP. */
  method PadToTabStop(buf: array<byte>, idx: int) returns (next: int)
    requires 0 <= idx && idx + TAB_STOP - idx % TAB_STOP <= buf.Length
    modifies buf
    ensures next == idx + TAB_STOP - idx % TAB_STOP
    ensures buf[..next] == old(buf[..idx]) + Spaces(next - idx)
  {
    ghost var before := buf[..idx];
    next := idx;
    buf[next] := SPACE;
    next := next + 1;
    while next % TAB_STOP != 0
      invariant idx < next <= idx + TAB_STOP - idx % TAB_STOP
      invariant buf[..next] == before + Spaces(next - idx)
      decreases idx + TAB_STOP - next
    {
      buf[next] := SPACE;
      next := next + 1;
    }
  }

  /** `editorRowCxToRx`: the rendered column of byte offset `cx`, counted by
      walking the bytes before it; it is the width of the rendered prefix. */
  method RowCxToRx(chars: seq<byte>, cx: int) returns (rx: int)
    requires cx <= |chars|
    ensures rx == if cx <= 0 then 0 else |Render(chars[..cx])|
  {
    rx := 0;
    var j := 0;
    while j < cx
      invariant 0 <= j <= if cx <= 0 then 0 else cx
      invariant rx == |Render(chars[..j])|
    {
      assert chars[..j + 1] == chars[..j] + [chars[j]];
      RenderSnoc(chars[..j], chars[j]);
      if chars[j] == TAB {
        rx := rx + (TAB_STOP - 1) - (rx % TAB_STOP);
      }
      rx := rx + 1;
      j := j + 1;
    }
  }
}

/** The bytes of a file and the rows they load into. `Serialize` is what
    `editorRowsToString` writes for saving (each row followed by '\n');
    `LoadRows` is what `editorOpen` makes of a file: `getline` splits it after
    each '\n' and every trailing '\r' or '\n' of a line is stripped. */
module FileFormat {
  import opened Bytes

  /** The buffer for saving: each row's bytes followed by '\n'. */
  function Serialize(rows: seq<seq<byte>>): (r: seq<byte>)
    ensures |r| == TotalLen(rows)
  {
    if rows == [] then [] else rows[0] + [NL] + Serialize(rows[1..])
  }

  /** `buflen`: the sum of `size + 1` over the rows. */
  function TotalLen(rows: seq<seq<byte>>): nat {
    if rows == [] then 0 else |rows[0]| + 1 + TotalLen(rows[1..])
  }

  lemma {:induction false} SerializeAppend(a: seq<seq<byte>>, b: seq<seq<byte>>)
    ensures Serialize(a + b) == Serialize(a) + Serialize(b)
    ensures TotalLen(a + b) == TotalLen(a) + TotalLen(b)
    decreases |a|
  {
    if a != [] {
      assert (a + b)[1..] == a[1..] + b;
      SerializeAppend(a[1..], b);
    } else {
      assert a + b == b;
    }
  }

  /** One more row: its bytes and a '\n' are appended to the buffer. */
  lemma {:induction false} SerializeStep(rows: seq<seq<byte>>, j: nat)
    requires j < |rows|
    ensures Serialize(rows[..j + 1]) == Serialize(rows[..j]) + rows[j] + [NL]
    ensures TotalLen(rows[j..]) == |rows[j]| + 1 + TotalLen(rows[j + 1..])
  {
    assert rows[..j + 1] == rows[..j] + [rows[j]];
    SerializeAppend(rows[..j], [rows[j]]);
  }

  /** The number of '\n' bytes in `s`. */
  function CountNewlines(s: seq<byte>): nat {
    if s == [] then 0 else (if s[0] == NL then 1 else 0) + CountNewlines(s[1..])
  }

  /** The length of the first line `getline` returns from `s`: up to and
      including the first '\n', or all of `s` when it has none. */
  function LineLen(s: seq<byte>): (n: nat)
    ensures s != [] ==> 0 < n <= |s|
    ensures s == [] ==> n == 0
  {
    if s == [] then 0 else if s[0] == NL then 1 else 1 + LineLen(s[1..])
  }

  /** The line without its trailing '\r' and '\n' bytes. */
  function StripEol(line: seq<byte>): (r: seq<byte>)
    ensures |r| <= |line| && r == line[..|r|]
    ensures r == [] || (r[|r| - 1] != NL && r[|r| - 1] != CR)
    ensures forall k :: |r| <= k < |line| ==> line[k] == NL || line[k] == CR
  {
    if line != [] && (line[|line| - 1] == NL || line[|line| - 1] == CR)
    then StripEol(line[..|line| - 1])
    else line
  }

  /** The rows `editorOpen` appends for the file bytes `s`, in file order. */
  function LoadRows(s: seq<byte>): (rows: seq<seq<byte>>)
    ensures |rows| <= |s|
    ensures s != [] ==> |rows| > 0
    decreases |s|
  {
    if s == [] then [] else [StripEol(s[..LineLen(s)])] + LoadRows(s[LineLen(s)..])
  }

  /** Reading the file line by line: the rows from `pos` on are the row of
      the line starting at `pos`, then the rows from the next line on. */
  lemma {:induction false} LoadNextLine(s: seq<byte>, pos: nat, next: nat)
    requires pos < |s| && next == pos + LineLen(s[pos..])
    ensures pos < next <= |s|
    ensures LoadRows(s[pos..]) == [StripEol(s[pos..next])] + LoadRows(s[next..])
  {
    var t := s[pos..];
    var n := LineLen(t);
    assert LoadRows(t) == [StripEol(t[..n])] + LoadRows(t[n..]);
    assert t[..n] == s[pos..next];
    assert t[n..] == s[next..];
  }

  /** Moving the first of the rows still to load to the end of those loaded. */
  lemma MoveOne(loaded: seq<seq<byte>>, row: seq<byte>, rest: seq<seq<byte>>)
    ensures loaded + ([row] + rest) == (loaded + [row]) + rest
  {
  }

  /** A loaded row never holds a '\n' and never ends in '\r'. */
  lemma {:induction false} LoadedRowsAreLines(s: seq<byte>)
    ensures forall i :: 0 <= i < |LoadRows(s)| ==> NL !in LoadRows(s)[i] && !EndsInCr(LoadRows(s)[i])
    decreases |s|
  {
    if s != [] {
      var n := LineLen(s);
      LineHasNoInnerNewline(s);
      LoadedRowsAreLines(s[n..]);
      var r := StripEol(s[..n]);
      assert r == s[..n][..|r|];
      if |r| == n {
        assert r == [] || r[n - 1] != NL;
      }
      assert NL !in r;
    }
  }

  predicate EndsInCr(r: seq<byte>) {
    r != [] && r[|r| - 1] == CR
  }

  lemma {:induction false} LineHasNoInnerNewline(s: seq<byte>)
    requires s != []
    ensures forall k :: 0 <= k < LineLen(s) - 1 ==> s[k] != NL
    ensures LineLen(s) < |s| ==> s[LineLen(s) - 1] == NL
    ensures LineLen(s) == |s| ==> (s[|s| - 1] == NL || NL !in s)
  {
    if s[0] != NL && |s| > 1 {
      LineHasNoInnerNewline(s[1..]);
      assert forall k :: 1 <= k < LineLen(s) - 1 ==> s[k] == s[1..][k - 1];
    }
  }

  /** The line a scan that stops at the first '\n' at or after index 0 finds:
      `e` is the index of that '\n', or |s| when there is none. */
  lemma {:induction false} LineLenAt(s: seq<byte>, e: nat)
    requires s != [] && e <= |s|
    requires forall k :: 0 <= k < e ==> s[k] != NL
    requires e == |s| || s[e] == NL
    ensures LineLen(s) == if e < |s| then e + 1 else e
    decreases e
  {
    if e > 0 {
      if |s| > 1 {
        LineLenAt(s[1..], e - 1);
      }
    }
  }

  /** Loading what `editorRowsToString` wrote gives back the rows, whenever no
      row holds a '\n' or ends in '\r' (bytes that loading cannot keep). */
  lemma {:induction false} LoadSerialized(rows: seq<seq<byte>>)
    requires forall i :: 0 <= i < |rows| ==> NL !in rows[i] && !EndsInCr(rows[i])
    ensures LoadRows(Serialize(rows)) == rows
    decreases |rows|
  {
    if rows != [] {
      var r, s := rows[0], Serialize(rows);
      assert s == r + ([NL] + Serialize(rows[1..]));
      LineLenAt(s, |r|);
      assert s[..|r| + 1] == r + [NL];
      assert s[|r| + 1..] == Serialize(rows[1..]);
      assert StripEol(r + [NL]) == StripEol(r) by {
        assert (r + [NL])[..|r|] == r;
      }
      LoadSerialized(rows[1..]);
    }
  }

  /** No '\n' of `s` comes right after a '\r': no line ends in "\r\n". */
  predicate NoCrBeforeNl(s: seq<byte>) {
    forall k :: 0 < k < |s| && s[k] == NL ==> s[k - 1] != CR
  }

  /** Conversely, saving what was loaded gives back the file, whenever no line
      of the file ends in '\r' before its '\n' and the file is empty or ends in
      '\n'; there is one row per '\n'. A '\r' inside a line is kept. */
  lemma {:induction false} SerializeLoaded(s: seq<byte>)
    requires NoCrBeforeNl(s)
    requires s == [] || s[|s| - 1] == NL
    ensures Serialize(LoadRows(s)) == s
    ensures |LoadRows(s)| == CountNewlines(s)
    decreases |s|
  {
    if s != [] {
      var n := LineLen(s);
      var line := s[..n - 1];
      FirstLineLoaded(s);
      SerializeLoaded(s[n..]);
      assert Serialize(LoadRows(s)) == line + [NL] + Serialize(LoadRows(s[n..]));
      CountNewlinesAppend(line + [NL], s[n..]);
      CountNewlinesOfLine(line);
      CountNewlinesAppend(line, [NL]);
    }
  }

  /** The first line of a file that ends in '\n' loses exactly its '\n' on
      loading, and the rest of the file keeps the conditions of
      SerializeLoaded. */
  lemma {:induction false} FirstLineLoaded(s: seq<byte>)
    requires s != [] && s[|s| - 1] == NL
    requires NoCrBeforeNl(s)
    ensures 0 < LineLen(s) <= |s|
    ensures s == s[..LineLen(s) - 1] + [NL] + s[LineLen(s)..]
    ensures NL !in s[..LineLen(s) - 1]
    ensures LoadRows(s) == [s[..LineLen(s) - 1]] + LoadRows(s[LineLen(s)..])
    ensures NoCrBeforeNl(s[LineLen(s)..])
    ensures s[LineLen(s)..] == [] || s[LineLen(s)..][|s[LineLen(s)..]| - 1] == NL
  {
    var n := LineLen(s);
    LineHasNoInnerNewline(s);
    assert s[n - 1] == NL;
    var line := s[..n - 1];
    assert s[..n] == line + [NL];
    assert StripEol(s[..n]) == line by {
      assert (line + [NL])[..n - 1] == line;
      assert line == [] || (line[n - 2] != NL && line[n - 2] != CR);
    }
    assert s == s[..n] + s[n..];
    assert NoCrBeforeNl(s[n..]) by {
      forall k | 0 < k < |s[n..]| && s[n..][k] == NL
        ensures s[n..][k - 1] != CR
      {
        assert s[n..][k] == s[n + k] && s[n..][k - 1] == s[n + k - 1];
      }
    }
  }

  lemma {:induction false} CountNewlinesAppend(a: seq<byte>, b: seq<byte>)
    ensures CountNewlines(a + b) == CountNewlines(a) + CountNewlines(b)
    decreases |a|
  {
    if a == [] {
      assert a + b == b;
    } else {
      assert (a + b)[1..] == a[1..] + b;
      CountNewlinesAppend(a[1..], b);
    }
  }

  lemma {:induction false} CountNewlinesOfLine(a: seq<byte>)
    requires NL !in a
    ensures CountNewlines(a) == 0
    decreases |a|
  {
    if a != [] {
      CountNewlinesOfLine(a[1..]);
    }
  }
}

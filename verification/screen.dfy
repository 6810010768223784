/** Frame composition: the rows of the screen as a sequence of output
    tokens, and the full frame that hides, redraws and re-shows the cursor. */
module Screen {
  import opened EditorState

  /** Output tokens. Control sequences are abstract; `Text` is literal
      characters; `CrLf` is the two characters `"\r\n"`. */
  datatype Token =
    | HideCursor
    | ShowCursor
    | Goto(col: nat, row: nat)
    | ClearUntilNewline
    | ClearAll
    | Text(s: string)
    | CrLf

  /** Number of occurrences of `t` in `ts`. */
  function Count(t: Token, ts: seq<Token>): (n: nat) {
    if ts == [] then 0 else (if ts[0] == t then 1 else 0) + Count(t, ts[1..])
  }

  lemma {:induction false} CountConcat(t: Token, a: seq<Token>, b: seq<Token>)
    ensures Count(t, a + b) == Count(t, a) + Count(t, b)
  {
    if a != [] {
      assert (a + b)[0] == a[0];
      assert (a + b)[1..] == a[1..] + b;
      CountConcat(t, a[1..], b);
    } else {
      assert a + b == b;
    }
  }

  lemma {:induction false} CountAbsent(t: Token, ts: seq<Token>)
    requires forall i :: 0 <= i < |ts| ==> ts[i] != t
    ensures Count(t, ts) == 0
  {
    if ts != [] {
      CountAbsent(t, ts[1..]);
    }
  }

  /** The left margin that centres a banner of `len` characters, after
      clipping `len` to the screen width. */
  function Padding(len: nat, cols: nat): (p: nat)
    ensures var shown := if len > cols then cols else len;
      2 * p + shown <= cols && cols - shown - 2 * p <= 1
  {
    var shown := if len > cols then cols else len;
    (cols - shown) / 2
  }

  /** The banner line: when the margin is positive it starts with the `~`
      marker and spaces up to the margin, then the whole welcome text
      (never clipped to the screen). */
  function BannerLine(welcome: string, cols: nat): (r: string)
    ensures |r| == Padding(|welcome|, cols) + |welcome|
    ensures r[|r| - |welcome|..] == welcome
    ensures Padding(|welcome|, cols) > 0 ==>
      r[0] == '~' && forall i :: 1 <= i < Padding(|welcome|, cols) ==> r[i] == ' '
    ensures Padding(|welcome|, cols) == 0 ==> r == welcome
    ensures |welcome| > cols ==> r == welcome
  {
    var padding := Padding(|welcome|, cols);
    if padding > 0 then "~" + Spaces(padding - 1) + welcome else Spaces(padding) + welcome
  }

  /** The characters drawn on screen row `y` before the clear token. */
  function LineContent(c: Config, y: nat): (s: string) {
    if y + c.rowoff >= |c.rows| then
      if |c.rows| == 0 && y == c.screenrows / 3 then BannerLine(Welcome, c.screencols) else "~"
    else
      ""
  }

  /** The tokens of screen row `y` up to and including its clear token. */
  function LineTokens(c: Config, y: nat): (r: seq<Token>)
    ensures |r| >= 1 && r[|r| - 1] == ClearUntilNewline
    ensures forall i :: 0 <= i < |r| - 1 ==> r[i].Text?
  {
    var content := LineContent(c, y);
    (if content == "" then [] else [Text(content)]) + [ClearUntilNewline]
  }

  /** Screen row `y` followed by a line break unless it is the last row. */
  function RowTokens(c: Config, y: nat): (r: seq<Token>)
    requires y < c.screenrows
  {
    LineTokens(c, y) + (if y < c.screenrows - 1 then [CrLf] else [])
  }

  /** Only text, clear and line-break tokens. */
  predicate RowsOnly(ts: seq<Token>) {
    forall i :: 0 <= i < |ts| ==> ts[i].Text? || ts[i].ClearUntilNewline? || ts[i].CrLf?
  }

  lemma LineTokensCounts(c: Config, y: nat)
    ensures Count(ClearUntilNewline, LineTokens(c, y)) == 1
    ensures Count(CrLf, LineTokens(c, y)) == 0
  {
    var l := LineTokens(c, y);
    var n := |l| - 1;
    assert l == l[..n] + [ClearUntilNewline];
    CountConcat(ClearUntilNewline, l[..n], [ClearUntilNewline]);
    CountConcat(CrLf, l[..n], [ClearUntilNewline]);
    CountAbsent(ClearUntilNewline, l[..n]);
    CountAbsent(CrLf, l[..n]);
  }

  lemma RowTokensFacts(c: Config, y: nat)
    requires y < c.screenrows
    ensures Count(ClearUntilNewline, RowTokens(c, y)) == 1
    ensures Count(CrLf, RowTokens(c, y)) == if y < c.screenrows - 1 then 1 else 0
    ensures RowsOnly(RowTokens(c, y))
    ensures y == c.screenrows - 1 ==> RowTokens(c, y) == LineTokens(c, y)
  {
    var line := LineTokens(c, y);
    var brk: seq<Token> := if y < c.screenrows - 1 then [CrLf] else [];
    LineTokensCounts(c, y);
    CountConcat(ClearUntilNewline, line, brk);
    CountConcat(CrLf, line, brk);
    assert line + [] == line;
  }

  lemma RowsOnlyConcat(a: seq<Token>, b: seq<Token>)
    requires RowsOnly(a) && RowsOnly(b)
    ensures RowsOnly(a + b)
  {
  }

  /** Screen rows `y` to `screenrows - 1`, drawn in order. */
  function DrawFrom(c: Config, y: nat): (r: seq<Token>)
    requires y <= c.screenrows
    ensures Count(ClearUntilNewline, r) == c.screenrows - y
    ensures Count(CrLf, r) == if y < c.screenrows then c.screenrows - y - 1 else 0
    ensures RowsOnly(r)
    ensures y < c.screenrows ==> |r| > 0 && r[|r| - 1].ClearUntilNewline?
    ensures y == c.screenrows ==> r == []
    decreases c.screenrows - y
  {
    if y == c.screenrows then []
    else
      var head := RowTokens(c, y);
      var rest := DrawFrom(c, y + 1);
      RowTokensFacts(c, y);
      CountConcat(ClearUntilNewline, head, rest);
      CountConcat(CrLf, head, rest);
      RowsOnlyConcat(head, rest);
      head + rest
  }

  /** All screen rows: one clear token per row and a line break between
      consecutive rows, none after the last. */
  function DrawRows(c: Config): (r: seq<Token>)
    ensures Count(ClearUntilNewline, r) == c.screenrows
    ensures Count(CrLf, r) == if c.screenrows > 0 then c.screenrows - 1 else 0
    ensures c.screenrows > 0 ==> |r| > 0 && r[|r| - 1] == ClearUntilNewline
    ensures c.screenrows == 0 <==> r == []
    ensures forall i :: 0 <= i < |r| ==> r[i].Text? || r[i].ClearUntilNewline? || r[i].CrLf?
  {
    DrawFrom(c, 0)
  }

  /** Cuts a token sequence at its line breaks. */
  function SplitLines(ts: seq<Token>): (ls: seq<seq<Token>>)
    ensures |ls| >= 1
  {
    if ts == [] then [[]]
    else
      var rest := SplitLines(ts[1..]);
      if ts[0].CrLf? then [[]] + rest
      else [[ts[0]] + rest[0]] + rest[1..]
  }

  lemma {:induction false} SplitWithoutBreak(ts: seq<Token>)
    requires CrLf !in ts
    ensures SplitLines(ts) == [ts]
  {
    if ts != [] {
      SplitWithoutBreak(ts[1..]);
      assert [ts[0]] + ts[1..] == ts;
    }
  }

  lemma SplitCons(x: Token, ts: seq<Token>)
    ensures SplitLines([x] + ts) ==
      if x.CrLf? then [[]] + SplitLines(ts) else [[x] + SplitLines(ts)[0]] + SplitLines(ts)[1..]
  {
  }
  lemma ExtendFirstLine<T>(h: seq<T>, ra: seq<seq<T>>, rb: seq<seq<T>>)
    requires |ra| >= 1
    ensures [h + (ra + rb)[0]] + (ra + rb)[1..] == ([h + ra[0]] + ra[1..]) + rb
  {
  }
  /** A line break separates the lines before it from the lines after it. */
  lemma {:induction false} SplitAtBreak(a: seq<Token>, b: seq<Token>)
    ensures SplitLines(a + [CrLf] + b) == SplitLines(a) + SplitLines(b)
  {
    if a == [] {
      assert a + [CrLf] + b == [CrLf] + b;
      SplitCons(CrLf, b);
    } else {
      var t := a[1..];
      assert a == [a[0]] + t;
      assert a + [CrLf] + b == [a[0]] + (t + [CrLf] + b);
      SplitAtBreak(t, b);
      SplitCons(a[0], t + [CrLf] + b);
      SplitCons(a[0], t);
      if !a[0].CrLf? {
        ExtendFirstLine([a[0]], SplitLines(t), SplitLines(b));
      } else {
        assert [[]] + (SplitLines(t) + SplitLines(b)) == ([[]] + SplitLines(t)) + SplitLines(b);
      }
    }
  }

  lemma LineHasNoBreak(c: Config, y: nat)
    ensures CrLf !in LineTokens(c, y)
  {
  }

  /** The lines of screen rows `y` to `screenrows - 1`, each ending in its
      clear token. */
  function LinesFrom(c: Config, y: nat): (ls: seq<seq<Token>>)
    requires y <= c.screenrows
    ensures |ls| == c.screenrows - y
    ensures forall i :: 0 <= i < |ls| ==> ls[i] == LineTokens(c, y + i)
    decreases c.screenrows - y
  {
    if y == c.screenrows then [] else [LineTokens(c, y)] + LinesFrom(c, y + 1)
  }

  /** Cutting the drawn rows at their line breaks gives back the lines. */
  lemma {:induction false} DrawFromLines(c: Config, y: nat)
    requires y < c.screenrows
    ensures SplitLines(DrawFrom(c, y)) == LinesFrom(c, y)
    decreases c.screenrows - y
  {
    var line := LineTokens(c, y);
    var rest := DrawFrom(c, y + 1);
    assert DrawFrom(c, y) == RowTokens(c, y) + rest;
    LineHasNoBreak(c, y);
    SplitWithoutBreak(line);
    if y == c.screenrows - 1 {
      RowTokensFacts(c, y);
      assert DrawFrom(c, y) == line;
      assert LinesFrom(c, y) == [line] + [];
    } else {
      assert DrawFrom(c, y) == line + [CrLf] + rest;
      SplitAtBreak(line, rest);
      DrawFromLines(c, y + 1);
    }
  }

  lemma LineInDocument(c: Config, y: nat)
    requires y + c.rowoff < |c.rows|
    ensures LineTokens(c, y) == [ClearUntilNewline]
  {
  }

  lemma LineMarker(c: Config, y: nat)
    requires y + c.rowoff >= |c.rows| && !(|c.rows| == 0 && y == c.screenrows / 3)
    ensures LineTokens(c, y) == [Text("~"), ClearUntilNewline]
  {
  }

  lemma LineBanner(c: Config, y: nat)
    requires |c.rows| == 0 && y == c.screenrows / 3
    ensures LineTokens(c, y) == [Text(BannerLine(Welcome, c.screencols)), ClearUntilNewline]
  {
    var b := BannerLine(Welcome, c.screencols);
    assert LineContent(c, y) == b;
    assert |b| >= |Welcome| > 0;
  }

  /** Line `y` of the drawn rows: nothing but the clear token on a row that
      maps into the document, the `~` marker past the end of the document,
      and the banner on an empty document's row `screenrows / 3`. */
  lemma DrawRowsLines(c: Config)
    requires c.screenrows > 0
    ensures |SplitLines(DrawRows(c))| == c.screenrows
    ensures forall y :: 0 <= y < c.screenrows ==>
      var line := SplitLines(DrawRows(c))[y];
      && (y + c.rowoff < |c.rows| ==> line == [ClearUntilNewline])
      && (y + c.rowoff >= |c.rows| && !(|c.rows| == 0 && y == c.screenrows / 3) ==>
            line == [Text("~"), ClearUntilNewline])
      && (|c.rows| == 0 && y == c.screenrows / 3 ==>
            line == [Text(BannerLine(Welcome, c.screencols)), ClearUntilNewline])
  {
    DrawFromLines(c, 0);
    var ls := SplitLines(DrawRows(c));
    forall y | 0 <= y < c.screenrows
      ensures
        && (y + c.rowoff < |c.rows| ==> ls[y] == [ClearUntilNewline])
        && (y + c.rowoff >= |c.rows| && !(|c.rows| == 0 && y == c.screenrows / 3) ==>
              ls[y] == [Text("~"), ClearUntilNewline])
        && (|c.rows| == 0 && y == c.screenrows / 3 ==>
              ls[y] == [Text(BannerLine(Welcome, c.screencols)), ClearUntilNewline])
    {
      if y + c.rowoff < |c.rows| {
        LineInDocument(c, y);
      } else if |c.rows| == 0 && y == c.screenrows / 3 {
        LineBanner(c, y);
      } else {
        LineMarker(c, y);
      }
    }
  }

  /** The banner is on a line exactly when the document is empty and the
      line is row `screenrows / 3`. */
  lemma BannerPlacement(c: Config)
    requires c.screenrows > 0
    ensures |SplitLines(DrawRows(c))| == c.screenrows
    ensures forall y :: 0 <= y < c.screenrows ==>
      (SplitLines(DrawRows(c))[y] == [Text(BannerLine(Welcome, c.screencols)), ClearUntilNewline]
       <==> |c.rows| == 0 && y == c.screenrows / 3)
  {
    DrawRowsLines(c);
    var ls := SplitLines(DrawRows(c));
    var b := BannerLine(Welcome, c.screencols);
    BannerNotMarker(c.screencols);
    forall y | 0 <= y < c.screenrows
      ensures ls[y] == [Text(b), ClearUntilNewline] <==> |c.rows| == 0 && y == c.screenrows / 3
    {
      if !(|c.rows| == 0 && y == c.screenrows / 3) {
        if y + c.rowoff < |c.rows| {
          assert |ls[y]| == 1;
        } else {
          assert ls[y][0] == Text("~");
        }
      }
    }
  }

  /** The banner line is never the bare `~` marker. */
  lemma BannerNotMarker(cols: nat)
    ensures BannerLine(Welcome, cols) != "~"
  {
    assert |BannerLine(Welcome, cols)| >= |Welcome| >= 2;
  }

  lemma CountPair(t: Token, a: Token, b: Token)
    ensures Count(t, [a, b]) == (if a == t then 1 else 0) + (if b == t then 1 else 0)
  {
    assert [a, b][0] == a && [a, b][1..] == [b];
    assert [b][0] == b && [b][1..] == [];
    assert Count(t, [b]) == (if b == t then 1 else 0) + Count(t, []);
  }

  lemma FrameCounts(head: seq<Token>, rows: seq<Token>, tail: seq<Token>, t: Token, h: nat, m: nat, k: nat)
    requires Count(t, head) == h && Count(t, rows) == m && Count(t, tail) == k
    ensures Count(t, head + rows + tail) == h + m + k
  {
    CountConcat(t, head, rows);
    CountConcat(t, head + rows, tail);
  }

  /** A whole frame: hide the cursor, go to the origin, draw the rows, put the
      cursor at its 1-based position, show the cursor. */
  function RefreshScreen(c: Config): (r: seq<Token>)
    ensures |r| >= 4 && r[0] == HideCursor && r[1] == Goto(1, 1)
    ensures r[|r| - 2] == Goto(c.cx + 1, c.cy + 1) && r[|r| - 1] == ShowCursor
    ensures r[2..|r| - 2] == DrawRows(c)
    ensures Count(HideCursor, r) == 1 && Count(ShowCursor, r) == 1
    ensures Count(ClearUntilNewline, r) == c.screenrows
    ensures OnScreen(c) ==>
      1 <= r[|r| - 2].col <= c.screencols && 1 <= r[|r| - 2].row <= c.screenrows
  {
    var rows := DrawRows(c);
    var head := [HideCursor, Goto(1, 1)];
    var tail := [Goto(c.cx + 1, c.cy + 1), ShowCursor];
    CountPair(HideCursor, HideCursor, Goto(1, 1));
    CountPair(ShowCursor, HideCursor, Goto(1, 1));
    CountPair(ClearUntilNewline, HideCursor, Goto(1, 1));
    CountPair(HideCursor, Goto(c.cx + 1, c.cy + 1), ShowCursor);
    CountPair(ShowCursor, Goto(c.cx + 1, c.cy + 1), ShowCursor);
    CountPair(ClearUntilNewline, Goto(c.cx + 1, c.cy + 1), ShowCursor);
    CountAbsent(HideCursor, rows);
    CountAbsent(ShowCursor, rows);
    FrameCounts(head, rows, tail, HideCursor, 1, 0, 0);
    FrameCounts(head, rows, tail, ShowCursor, 0, 0, 1);
    FrameCounts(head, rows, tail, ClearUntilNewline, 0, c.screenrows, 0);
    var r := head + rows + tail;
    assert r[2..|r| - 2] == rows;
    r
  }

  /** On an empty document and an 80 by 24 screen the banner is on row 8 and
      every other row shows the `~` marker. */
  lemma EmptyDocumentScenario(c: Config)
    requires c.rows == [] && c.screencols == 80 && c.screenrows == 24
    ensures |SplitLines(DrawRows(c))| == 24
    ensures SplitLines(DrawRows(c))[8] == [Text(BannerLine(Welcome, 80)), ClearUntilNewline]
    ensures forall y :: 0 <= y < 24 && y != 8 ==> SplitLines(DrawRows(c))[y] == [Text("~"), ClearUntilNewline]
  {
    DrawRowsLines(c);
  }
}

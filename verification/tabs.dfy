/** Mapping a character index to a render column under tab stops of
    `TabStop` columns, and the tab expansion that the mapping agrees with. */
module Tabs {
  import opened EditorState

  /** The render column after drawing `ch` when the running column is `rx`. */
  function RxStep(rx: nat, ch: char): (r: nat) {
    if ch == '\t' then rx + (TabStop - 1) - rx % TabStop + 1 else rx + 1
  }

  /** The render column reached after drawing all of `s` from column 0. */
  function RenderColumn(s: seq<char>): (r: nat)
    ensures r >= |s|
    ensures (forall i :: 0 <= i < |s| ==> s[i] != '\t') ==> r == |s|
  {
    if |s| == 0 then 0 else RxStep(RenderColumn(s[..|s| - 1]), s[|s| - 1])
  }

  /** A tab moves the running column to the next multiple of the tab stop. */
  lemma TabReachesNextStop(rx: nat)
    ensures RxStep(rx, '\t') % TabStop == 0
    ensures rx < RxStep(rx, '\t') <= rx + TabStop
  {
  }

  /** The render column of the cursor: scans the first `cx` characters of the
      cursor's row. The row is read only when `cx > 0`; kilo-rs then panics
      when the row or the character index is out of range. */
  method RowCxToRx(c: Config) returns (rx: nat)
    requires c.cx == 0 || (c.cy < |c.rows| && c.cx <= |c.rows[c.cy].chars|)
    ensures c.cx == 0 ==> rx == 0
    ensures c.cx > 0 ==> rx == RenderColumn(c.rows[c.cy].chars[..c.cx])
    ensures rx >= c.cx
    ensures c.cx > 0 && (forall j :: 0 <= j < c.cx ==> c.rows[c.cy].chars[j] != '\t') ==> rx == c.cx
  {
    rx := 0;
    var j := 0;
    while j < c.cx
      invariant j <= c.cx
      invariant j > 0 ==> rx == RenderColumn(c.rows[c.cy].chars[..j])
      invariant j == 0 ==> rx == 0
    {
      var chars := c.rows[c.cy].chars;
      assert rx == RenderColumn(chars[..j]);
      if chars[j] == '\t' {
        rx := rx + (TabStop - 1) - rx % TabStop;
      }
      rx := rx + 1;
      assert chars[..j + 1][..j] == chars[..j];
      j := j + 1;
    }
    if c.cx > 0 {
      var chars := c.rows[c.cy].chars;
      assert forall i :: 0 <= i < c.cx ==> chars[..c.cx][i] == chars[i];
    }
  }

  /** What one character of a row expands to when it starts at column `col`:
      a tab becomes spaces up to the next tab stop. */
  function Piece(col: nat, ch: char): (p: string) {
    if ch == '\t' then Spaces(TabStop - col % TabStop) else [ch]
  }

  /** The render form of a row's characters, built left to right. */
  function Expand(s: seq<char>): (e: string) {
    if |s| == 0 then [] else var p := Expand(s[..|s| - 1]); p + Piece(|p|, s[|s| - 1])
  }

  /** The column mapping agrees with the expansion: the render column of a
      prefix is the length of its render form. */
  lemma {:induction false} ExpandLength(s: seq<char>)
    ensures |Expand(s)| == RenderColumn(s)
  {
    if |s| > 0 {
      ExpandLength(s[..|s| - 1]);
    }
  }

  /** Expanding a longer prefix only appends to the render form. */
  lemma {:induction false} ExpandPrefix(s: seq<char>, k: nat)
    requires k <= |s|
    ensures Expand(s[..k]) <= Expand(s)
    decreases |s| - k
  {
    if k < |s| {
      ExpandPrefix(s, k + 1);
      assert s[..k + 1][..k] == s[..k];
    } else {
      assert s[..k] == s;
    }
  }

  /** In the expansion, character `cx` of a row lands at render column
      `RenderColumn(chars[..cx])`: a tab covers that column with a space,
      any other character appears there itself. */
  lemma {:induction false} CursorCellInRender(chars: seq<char>, cx: nat)
    requires cx < |chars|
    ensures RenderColumn(chars[..cx]) < |Expand(chars)|
    ensures chars[cx] != '\t' ==> Expand(chars)[RenderColumn(chars[..cx])] == chars[cx]
    ensures chars[cx] == '\t' ==> Expand(chars)[RenderColumn(chars[..cx])] == ' '
  {
    var pre := chars[..cx];
    assert chars[..cx + 1][..cx] == pre;
    ExpandLength(pre);
    ExpandPrefix(chars, cx + 1);
    var e := Expand(chars[..cx + 1]);
    assert e == Expand(pre) + Piece(|Expand(pre)|, chars[cx]);
  }

  /** A row without tabs expands to itself. */
  lemma {:induction false} ExpandWithoutTabs(s: seq<char>)
    requires forall i :: 0 <= i < |s| ==> s[i] != '\t'
    ensures Expand(s) == s
  {
    if |s| > 0 {
      ExpandWithoutTabs(s[..|s| - 1]);
      assert s == s[..|s| - 1] + [s[|s| - 1]];
    }
  }

  /** `"a\tb"`: the tab fills columns 1 to 7, so the cursor just past the tab
      sits at column 8 and the expansion is 9 columns wide. */
  lemma TabScenario()
    ensures Expand("a\tb") == "a" + Spaces(7) + "b"
    ensures RenderColumn("a\t") == 8
    ensures |Expand("a\tb")| == 9
  {
    assert "a\tb"[..2] == "a\t";
    assert "a\t"[..1] == "a";
    assert "a"[..0] == [];
  }
}

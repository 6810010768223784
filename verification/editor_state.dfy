/** The editor's state: document rows, the cursor, the (never scrolled)
    offsets and the screen size, plus loading a document from a line source. */
module EditorState {

  /** Width of a tab stop in render columns. */
  const TabStop: nat := 8

  /** Stand-in for the crate version string, which the build injects. */
  const Version: string := "0.1.0"

  /** The banner shown on an empty document. */
  const Welcome: string := "Kilo editor -- version " + Version

  /** One line of the document; `render` is never filled in. */
  datatype Row = Row(chars: seq<char>, render: string)

  /** The editor configuration: cursor (`cx`, `cy`), the stored but never
      written render column `rx`, scroll offsets, screen size and rows. */
  datatype Config = Config(
    cx: nat, cy: nat, rx: nat,
    rowoff: nat, coloff: nat,
    screencols: nat, screenrows: nat,
    rows: seq<Row>)

  /** The cursor addresses a cell of a non-empty screen. */
  predicate OnScreen(c: Config) {
    c.screencols >= 1 && c.screenrows >= 1 && c.cx < c.screencols && c.cy < c.screenrows
  }

  /** `n` space characters. */
  function Spaces(n: nat): (s: string)
    ensures |s| == n
    ensures forall i :: 0 <= i < n ==> s[i] == ' '
  {
    if n == 0 then [] else Spaces(n - 1) + [' ']
  }

  /** A row made from one line of text, with an empty render. */
  function NewRow(line: string): (r: Row)
    ensures r.chars == line && r.render == ""
  {
    Row(line, "")
  }

  /** The initial configuration for a terminal of `w` columns and `h` rows:
      cursor at the origin, no scrolling, no rows. */
  function NewConfig(w: nat, h: nat): (c: Config)
    ensures c.screencols == w && c.screenrows == h && c.rows == []
    ensures c.cx == 0 && c.cy == 0 && c.rx == 0 && c.rowoff == 0 && c.coloff == 0
    ensures OnScreen(c) <==> w >= 1 && h >= 1
  {
    Config(0, 0, 0, 0, 0, w, h, [])
  }

  /** Clears the render of the last row; the tab count it computes is unused.
      kilo-rs panics on an empty document. */
  function UpdateRow(c: Config): (r: Config)
    requires |c.rows| > 0
    ensures r == c.(rows := r.rows)
    ensures |r.rows| == |c.rows|
    ensures forall i :: 0 <= i < |c.rows| - 1 ==> r.rows[i] == c.rows[i]
    ensures r.rows[|c.rows| - 1].chars == c.rows[|c.rows| - 1].chars
    ensures r.rows[|c.rows| - 1].render == ""
  {
    var last := c.rows[|c.rows| - 1];
    c.(rows := c.rows[..|c.rows| - 1] + [last.(render := "")])
  }

  /** One read from the line iterator: a line, or an I/O error. */
  datatype LineRead = Line(text: string) | ReadError

  /** The file named on the command line: it cannot be opened, or it yields reads. */
  datatype FileSource = Missing | Readable(lines: seq<LineRead>)

  datatype IoStatus = Done | Failed

  /** Appends one row per line read, in order, stopping at the first read
      error. Rows appended before the error are kept. */
  method Open(c: Config, source: FileSource) returns (r: Config, status: IoStatus)
    ensures r == c.(rows := r.rows)
    ensures |c.rows| <= |r.rows| && r.rows[..|c.rows|] == c.rows
    ensures source.Missing? ==> r == c && status == Failed
    ensures source.Readable? ==>
      var n := |r.rows| - |c.rows|;
      && n <= |source.lines|
      && (forall i :: 0 <= i < n ==>
            source.lines[i].Line? && r.rows[|c.rows| + i] == NewRow(source.lines[i].text))
      && (status == Done <==> n == |source.lines|)
      && (status == Failed ==> source.lines[n].ReadError?)
  {
    if source.Missing? {
      return c, Failed;
    }
    var lines := source.lines;
    var rows := c.rows;
    var i := 0;
    while i < |lines|
      invariant 0 <= i <= |lines|
      invariant |rows| == |c.rows| + i
      invariant rows[..|c.rows|] == c.rows
      invariant forall k :: 0 <= k < i ==>
        lines[k].Line? && rows[|c.rows| + k] == NewRow(lines[k].text)
    {
      if lines[i].ReadError? {
        return c.(rows := rows), Failed;
      }
      rows := rows + [NewRow(lines[i].text)];
      i := i + 1;
    }
    return c.(rows := rows), Done;
  }
}

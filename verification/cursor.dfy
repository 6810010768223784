/** Keys as the terminal library delivers them, and the arrow-key cursor
    movement. Movement is bounded by the screen, not by the document. */
module Cursor {
  import opened EditorState

  /** A decoded key press. */
  datatype Key =
    | Backspace | Left | Right | Up | Down | Home | End | PageUp | PageDown
    | BackTab | Delete | Insert | F(n: nat) | Char(c: char) | Alt(c: char)
    | Ctrl(c: char) | Null | Esc

  predicate IsArrow(k: Key) {
    k.Left? || k.Right? || k.Up? || k.Down?
  }

  /** Ctrl-q, the only key that ends the session. */
  predicate IsQuit(k: Key) {
    k == Ctrl('q')
  }

  /** The key can be processed without the unsigned `screencols - 1` or
      `screenrows - 1` underflowing on a zero-sized screen. */
  predicate KeyDefined(cols: nat, rows: nat, k: Key) {
    (k.Right? ==> cols >= 1) && (k.Down? ==> rows >= 1)
  }

  /** Every key up to and including the first quit is defined; keys after a
      quit are never read. */
  predicate ScriptDefined(cols: nat, rows: nat, keys: seq<Key>)
    decreases |keys|
  {
    keys == [] || (KeyDefined(cols, rows, keys[0]) && (IsQuit(keys[0]) || ScriptDefined(cols, rows, keys[1..])))
  }

  /** Every prefix of a processable script is processable. */
  lemma {:induction false} ScriptPrefix(cols: nat, rows: nat, keys: seq<Key>, n: nat)
    requires ScriptDefined(cols, rows, keys) && n <= |keys|
    ensures ScriptDefined(cols, rows, keys[..n])
    decreases n
  {
    if n > 0 && !IsQuit(keys[0]) {
      assert keys[..n][1..] == keys[1..][..n - 1];
      ScriptPrefix(cols, rows, keys[1..], n - 1);
    }
  }

  /** Applies one key to the cursor. */
  function MoveCursor(c: Config, key: Key): (r: Config)
    requires KeyDefined(c.screencols, c.screenrows, key)
    ensures r == c.(cx := r.cx, cy := r.cy)
    ensures r.cx == c.cx || r.cy == c.cy
    ensures -1 <= r.cx - c.cx <= 1 && -1 <= r.cy - c.cy <= 1
    ensures key.Left? ==> r.cy == c.cy && r.cx <= c.cx && (r.cx == c.cx <==> c.cx == 0)
    ensures key.Right? ==> r.cy == c.cy && r.cx >= c.cx && (r.cx == c.cx <==> c.cx == c.screencols - 1)
    ensures key.Up? ==> r.cx == c.cx && r.cy <= c.cy && (r.cy == c.cy <==> c.cy == 0)
    ensures key.Down? ==> r.cx == c.cx && r.cy >= c.cy && (r.cy == c.cy <==> c.cy == c.screenrows - 1)
    ensures !IsArrow(key) ==> r == c
    ensures OnScreen(c) ==> OnScreen(r)
  {
    match key
    case Left => if c.cx != 0 then c.(cx := c.cx - 1) else c
    case Right => if c.cx != c.screencols - 1 then c.(cx := c.cx + 1) else c
    case Up => if c.cy != 0 then c.(cy := c.cy - 1) else c
    case Down => if c.cy != c.screenrows - 1 then c.(cy := c.cy + 1) else c
    case _ => c
  }

  /** Left undoes Right away from the right edge, and Right undoes Left away
      from the left edge. */
  lemma HorizontalInverse(c: Config)
    requires OnScreen(c)
    ensures c.cx > 0 ==> MoveCursor(MoveCursor(c, Left), Right) == c
    ensures c.cx < c.screencols - 1 ==> MoveCursor(MoveCursor(c, Right), Left) == c
  {
  }

  /** Up undoes Down away from the bottom edge, and Down undoes Up away from
      the top edge. */
  lemma VerticalInverse(c: Config)
    requires OnScreen(c)
    ensures c.cy > 0 ==> MoveCursor(MoveCursor(c, Up), Down) == c
    ensures c.cy < c.screenrows - 1 ==> MoveCursor(MoveCursor(c, Down), Up) == c
  {
  }
}

# kilo-rs editor core in Dafny

This project models the editor state of kilo-rs, a Rust port of the kilo
terminal text editor, as pure functions over immutable values. Four parts are
modelled:

- **Cursor movement** (`Cursor.MoveCursor`). The arrow keys move the cursor
  by at most one cell. The bounds are the screen size, not the document.
- **Tab-stop column mapping** (`Tabs.RowCxToRx`). A character index in the
  cursor's row becomes a render column under tab stops of 8 columns. This is
  checked against a reference tab expansion of the row (`Tabs.Expand`); kilo-rs itself never builds this render form.
- **Frame composition** (`Screen.DrawRows`, `Screen.RefreshScreen`). Each
  screen row is drawn as a token sequence: the centred welcome banner, the
  `~` empty-line marker, a clear-to-end-of-line token, and `\r\n`
  separators. The frame wraps the rows in cursor hide, go-to and show
  tokens.
- **Key dispatch and the session loop** (`Session.ProcessKeyPress`,
  `Session.Run`). Ctrl-q stops the loop and the arrow keys move the cursor.
  Every other key does nothing. The loop runs over a finite scripted key
  sequence.

Layout, one module per file:

| file | module | contents |
|---|---|---|
| editor_state.dfy | `EditorState` | `Row`, `Config`, initial configuration, `update_row`, loading rows from a line source |
| cursor.dfy | `Cursor` | `Key`, arrow-key movement |
| tabs.dfy | `Tabs` | character index to render column, reference tab expansion |
| screen.dfy | `Screen` | output tokens, banner, screen rows, frame |
| session.dfy | `Session` | frame buffer and captured output, key dispatch, refresh / read-key loop |

Terminal control sequences are abstract `Screen.Token` values. Everything the
editor writes to the terminal is kept as a token sequence (`Editor.out`). The
frame buffer is `Editor.buffer`.

Where a general description of kilo and this code differ, the model follows
the code:

- There is no scrolling. `rowoff` and `coloff` are never written after
  construction.
- Movement does not wrap between lines and does not clamp to the row length.
- `rx` is never stored. `Config.rx` stays 0.
- Document rows draw nothing: the branch that would draw row text is
  commented out.
- The welcome text is not clipped to the screen width. Only the centring
  margin uses the clipped length.
- The final cursor move goes to `cx + 1, cy + 1`, not to the render column.
- `update_row` only empties the last row's render.

## Model

| member | source | states |
|---|---|---|
| `EditorState.NewConfig` | src/main.rs:38-52 | The initial configuration puts the cursor at the origin, with no scrolling, no rows and the given screen size. Its cursor is on screen exactly when both dimensions are at least 1. |
| `EditorState.NewRow` | src/main.rs:19-24 | A new row holds the line's characters and an empty render. |
| `EditorState.UpdateRow` | src/main.rs:205-216 | Only the last row changes, and only its render, which becomes empty. Its characters, all other rows and all other fields are unchanged. kilo-rs panics on an empty document, hence the non-empty precondition. |
| `EditorState.Open` | src/main.rs:63-71 | A file that cannot be opened leaves the configuration unchanged and reports failure. Otherwise one row per line read is appended, in order, with the line as its characters and an empty render. Existing rows are kept. It succeeds exactly when every read is a line; on failure the read after the last appended row is the error. |
| `Cursor.MoveCursor` | src/main.rs:168-192 | Only `cx`/`cy` change, at most one of them, by at most 1. Left and Up decrease their coordinate, which stays put exactly at 0. Right and Down increase theirs, which stays put exactly at `screencols - 1` / `screenrows - 1`. Non-arrow keys change nothing. An on-screen cursor stays on screen. |
| `Cursor.HorizontalInverse` | src/main.rs:170-179 | Away from the left edge, Right undoes Left; away from the right edge, Left undoes Right. |
| `Cursor.VerticalInverse` | src/main.rs:180-189 | Away from the top edge, Down undoes Up; away from the bottom edge, Up undoes Down. |
| `Tabs.RenderColumn` | src/main.rs:194-203 | The render column of a character prefix is at least its length. It equals the length when the prefix holds no tab. |
| `Tabs.TabReachesNextStop` | src/main.rs:197-200 | A tab moves the running column to the next multiple of 8, which is strictly greater than the current column and at most 8 columns further. |
| `Tabs.RowCxToRx` | src/main.rs:194-203 | At column 0 the result is 0 for any cursor row, even one past the end of the document, because the row is never read. Otherwise, for a valid cursor row and character index, the loop computes the render column of the first `cx` characters. The result is at least `cx`, and it is exactly `cx` when none of those characters is a tab. |
| `Tabs.ExpandLength` | src/main.rs:194-203 | The render column of a character sequence equals the length of its tab-expanded render form. |
| `Tabs.ExpandPrefix` | src/main.rs:194-203 | Expanding a longer prefix of a row only appends to the render form. |
| `Tabs.CursorCellInRender` | src/main.rs:194-203 | In the reference expansion `Tabs.Expand`, character `cx` lands at the render column computed for `cx`. A non-tab character expands to itself there; a tab expands to a space there. |
| `Tabs.ExpandWithoutTabs` | src/main.rs:194-203 | A row without tabs expands to its own characters. |
| `Tabs.TabScenario` | src/main.rs:194-203 | `"a\tb"` expands to `a`, seven spaces, `b` (9 columns). The render column just past the tab is 8. |
| `Screen.Padding` | src/main.rs:130-136 | The margin centres the clipped banner length. Twice the margin plus the clipped length fits the screen, and the two sides differ by at most one column. |
| `Screen.BannerLine` | src/main.rs:128-144 | The banner line is the margin plus the whole welcome text, which it ends with. With a positive margin it starts with `~` followed by margin-1 spaces. With a zero margin, and whenever the text is wider than the screen, it is the welcome text alone. |
| `Screen.DrawFrom` | src/main.rs:122-166 | Drawing rows `y` to the last gives one clear token per row and one line break per row except the last. It holds only text, clear and line-break tokens, and it ends with a clear token. |
| `Screen.DrawRows` | src/main.rs:122-166 | All rows give exactly `screenrows` clear tokens and `screenrows - 1` line breaks, with none after the last row. The output is empty exactly when there are no screen rows. |
| `Screen.SplitAtBreak` | src/main.rs:161-164 | Helper fact about the line-cutting function, not about kilo-rs on its own: cutting at line breaks splits a sequence at a break into the lines before it and the lines after it. |
| `Screen.DrawFromLines` | src/main.rs:123-164 | Cutting the drawn rows at their line breaks gives back exactly the per-row lines, in screen order. |
| `Screen.DrawRowsLines` | src/main.rs:124-164 | There are `screenrows` lines. A line mapping into the document is just the clear token. Any other line is `~` then clear, except on an empty document at row `screenrows / 3`, where it is the banner then clear. |
| `Screen.BannerPlacement` | src/main.rs:126-128 | The banner line appears at row `y` if and only if the document has no rows and `y == screenrows / 3`. |
| `Screen.EmptyDocumentScenario` | src/main.rs:126-147 | With no rows on an 80x24 screen, the banner is on row 8 and every other row is the `~` marker. |
| `Screen.RefreshScreen` | src/main.rs:73-83 | The frame hides the cursor, goes to (1, 1), draws the rows, goes to (`cx + 1`, `cy + 1`) and shows the cursor. It hides and shows the cursor exactly once each, and holds one clear token per screen row. For an on-screen cursor the final move addresses a cell of the screen. |
| `Session.Refresh` | src/main.rs:73-87 | Refreshing writes the pending buffer and one frame to the output and leaves the buffer empty. The configuration is unchanged, and exactly one more cursor-show token is written. |
| `Session.ProcessKeyPress` | src/main.rs:89-105 | The session keeps running exactly when the key is not Ctrl-q. Ctrl-q writes a screen clear and a move to the origin and leaves the state otherwise unchanged. An arrow applies the cursor movement. Any other key, including other Ctrl keys, changes nothing. |
| `Session.QuitShift` | src/main.rs:109-114 | Helper fact about key lists, used by the loop-stop proof: putting a key other than Ctrl-q in front of a script moves its first Ctrl-q one key later. |
| `Session.NoQuitShift` | src/main.rs:109-114 | Helper fact about key lists, used by the loop-stop proofs: putting a key other than Ctrl-q in front of a script leaves it without Ctrl-q exactly when it had none. |
| `Session.Replay` | src/main.rs:100 | Replaying keys up to the first Ctrl-q changes only the cursor and keeps an on-screen cursor on screen. |
| `Session.Loop` | src/main.rs:111-113 | The loop leaves the frame buffer empty. |
| `Session.LoopStops` | src/main.rs:111-113 | The loop stops at the first Ctrl-q of the script. |
| `Session.LoopExhausts` | src/main.rs:111-113 | The loop runs out of input exactly when the script holds no Ctrl-q. |
| `Session.LoopReplays` | src/main.rs:111-113 | The cursor after the loop is where replaying the keys alone puts it. |
| `Session.LoopRedraws` | src/main.rs:111-113 | The loop writes, after the existing output, one frame per key before the first Ctrl-q, each for the cursor that key leaves, in key order. If it stops at a Ctrl-q, it then writes a screen clear and a move to the origin; if the script runs out, nothing more. |
| `Session.Frames` | src/main.rs:111-113 | Frames `lo` to `hi - 1` of a session hold exactly `hi - lo` cursor-show tokens, one per frame. Frame `i` is the screen for the cursor after the first `i` keys. |
| `Session.RedrawsFrames` | src/main.rs:109-114 | The first frame followed by the loop's redraws is exactly frames 0 to `k - 1`, where `k` is the position of the first Ctrl-q, or one past the last key when there is none. |
| `Session.LoopFrames` | src/main.rs:111-113 | The loop draws one frame per key before the Ctrl-q, or one per key when the script runs out. |
| `Session.Run` | src/main.rs:109-114 | A session draws a first frame, then loops. It stops at the first Ctrl-q or runs out of input when there is none. The cursor ends where replaying the keys puts it and stays on screen. The output is the existing output and buffer, then frames 0 to `k - 1`, where frame `i` is the screen for the cursor after the first `i` keys, and `k` is the number of keys consumed on a quit or one more than the number of keys otherwise. A quit adds a screen clear and a move to the origin at the end. This makes one frame per processed key plus the first. |

## Left out

- Terminal setup and teardown (raw mode, alternate screen, mouse terminal, the stdin key iterator in `main`) are operating-system I/O.
- `terminal_size()` in `Config::new` is a foreign call. The screen size is a parameter of `NewConfig`, and its failure (`expect`) is not modelled.
- The byte encodings of the terminal library's cursor and clear sequences are external. They are abstract tokens here; `CrLf` stands for the two characters `"\r\n"`.
- `VERSION` comes from the build environment. `EditorState.Version` is a placeholder string, and no proof depends on its value beyond the welcome text being at least two characters long.
- `welcome.len()` counts UTF-8 bytes. The model counts characters, which is the same for the ASCII welcome text.
- `set_status_message` does nothing and is not modelled.
- `read_key` reads the next key from a foreign iterator. Keys come from a script instead. A read error from the iterator is not modelled. An exhausted script, where kilo-rs's `unwrap` panics, ends the run as `InputExhausted`.
- Writing and flushing stdout are out of scope. Writes are appended to `Editor.out` in order; flush timing is not modelled.
- Command-line handling in `main` is not modelled: a file is opened only when there are more than two arguments, and then it is the third one. `Open` takes the line source as a parameter.
- The unused tab count computed in `update_row` is not modelled.
- `Cursor.MoveCursor`: does not model u16 arithmetic. The underflow panics of `screencols - 1` and `screenrows - 1` on a zero-sized screen are preconditions (`KeyDefined`). Increments cannot overflow, because the cursor starts at the origin and movement keeps it on screen.
- `Tabs.RowCxToRx`: the render column is unbounded. kilo-rs's u16 `rx` could wrap on rows longer than 65535 columns.
- `Session.Run`: keys are required to be processable (`ScriptDefined`) only up to and including the first Ctrl-q, because kilo-rs never reads the rest.

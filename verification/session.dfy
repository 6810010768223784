/** The editor session: the frame buffer, the captured output stream, key
    dispatch and the refresh / read-key loop over a scripted key sequence. */
module Session {
  import opened EditorState
  import opened Cursor
  import opened Screen

  /** The editor: its configuration, the frame buffer, and everything written
      to the terminal so far. */
  datatype Editor = Editor(config: Config, buffer: seq<Token>, out: seq<Token>)

  /** The result of one key press: the new editor and whether to keep running. */
  datatype Step = Step(editor: Editor, running: bool)

  /** How a scripted run ends: Ctrl-q after `consumed` keys, or the script
      runs out, where kilo-rs's key reader panics. */
  datatype RunResult = Quit(editor: Editor, consumed: nat) | InputExhausted(editor: Editor)

  /** Key `n - 1` of the script is the first Ctrl-q. */
  predicate FirstQuitAt(keys: seq<Key>, n: nat) {
    1 <= n <= |keys| && IsQuit(keys[n - 1]) && forall i :: 0 <= i < n - 1 ==> !IsQuit(keys[i])
  }

  /** Prepending a key other than Ctrl-q moves the first quit one key later. */
  lemma QuitShift(keys: seq<Key>, n: nat)
    requires |keys| > 0 && !IsQuit(keys[0]) && FirstQuitAt(keys[1..], n)
    ensures FirstQuitAt(keys, n + 1)
  {
  }

  /** Dropping a first key other than Ctrl-q moves the first quit one key
      earlier. */
  lemma QuitUnshift(keys: seq<Key>, n: nat)
    requires |keys| > 0 && !IsQuit(keys[0]) && FirstQuitAt(keys, n)
    ensures n >= 2 && FirstQuitAt(keys[1..], n - 1)
  {
    assert keys[1..][n - 2] == keys[n - 1];
    forall i | 0 <= i < n - 2
      ensures !IsQuit(keys[1..][i])
    {
      assert keys[1..][i] == keys[i + 1];
    }
  }

  /** Prepending a key other than Ctrl-q keeps a script free of quits. */
  lemma NoQuitShift(keys: seq<Key>)
    requires |keys| > 0 && !IsQuit(keys[0])
    ensures (forall i :: 0 <= i < |keys| - 1 ==> !IsQuit(keys[1..][i])) <==>
      forall i :: 0 <= i < |keys| ==> !IsQuit(keys[i])
  {
    if exists i :: 0 <= i < |keys| && IsQuit(keys[i]) {
      var i :| 0 <= i < |keys| && IsQuit(keys[i]);
      assert i > 0 && keys[1..][i - 1] == keys[i];
    }
  }

  /** Appends a frame to the buffer, writes the buffer out and empties it. */
  function Refresh(ed: Editor): (r: Editor)
    ensures r.config == ed.config && r.buffer == []
    ensures r.out == ed.out + ed.buffer + RefreshScreen(ed.config)
    ensures Count(ShowCursor, r.out) == Count(ShowCursor, ed.out + ed.buffer) + 1
  {
    var frame := RefreshScreen(ed.config);
    CountConcat(ShowCursor, ed.out + ed.buffer, frame);
    Editor(ed.config, [], ed.out + ed.buffer + frame)
  }

  /** Handles one key: Ctrl-q clears the screen and stops, an arrow moves the
      cursor, anything else is ignored. */
  function ProcessKeyPress(ed: Editor, key: Key): (s: Step)
    requires KeyDefined(ed.config.screencols, ed.config.screenrows, key)
    ensures s.running <==> !IsQuit(key)
    ensures IsQuit(key) ==> s.editor == ed.(out := ed.out + [ClearAll, Goto(1, 1)])
    ensures IsArrow(key) ==> s.editor == ed.(config := MoveCursor(ed.config, key))
    ensures !IsQuit(key) && !IsArrow(key) ==> s.editor == ed
  {
    match key
    case Ctrl(k) =>
      if k == 'q' then Step(ed.(out := ed.out + [ClearAll, Goto(1, 1)]), false) else Step(ed, true)
    case Up | Down | Left | Right => Step(ed.(config := MoveCursor(ed.config, key)), true)
    case _ => Step(ed, true)
  }

  /** The cursor state alone after a script: every key up to the first
      Ctrl-q moves the cursor, and the rest are never read. */
  function Replay(c: Config, keys: seq<Key>): (r: Config)
    requires ScriptDefined(c.screencols, c.screenrows, keys)
    ensures r == c.(cx := r.cx, cy := r.cy)
    ensures OnScreen(c) ==> OnScreen(r)
    decreases |keys|
  {
    if keys == [] || IsQuit(keys[0]) then c else Replay(MoveCursor(c, keys[0]), keys[1..])
  }

  /** Frames `lo` to `hi - 1` of a session: frame `i` is the screen for
      the cursor after replaying the first `i` keys. */
  function Frames(c: Config, keys: seq<Key>, lo: nat, hi: nat): (fs: seq<Token>)
    requires ScriptDefined(c.screencols, c.screenrows, keys)
    requires lo <= hi <= |keys| + 1
    ensures Count(ShowCursor, fs) == hi - lo
    decreases hi - lo
  {
    if lo == hi then []
    else
      ScriptPrefix(c.screencols, c.screenrows, keys, lo);
      var frame := RefreshScreen(Replay(c, keys[..lo]));
      var rest := Frames(c, keys, lo + 1, hi);
      CountConcat(ShowCursor, frame, rest);
      frame + rest
  }

  /** The frames the loop draws, in the loop's own order: one after each
      key before the first Ctrl-q, for the cursor that key leaves. */
  function Redraws(c: Config, keys: seq<Key>): (fs: seq<Token>)
    requires ScriptDefined(c.screencols, c.screenrows, keys)
    decreases |keys|
  {
    if keys == [] || IsQuit(keys[0]) then []
    else
      var next := MoveCursor(c, keys[0]);
      RefreshScreen(next) + Redraws(next, keys[1..])
  }

  /** Dropping a first key other than Ctrl-q shifts the frame numbers down
      by one and starts from the cursor that key leaves. */
  lemma {:induction false} FramesShift(c: Config, keys: seq<Key>, lo: nat, hi: nat)
    requires ScriptDefined(c.screencols, c.screenrows, keys)
    requires |keys| > 0 && !IsQuit(keys[0])
    requires 1 <= lo <= hi <= |keys| + 1
    ensures Frames(c, keys, lo, hi) == Frames(MoveCursor(c, keys[0]), keys[1..], lo - 1, hi - 1)
    decreases hi - lo
  {
    if lo < hi {
      var next := MoveCursor(c, keys[0]);
      ScriptPrefix(c.screencols, c.screenrows, keys, lo);
      assert keys[..lo][0] == keys[0];
      assert keys[..lo][1..] == keys[1..][..lo - 1];
      assert Replay(c, keys[..lo]) == Replay(next, keys[1..][..lo - 1]);
      FramesShift(c, keys, lo + 1, hi);
      assert Frames(c, keys, lo, hi) == RefreshScreen(Replay(c, keys[..lo])) + Frames(c, keys, lo + 1, hi);
      assert Frames(next, keys[1..], lo - 1, hi - 1) ==
        RefreshScreen(Replay(next, keys[1..][..lo - 1])) + Frames(next, keys[1..], lo, hi - 1);
    }
  }

  /** One step of `RedrawsFrames`: the claim for the script after its first
      key, other than Ctrl-q, gives the claim for the whole script. */
  lemma RedrawsFramesStep(c: Config, keys: seq<Key>, k: nat)
    requires ScriptDefined(c.screencols, c.screenrows, keys)
    requires |keys| > 0 && !IsQuit(keys[0]) && 2 <= k <= |keys| + 1
    requires var next := MoveCursor(c, keys[0]);
      RefreshScreen(next) + Redraws(next, keys[1..]) == Frames(next, keys[1..], 0, k - 1)
    ensures RefreshScreen(c) + Redraws(c, keys) == Frames(c, keys, 0, k)
  {
    var next := MoveCursor(c, keys[0]);
    FramesShift(c, keys, 1, k);
    calc {
      RefreshScreen(c) + Redraws(c, keys);
      RefreshScreen(c) + (RefreshScreen(next) + Redraws(next, keys[1..]));
      RefreshScreen(c) + Frames(next, keys[1..], 0, k - 1);
      RefreshScreen(c) + Frames(c, keys, 1, k);
      { assert keys[..0] == [] && Replay(c, keys[..0]) == c; }
      Frames(c, keys, 0, k);
    }
  }

  /** The first frame and the loop's redraws are frames 0 to `k - 1`, where
      `k` is the position of the first Ctrl-q, or one past the last key when
      there is none. */
  lemma {:induction false} RedrawsFrames(c: Config, keys: seq<Key>, k: nat)
    requires ScriptDefined(c.screencols, c.screenrows, keys)
    requires FirstQuitAt(keys, k) || (k == |keys| + 1 && forall i :: 0 <= i < |keys| ==> !IsQuit(keys[i]))
    ensures k <= |keys| + 1
    ensures RefreshScreen(c) + Redraws(c, keys) == Frames(c, keys, 0, k)
    decreases |keys|
  {
    assert keys[..0] == [];
    if keys == [] || IsQuit(keys[0]) {
      assert k == 1;
      assert Frames(c, keys, 1, 1) == [];
    } else {
      var next := MoveCursor(c, keys[0]);
      if FirstQuitAt(keys, k) {
        QuitUnshift(keys, k);
      } else {
        NoQuitShift(keys);
      }
      RedrawsFrames(next, keys[1..], k - 1);
      RedrawsFramesStep(c, keys, k);
    }
  }

  /** The loop after the first frame: read a key, process it, and redraw
      while the session keeps running. */
  function Loop(ed: Editor, keys: seq<Key>): (r: RunResult)
    requires ScriptDefined(ed.config.screencols, ed.config.screenrows, keys)
    requires ed.buffer == []
    ensures r.editor.buffer == []
    ensures r.Quit? ==> 1 <= r.consumed <= |keys|
    decreases |keys|
  {
    if keys == [] then InputExhausted(ed)
    else if IsQuit(keys[0]) then Quit(ProcessKeyPress(ed, keys[0]).editor, 1)
    else
      var next := Refresh(ProcessKeyPress(ed, keys[0]).editor);
      assert next.config.screencols == ed.config.screencols && next.config.screenrows == ed.config.screenrows;
      var rest := Loop(next, keys[1..]);
      if rest.Quit? then Quit(rest.editor, rest.consumed + 1) else rest
  }

  /** The loop stops exactly at the first Ctrl-q. */
  lemma {:induction false} LoopStops(ed: Editor, keys: seq<Key>)
    requires ScriptDefined(ed.config.screencols, ed.config.screenrows, keys)
    requires ed.buffer == []
    ensures Loop(ed, keys).Quit? ==> FirstQuitAt(keys, Loop(ed, keys).consumed)
    decreases |keys|
  {
    var r := Loop(ed, keys);
    if keys == [] {
    } else if IsQuit(keys[0]) {
      assert r.Quit? && r.consumed == 1;
      assert FirstQuitAt(keys, 1);
    } else {
      var next := Refresh(ProcessKeyPress(ed, keys[0]).editor);
      var rest := Loop(next, keys[1..]);
      assert r.Quit? == rest.Quit?;
      LoopStops(next, keys[1..]);
      if rest.Quit? {
        assert r.consumed == rest.consumed + 1;
        QuitShift(keys, rest.consumed);
      }
    }
  }

  /** The loop runs out of input exactly when the script holds no Ctrl-q. */
  lemma {:induction false} LoopExhausts(ed: Editor, keys: seq<Key>)
    requires ScriptDefined(ed.config.screencols, ed.config.screenrows, keys)
    requires ed.buffer == []
    ensures Loop(ed, keys).InputExhausted? <==> forall i :: 0 <= i < |keys| ==> !IsQuit(keys[i])
    decreases |keys|
  {
    var r := Loop(ed, keys);
    if keys == [] {
    } else if IsQuit(keys[0]) {
      assert r.Quit?;
    } else {
      var next := Refresh(ProcessKeyPress(ed, keys[0]).editor);
      var rest := Loop(next, keys[1..]);
      assert r.InputExhausted? == rest.InputExhausted?;
      LoopExhausts(next, keys[1..]);
      NoQuitShift(keys);
    }
  }

  /** The loop leaves the cursor where replaying the keys alone puts it. */
  lemma {:induction false} LoopReplays(ed: Editor, keys: seq<Key>)
    requires ScriptDefined(ed.config.screencols, ed.config.screenrows, keys)
    requires ed.buffer == []
    ensures Loop(ed, keys).editor.config == Replay(ed.config, keys)
    decreases |keys|
  {
    if keys != [] && !IsQuit(keys[0]) {
      var s := ProcessKeyPress(ed, keys[0]);
      assert s.editor.config == MoveCursor(ed.config, keys[0]);
      LoopReplays(Refresh(s.editor), keys[1..]);
    }
  }

  /** Writing one frame and then later ones is writing all of them. */
  lemma AppendStep(out: seq<Token>, frame: seq<Token>, later: seq<Token>, tail: seq<Token>,
                   total: seq<Token>, frames: seq<Token>)
    requires total == out + frame + later + tail && frames == frame + later
    ensures total == out + frames + tail
  {
  }

  /** The loop writes the redraws for the keys it processes, then the quit
      sequence if it stops at a Ctrl-q. */
  lemma {:induction false} LoopRedraws(ed: Editor, keys: seq<Key>)
    requires ScriptDefined(ed.config.screencols, ed.config.screenrows, keys)
    requires ed.buffer == []
    ensures var r := Loop(ed, keys);
      r.editor.out == ed.out + Redraws(ed.config, keys) + (if r.Quit? then [ClearAll, Goto(1, 1)] else [])
    decreases |keys|
  {
    if keys == [] {
      assert ed.out + [] + [] == ed.out;
    } else {
      var s := ProcessKeyPress(ed, keys[0]);
      if IsQuit(keys[0]) {
        assert Loop(ed, keys) == Quit(s.editor, 1);
        assert ed.out + [] == ed.out;
      } else {
        var next := Refresh(s.editor);
        var rest := Loop(next, keys[1..]);
        assert Loop(ed, keys).editor == rest.editor && Loop(ed, keys).Quit? == rest.Quit?;
        var frame := RefreshScreen(MoveCursor(ed.config, keys[0]));
        assert next.out == ed.out + frame by {
          assert s.editor.config == MoveCursor(ed.config, keys[0]);
          assert s.editor.out == ed.out && s.editor.buffer == [];
          assert ed.out + [] == ed.out;
        }
        LoopRedraws(next, keys[1..]);
        var later := Redraws(next.config, keys[1..]);
        var tail := if rest.Quit? then [ClearAll, Goto(1, 1)] else [];
        assert Redraws(ed.config, keys) == frame + later;
        AppendStep(ed.out, frame, later, tail, rest.editor.out, Redraws(ed.config, keys));
      }
    }
  }

  /** The loop draws one frame for each key before the Ctrl-q, or one for
      each key when the script runs out. */
  lemma {:induction false} LoopFrames(ed: Editor, keys: seq<Key>)
    requires ScriptDefined(ed.config.screencols, ed.config.screenrows, keys)
    requires ed.buffer == []
    ensures var r := Loop(ed, keys);
      Count(ShowCursor, r.editor.out) == Count(ShowCursor, ed.out) + (if r.Quit? then r.consumed - 1 else |keys|)
    decreases |keys|
  {
    if keys != [] {
      var s := ProcessKeyPress(ed, keys[0]);
      if IsQuit(keys[0]) {
        assert Loop(ed, keys) == Quit(s.editor, 1);
        assert s.editor.out == ed.out + [ClearAll, Goto(1, 1)];
        CountConcat(ShowCursor, ed.out, [ClearAll, Goto(1, 1)]);
        CountPair(ShowCursor, ClearAll, Goto(1, 1));
      } else {
        var next := Refresh(s.editor);
        var rest := Loop(next, keys[1..]);
        assert Loop(ed, keys).editor == rest.editor && Loop(ed, keys).Quit? == rest.Quit?;
        assert rest.Quit? ==> Loop(ed, keys).consumed == rest.consumed + 1;
        assert Count(ShowCursor, next.out) == Count(ShowCursor, ed.out) + 1 by {
          assert s.editor.out + s.editor.buffer == ed.out;
        }
        LoopFrames(next, keys[1..]);
      }
    }
  }

  /** The session: draw the first frame, then loop over the scripted keys. */
  function Run(ed: Editor, keys: seq<Key>): (r: RunResult)
    requires ScriptDefined(ed.config.screencols, ed.config.screenrows, keys)
    ensures r.Quit? ==> FirstQuitAt(keys, r.consumed)
    ensures r.InputExhausted? <==> forall i :: 0 <= i < |keys| ==> !IsQuit(keys[i])
    ensures r.editor.config == Replay(ed.config, keys)
    ensures OnScreen(ed.config) ==> OnScreen(r.editor.config)
    ensures r.editor.buffer == []
    ensures r.editor.out == ed.out + ed.buffer +
      Frames(ed.config, keys, 0, if r.Quit? then r.consumed else |keys| + 1) +
      (if r.Quit? then [ClearAll, Goto(1, 1)] else [])
    ensures Count(ShowCursor, r.editor.out) ==
      Count(ShowCursor, ed.out + ed.buffer) + (if r.Quit? then r.consumed else |keys| + 1)
  {
    var first := Refresh(ed);
    var r := Loop(first, keys);
    LoopStops(first, keys);
    LoopExhausts(first, keys);
    assert r.editor.config == Replay(ed.config, keys) by {
      LoopReplays(first, keys);
    }
    var k := if r.Quit? then r.consumed else |keys| + 1;
    var tail := if r.Quit? then [ClearAll, Goto(1, 1)] else [];
    assert r.editor.out == ed.out + ed.buffer + Frames(ed.config, keys, 0, k) + tail by {
      LoopRedraws(first, keys);
      RedrawsFrames(ed.config, keys, k);
      AppendStep(ed.out + ed.buffer, RefreshScreen(ed.config), Redraws(ed.config, keys), tail,
                 r.editor.out, Frames(ed.config, keys, 0, k));
    }
    assert Count(ShowCursor, r.editor.out) == Count(ShowCursor, ed.out + ed.buffer) + k by {
      CountConcat(ShowCursor, ed.out + ed.buffer, Frames(ed.config, keys, 0, k));
      CountConcat(ShowCursor, ed.out + ed.buffer + Frames(ed.config, keys, 0, k), tail);
      CountPair(ShowCursor, ClearAll, Goto(1, 1));
    }
    r
  }
}

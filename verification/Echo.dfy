/** The line being typed on the displayed terminal together with its echo on the screen. */
module Echo {
  import opened Common
  import opened LineEditor
  import opened Keyboard
  import Screen
  import Console

  /** The line typed so far, and the screen. */
  datatype Desk = Desk(typed: seq<byte>, shown: Screen.Shown)

  /** A key, the screen cleared by a key or a program, or a character printed by a program. */
  datatype Event = Key(k: LineEditor.Key) | Clear | Output(c: byte)

  /** What a pressed key is: Ctrl-L clears the screen. */
  function EventOf(key: byte, isBackspace: bool, ctrl: bool): Event
  {
    if ctrl && (key == 76 || key == 108) then Clear else Key(KeyOf(key, isBackspace))
  }

  /** Ctrl with L (76) or l (108) clears the screen; every other key goes to the line. */
  lemma EventsByCode(key: byte, isBackspace: bool, ctrl: bool)
    ensures EventOf(key, isBackspace, ctrl) == Clear <==> ctrl && (key == 76 || key == 108)
    ensures !(ctrl && (key == 76 || key == 108)) ==>
      EventOf(key, isBackspace, ctrl) == Key(
        if isBackspace then Backspace
        else if key == 10 then Enter
        else if 32 <= key <= 126 then Char(key)
        else Ignored)
  {
  }

  /**
   The cursor is on the screen, or above it by at most the number of characters that a full line of
   127 has more than the line on the terminal.
   */
  ghost predicate Reach(d: Desk)
  {
    Screen.Near(d.shown) && |d.typed| <= LIMIT && Screen.At(d.shown) >= |d.typed| - LIMIT
  }

  /** The line keeps its characters when the screen is cleared. */
  function Step(d: Desk, e: Event): Desk
    requires Screen.Near(d.shown)
  {
    match e
    case Clear => d.(shown := Screen.Cleared())
    case Output(c) => d.(shown := Screen.Typed(d.shown, c))
    case Key(k) => Desk(Pressed(Line(d.typed, []), k).typed, Echoed(d, k))
  }

  /** The screen after a key: what the line accepts is shown, and what it gives up is erased. */
  function Echoed(d: Desk, k: LineEditor.Key): Screen.Shown
    requires Screen.Near(d.shown)
  {
    match k
    case Char(c) => if |d.typed| >= LIMIT then d.shown else Screen.Typed(d.shown, c)
    case Backspace => if d.typed == [] then d.shown else Screen.Erased(d.shown)
    case Enter => Screen.Typed(d.shown, NEWLINE)
    case Ignored => d.shown
  }

  /** A printed character moves the cursor on, or leaves it in the last row. */
  lemma TypedMovesOn(s: Screen.Shown, c: byte)
    requires Screen.Near(s)
    ensures Screen.At(Screen.Typed(s, c)) >= Min(Screen.At(s) + 1, Screen.CELLS - Screen.COLS)
  {
  }

  lemma StepReaches(d: Desk, e: Event)
    requires Reach(d)
    ensures Reach(Step(d, e))
  {
    match e
    case Clear =>
    case Output(c) => TypedMovesOn(d.shown, c);
    case Key(k) =>
      match k
      case Char(c) => TypedMovesOn(d.shown, c);
      case Enter => TypedMovesOn(d.shown, NEWLINE);
      case Backspace => Screen.ErasedAt(d.shown);
      case Ignored =>
  }

  /**
   Whatever is typed, printed and cleared, the cursor never gets further than 127 cells above the
   screen, so that no byte further than 254 in front of it is ever written.
   */
  ghost function Run(d: Desk, events: seq<Event>): (r: Desk)
    requires Reach(d)
    ensures Reach(r) && 0 <= Screen.At(r.shown) + LIMIT < Screen.CELLS + LIMIT
    decreases |events|
  {
    if events == [] then d
    else
      StepReaches(d, events[0]);
      Run(Step(d, events[0]), events[1..])
  }

  /** Shows a key: `room` says whether the line could take a character, `some` whether it had one. */
  method ShowKey(v: Console.Video, key: byte, isBackspace: bool, room: bool, some: bool, ghost typed: seq<byte>)
    requires v.IsVideo() && Reach(Desk(typed, v.View(v.terminalId)))
    requires isBackspace ==> !(32 <= key <= 126) && key != NEWLINE
    requires room == (|typed| < LIMIT) && some == (typed != [])
    modifies v.memory, v`screenX, v`screenY
    ensures v.IsVideo()
    ensures var t := v.terminalId;
      v.Views() == old(v.Views())[t := Echoed(Desk(typed, old(v.View(t))), KeyOf(key, isBackspace))]
  {
    ghost var views, t := v.Views(), v.terminalId;
    assert views[t] == v.View(t);
    if !isBackspace && 32 <= key <= 126 && room {
      v.Putc(key, 1);
    }
    if isBackspace && some {
      v.Backspace();
    }
    if key == NEWLINE {
      v.Putc(key, 1);
    }
    assert views[t := views[t]] == views;
  }

  /** A key other than Ctrl-L. */
  method PressAndShow(b: Buffers, v: Console.Video, key: byte, isBackspace: bool)
    requires b.Valid() && v.IsVideo() && b.terminalId == v.terminalId
    requires Reach(Desk(b.LineAt(b.terminalId).typed, v.View(v.terminalId)))
    requires isBackspace ==> !(32 <= key <= 126) && key != NEWLINE
    requires v.memory as object != b.keys && v.memory as object != b.output
    modifies b.keys, b.output, b`size, b`readReady, v.memory, v`screenX, v`screenY
    ensures b.Valid() && v.IsVideo()
    ensures var t := b.terminalId;
      v.Views() ==
        old(v.Views())[t := Echoed(Desk(old(b.LineAt(t)).typed, old(v.View(t))), KeyOf(key, isBackspace))]
    ensures var t := b.terminalId;
      b.AllLines() == old(b.AllLines())[t := Pressed(old(b.LineAt(t)), KeyOf(key, isBackspace))]
  {
    hide Reach, Echoed, Pressed, IsLine, LineEditor.Step, Buffers.Machine;
    ghost var line := b.LineAt(b.terminalId);
    assert line.typed == b.KeyColumn(b.terminalId)[..b.size[b.terminalId]];
    var room, some := b.size[b.terminalId] < LIMIT, b.size[b.terminalId] > 0;
    b.HandleKey(key, isBackspace);
    ShowKey(v, key, isBackspace, room, some, line.typed);
  }

  /** The handler with its echo, for a key that is pressed. */
  method PressKey(b: Buffers, v: Console.Video, key: byte, isBackspace: bool, ctrl: bool)
    requires b.Valid() && v.IsVideo() && b.terminalId == v.terminalId
    requires Reach(Desk(b.LineAt(b.terminalId).typed, v.View(v.terminalId)))
    requires isBackspace ==> !(32 <= key <= 126) && key != NEWLINE
    requires v.memory as object != b.keys && v.memory as object != b.output
    modifies b.keys, b.output, b`size, b`readReady, v.memory, v`screenX, v`screenY
    ensures b.Valid() && v.IsVideo()
    ensures var t, e := b.terminalId, EventOf(key, isBackspace, ctrl);
      v.Views() == old(v.Views())[t := Step(Desk(old(b.LineAt(t)).typed, old(v.View(t))), e).shown]
    ensures var t, e := b.terminalId, EventOf(key, isBackspace, ctrl);
      b.AllLines() == if e.Clear? then old(b.AllLines()) else old(b.AllLines())[t := Pressed(old(b.LineAt(t)), e.k)]
  {
    if ctrl && (key == 76 || key == 108) {
      v.Clear();
      SameLines(b);
    } else {
      hide Echoed, IsLine;
      PressAndShow(b, v, key, isBackspace);
    }
  }

  twostate lemma SameLines(b: Buffers)
    requires old(b.IsBuffers()) && unchanged(b.keys) && unchanged(b.output) && b.size == old(b.size) &&
      b.terminalId == old(b.terminalId)
    ensures b.IsBuffers() && b.AllLines() == old(b.AllLines()) && (old(b.Valid()) ==> b.Valid())
  {
    b.Untouched();
  }

  // ---------- the line on a cleared screen ----------

  /** The line `t` at the top of a cleared screen, with the cursor behind it. */
  function LineShown(t: seq<byte>): Desk
    requires |t| <= LIMIT
  {
    Desk(t, Screen.Shown(t + Screen.Blanks(Screen.CELLS - |t|), Screen.Plain(Screen.CELLS), |t| % 80, |t| / 80))
  }

  /** A key that edits the line. */
  predicate Edits(k: LineEditor.Key)
  {
    k == Backspace || k == Ignored || (k.Char? && 32 <= k.c <= 126)
  }

  lemma CharShown(t: seq<byte>, c: byte)
    requires |t| < LIMIT && 32 <= c <= 126
    ensures Screen.Typed(LineShown(t).shown, c) == LineShown(t + [c]).shown
  {
    Screen.GlyphTyped(LineShown(t).shown, c);
    hide Screen.Typed;
    assert (t + Screen.Blanks(Screen.CELLS - |t|))[|t| := c] == (t + [c]) + Screen.Blanks(Screen.CELLS - |t| - 1);
    assert Screen.Plain(Screen.CELLS)[|t| := 7] == Screen.Plain(Screen.CELLS);
  }

  lemma EraseShown(t: seq<byte>)
    requires 0 < |t| <= LIMIT
    ensures Screen.Erased(LineShown(t).shown) == LineShown(t[..|t| - 1]).shown
  {
    var n := |t| - 1;
    Screen.CellErased(LineShown(t).shown);
    hide Screen.Erased;
    assert (t + Screen.Blanks(Screen.CELLS - |t|))[n := 32] == t[..n] + Screen.Blanks(Screen.CELLS - n);
    assert Screen.Plain(Screen.CELLS)[n := 7] == Screen.Plain(Screen.CELLS);
  }

  lemma EditShown(t: seq<byte>, k: LineEditor.Key)
    requires |t| <= LIMIT && Edits(k)
    ensures |Pressed(Line(t, []), k).typed| <= LIMIT
    ensures Step(LineShown(t), Key(k)) == LineShown(Pressed(Line(t, []), k).typed)
  {
    hide Screen.Typed, Screen.Erased;
    match k
    case Ignored =>
    case Char(c) => if |t| < LIMIT { CharShown(t, c); }
    case Backspace => if t != [] { EraseShown(t); }
  }

  function KeyEvents(keys: seq<LineEditor.Key>): seq<Event>
  {
    seq(|keys|, i requires 0 <= i < |keys| => Key(keys[i]))
  }

  /** Whatever is typed and taken back, the screen shows exactly the line, and the cursor is behind it. */
  lemma {:induction false} ScreenShowsLine(t: seq<byte>, keys: seq<LineEditor.Key>)
    requires |t| <= LIMIT && forall k :: k in keys ==> Edits(k)
    ensures |Edited(t, keys)| <= LIMIT
    ensures Run(LineShown(t), KeyEvents(keys)) == LineShown(Edited(t, keys))
    decreases |keys|
  {
    if keys != [] {
      assert Edits(keys[0]);
      EditShown(t, keys[0]);
      assert KeyEvents(keys)[1..] == KeyEvents(keys[1..]);
      ScreenShowsLine(Pressed(Line(t, []), keys[0]).typed, keys[1..]);
    }
  }

  /** `Enter` leaves the line on the screen and goes to the start of the next row. */
  lemma EnterShown(t: seq<byte>)
    requires |t| <= 127
    ensures Step(LineShown(t), Key(Enter)) == Desk([], LineShown(t).shown.(x := 0, y := if |t| < 80 then 1 else 2))
  {
    Screen.LineEndTyped(LineShown(t).shown, 10);
  }

  // ---------- the cursor ----------

  /** The cursor never leaves the screen during the run. */
  ghost predicate Safe(d: Desk, events: seq<Event>)
    requires Reach(d)
    decreases |events|
  {
    Screen.InRange(d.shown) &&
    (events == [] ||
      (StepReaches(d, events[0]);
       Safe(Step(d, events[0]), events[1..])))
  }

  /** Backspace on all characters of the line leads at most to the top left corner. */
  ghost predicate Fits(d: Desk)
  {
    Screen.InRange(d.shown) && |d.typed| <= LIMIT && |d.typed| <= Screen.At(d.shown)
  }

  /** Every event keeps this, except that the screen may only be cleared while the line is empty. */
  lemma StepFits(d: Desk, e: Event)
    requires Fits(d)
    ensures Fits(Step(d, e)) <==> (e.Clear? ==> d.typed == [])
  {
    match e
    case Clear =>
    case Output(c) => TypedMovesOn(d.shown, c);
    case Key(k) =>
      match k
      case Char(c) => TypedMovesOn(d.shown, c);
      case Enter => TypedMovesOn(d.shown, NEWLINE);
      case Backspace => Screen.ErasedAt(d.shown);
      case Ignored =>
  }

  ghost predicate NoClear(events: seq<Event>)
  {
    forall e :: e in events ==> !e.Clear?
  }

  lemma {:induction false} FittingRunsAreSafe(d: Desk, events: seq<Event>)
    requires Fits(d) && NoClear(events)
    ensures Safe(d, events)
    decreases |events|
  {
    if events != [] {
      StepFits(d, events[0]);
      FittingRunsAreSafe(Step(d, events[0]), events[1..]);
    }
  }

  function Backspaces(n: nat): seq<Event>
  {
    seq(n, _ => Key(Backspace))
  }

  lemma {:induction false} BackspacesLeave(d: Desk)
    requires Screen.InRange(d.shown) && LIMIT >= |d.typed| > Screen.At(d.shown)
    ensures !Safe(d, Backspaces(Screen.At(d.shown) + 1))
    decreases Screen.At(d.shown)
  {
    var e := Step(d, Key(Backspace));
    StepReaches(d, Key(Backspace));
    Screen.ErasedAt(d.shown);
    assert Backspaces(Screen.At(d.shown) + 1)[1..] == Backspaces(Screen.At(d.shown));
    if Screen.At(d.shown) > 0 {
      BackspacesLeave(e);
    }
  }

  /**
   The cursor stays in columns 0 to 79 and rows 0 to 24 whatever is typed and printed next, the screen
   not being cleared, if and only if the line on the terminal is not longer than the way to the corner.
   */
  lemma CursorStaysExactly(d: Desk)
    requires Screen.InRange(d.shown) && |d.typed| <= LIMIT
    ensures (forall events :: NoClear(events) ==> Safe(d, events)) <==> |d.typed| <= Screen.At(d.shown)
  {
    if |d.typed| <= Screen.At(d.shown) {
      forall events | NoClear(events) ensures Safe(d, events) {
        FittingRunsAreSafe(d, events);
      }
    } else {
      BackspacesLeave(d);
      assert NoClear(Backspaces(Screen.At(d.shown) + 1));
    }
  }

  /** Clearing the screen is harmless for what follows if and only if no line is being typed. */
  lemma ClearIsSafeExactly(d: Desk)
    requires Fits(d)
    ensures Reach(Step(d, Clear))
    ensures (forall events :: NoClear(events) ==> Safe(Step(d, Clear), events)) <==> d.typed == []
  {
    CursorStaysExactly(Step(d, Clear));
  }

  /** A character, Ctrl-L and backspace on an empty line: the cursor is above the screen. */
  lemma BackspaceAfterClear(d: Desk, c: byte)
    requires Fits(d) && d.typed == [] && 32 <= c <= 126
    ensures var r := Step(Step(Step(d, EventOf(c, false, false)), EventOf(76, false, true)), EventOf(8, true, false));
      r.typed == [] && r.shown.x == Screen.COLS - 1 && r.shown.y == -1
  {
  }

  /** The bound is met: a full line, the screen cleared, and backspace 127 times. */
  lemma {:induction false} BackspaceAll(d: Desk)
    requires Reach(d)
    ensures var r := Run(d, Backspaces(|d.typed|));
      r.typed == [] && Screen.At(r.shown) == Screen.At(d.shown) - |d.typed|
    decreases |d.typed|
  {
    if d.typed == [] {
      assert Backspaces(0) == [];
    } else {
      var e := Step(d, Key(Backspace));
      StepReaches(d, Key(Backspace));
      Screen.ErasedAt(d.shown);
      BackspaceAll(e);
      assert Backspaces(|d.typed|)[1..] == Backspaces(|e.typed|);
    }
  }

  lemma FarthestAbove(d: Desk)
    requires Reach(d) && |d.typed| == LIMIT
    ensures Screen.At(Run(d, [Clear] + Backspaces(LIMIT)).shown) + LIMIT == 0
  {
    StepReaches(d, Clear);
    BackspaceAll(Step(d, Clear));
    assert ([Clear] + Backspaces(LIMIT))[1..] == Backspaces(LIMIT);
  }
}

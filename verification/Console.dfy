/** The video memory of the kernel and the routines that write it. */
module Console {
  import opened Common
  import opened Screen

  // The bytes in front of video memory that a cursor above the screen can make the kernel write.
  const FRONT: nat := 2 * ABOVE * COLS

  /** The place in memory of the character of cell `i`; its attribute follows it. */
  function Address(t: nat, i: int): int
  {
    FRONT + PAGE * t + 2 * i
  }

  /** Every cell has its own two bytes: those of different cells, on whatever screens, do not overlap. */
  lemma CellsApart(t: nat, row: nat, col: nat, t': nat, row': nat, col': nat)
    requires t < 3 && t' < 3 && row < 25 && row' < 25 && col < 80 && col' < 80
    ensures Address(t, 80 * row + col) == Address(0, 0) + 0x2000 * t + 160 * row + 2 * col
    ensures (t, row, col) != (t', row', col') ==>
      var a, b := Address(t, 80 * row + col), Address(t', 80 * row' + col'); a + 2 <= b || b + 2 <= a
  {
    if t == t' && row == row' {
      assert col != col' ==> col < col' || col' < col;
    } else if t == t' {
      assert row < row' || row' < row;
    }
  }

  ghost predicate IsMemory(m: seq<byte>)
  {
    |m| == FRONT + TERMINALS * PAGE
  }

  function Characters(m: seq<byte>, t: nat): seq<byte>
    requires IsMemory(m) && t < TERMINALS
  {
    seq(CELLS, i requires 0 <= i < CELLS => m[Address(t, i)])
  }

  function Attributes(m: seq<byte>, t: nat): seq<byte>
    requires IsMemory(m) && t < TERMINALS
  {
    seq(CELLS, i requires 0 <= i < CELLS => m[Address(t, i) + 1])
  }

  /** Screen `t` of `r` holds these cells, and the other screens are those of `m`. */
  ghost predicate Written(m: seq<byte>, r: seq<byte>, t: nat, characters: seq<byte>, attributes: seq<byte>)
  {
    && IsMemory(m) && IsMemory(r) && t < TERMINALS
    && Characters(r, t) == characters && Attributes(r, t) == attributes
    && forall u :: 0 <= u < TERMINALS && u != t ==>
      Characters(r, u) == Characters(m, u) && Attributes(r, u) == Attributes(m, u)
  }

  /** Writing a cell changes that character and that attribute and nothing else on any screen. */
  lemma CellWritten(m: seq<byte>, r: seq<byte>, t: nat, i: nat, c: byte)
    requires IsMemory(m) && t < TERMINALS && i < CELLS
    requires r == m[Address(t, i) := c][Address(t, i) + 1 := ATTRIB]
    ensures Written(m, r, t, Characters(m, t)[i := c], Attributes(m, t)[i := ATTRIB])
  {
  }

  /** The same write in front of the first cell of a screen changes no cell of any screen. */
  lemma StrayWrite(m: seq<byte>, r: seq<byte>, t: nat, i: int, c: byte)
    requires IsMemory(m) && t < TERMINALS && -ABOVE * COLS <= i < 0
    requires r == m[Address(t, i) := c][Address(t, i) + 1 := ATTRIB]
    ensures Written(m, r, t, Characters(m, t), Attributes(m, t))
  {
  }

  lemma BlankOne(c: seq<byte>, a: seq<byte>, i: nat)
    requires |c| == |a| == CELLS && i < CELLS
    ensures (Blanks(i) + c[i..])[i := BLANK] == Blanks(i + 1) + c[i + 1..]
    ensures (Plain(i) + a[i..])[i := ATTRIB] == Plain(i + 1) + a[i + 1..]
  {
  }

  lemma BlankFrom(c: seq<byte>, a: seq<byte>, n: nat, i: nat)
    requires |c| == |a| == CELLS && n <= i < CELLS
    ensures (c[..n] + Blanks(i - n) + c[i..])[i := BLANK] == c[..n] + Blanks(i + 1 - n) + c[i + 1..]
    ensures (a[..n] + Plain(i - n) + a[i..])[i := ATTRIB] == a[..n] + Plain(i + 1 - n) + a[i + 1..]
  {
  }

  lemma ShiftOne(c: seq<byte>, a: seq<byte>, i: nat)
    requires |c| == |a| == CELLS && i < CELLS - COLS
    ensures (c[COLS..COLS + i] + c[i..])[i := c[i + COLS]] == c[COLS..COLS + (i + 1)] + c[i + 1..]
    ensures (Plain(i) + a[i..])[i := ATTRIB] == Plain(i + 1) + a[i + 1..]
  {
  }

  class Video {
    const memory: array<byte>
    var screenX: seq<int>
    var screenY: seq<int>
    var terminalId: nat          // the terminal that is displayed
    var currentTerminal: nat     // the terminal whose process runs

    ghost predicate IsVideo()
      reads this
    {
      && memory.Length == FRONT + TERMINALS * PAGE
      && |screenX| == |screenY| == TERMINALS
      && terminalId < TERMINALS && currentTerminal < TERMINALS
    }

    /** The screen of terminal `t` as it is in memory. */
    ghost function View(t: nat): (s: Shown)
      requires IsVideo() && t < TERMINALS
      reads this, memory
    {
      Shown(Characters(memory[..], t), Attributes(memory[..], t), screenX[t], screenY[t])
    }

    /** All three screens. */
    ghost function Views(): (v: seq<Shown>)
      requires IsVideo()
      reads this, memory
      ensures |v| == TERMINALS
    {
      [View(0), View(1), View(2)]
    }

    constructor ()
      ensures IsVideo() && fresh(memory)
      ensures screenX == screenY == [0, 0, 0]
    {
      memory := new byte[FRONT + TERMINALS * PAGE];
      screenX, screenY := [0, 0, 0], [0, 0, 0];
      terminalId, currentTerminal := 0, 0;
    }

    /** Which terminal the last argument of the printing routines selects. */
    function Selected(runningTerminal: int): nat
      reads this
    {
      if runningTerminal == 0 then currentTerminal else terminalId
    }

    method SetCell(t: nat, i: nat, c: byte)
      requires IsVideo() && t < TERMINALS && i < CELLS
      modifies memory
      ensures Written(old(memory[..]), memory[..], t,
                      old(Characters(memory[..], t))[i := c], old(Attributes(memory[..], t))[i := ATTRIB])
    {
      ghost var m := memory[..];
      memory[Address(t, i)] := c;
      memory[Address(t, i) + 1] := ATTRIB;
      CellWritten(m, memory[..], t, i, c);
    }

    method SetCursor(t: nat, x: int, y: int)
      requires IsVideo() && t < TERMINALS
      modifies this`screenX, this`screenY
      ensures IsVideo() && screenX[t] == x && screenY[t] == y
      ensures Views() == old(Views())[t := old(Views())[t].(x := x, y := y)]
    {
      screenX := screenX[t := x];
      screenY := screenY[t := y];
    }

    /** Writes a cell, or two bytes in front of the first cell. */
    method WriteAt(t: nat, i: int, c: byte)
      requires IsVideo() && t < TERMINALS && -ABOVE * COLS <= i < CELLS
      modifies memory
      ensures IsVideo()
      ensures memory[..] == old(memory[..])[Address(t, i) := c][Address(t, i) + 1 := ATTRIB]
      ensures var s := old(Views())[t];
        Views() == old(Views())[t :=
          if i < 0 then s else s.(cells := s.cells[i := c], attributes := s.attributes[i := ATTRIB])]
    {
      ghost var m := memory[..];
      memory[Address(t, i)] := c;
      memory[Address(t, i) + 1] := ATTRIB;
      if i < 0 {
        StrayWrite(m, memory[..], t, i, c);
      } else {
        CellWritten(m, memory[..], t, i, c);
      }
    }

    /** Blanks the displayed screen and moves its cursor to the top left corner. */
    method Clear()
      requires IsVideo()
      modifies memory, this`screenX, this`screenY
      ensures IsVideo()
      ensures Views() == old(Views())[terminalId := Cleared()]
      ensures old(Valid(Views())) ==> Views() == Step(old(Views()), Event.Clear(terminalId))
    {
      ghost var m, t := memory[..], terminalId;
      ghost var c, a := Characters(m, t), Attributes(m, t);
      assert Blanks(0) + c[0..] == c && Plain(0) + a[0..] == a;
      for i := 0 to ROWS * COLS
        invariant screenX == old(screenX) && screenY == old(screenY)
        invariant Written(m, memory[..], t, Blanks(i) + c[i..], Plain(i) + a[i..])
      {
        SetCell(terminalId, i, BLANK);
        BlankOne(c, a, i);
      }
      assert Blanks(CELLS) + c[CELLS..] == Blanks(CELLS) && Plain(CELLS) + a[CELLS..] == Plain(CELLS);
      SetCursor(terminalId, 0, 0);
    }

    /** Copies every row of a screen to the one above it. */
    method ShiftRows(t: nat)
      requires IsVideo() && t < TERMINALS
      modifies memory
      ensures var c, a := old(Characters(memory[..], t)), old(Attributes(memory[..], t));
        Written(old(memory[..]), memory[..], t, c[COLS..] + c[CELLS - COLS..], Plain(CELLS - COLS) + a[CELLS - COLS..])
    {
      ghost var m := memory[..];
      ghost var c, a := Characters(m, t), Attributes(m, t);
      assert c[COLS..COLS + 0] + c[0..] == c && Plain(0) + a[0..] == a;
      for i := 0 to (ROWS - 1) * COLS
        invariant Written(m, memory[..], t, c[COLS..COLS + i] + c[i..], Plain(i) + a[i..])
      {
        var below := memory[Address(t, i + COLS)];
        assert below == Characters(memory[..], t)[i + COLS] == c[i + COLS];
        SetCell(t, i, below);
        ShiftOne(c, a, i);
      }
      assert c[COLS..COLS + (CELLS - COLS)] == c[COLS..];
    }

    /** Blanks the last row of a screen. */
    method BlankLastRow(t: nat)
      requires IsVideo() && t < TERMINALS
      modifies memory
      ensures var c, a := old(Characters(memory[..], t)), old(Attributes(memory[..], t));
        Written(old(memory[..]), memory[..], t, c[..CELLS - COLS] + Blanks(COLS), a[..CELLS - COLS] + Plain(COLS))
    {
      ghost var m := memory[..];
      ghost var c, a := Characters(m, t), Attributes(m, t);
      ghost var n := CELLS - COLS;
      assert c[..n] + Blanks(0) + c[n..] == c && a[..n] + Plain(0) + a[n..] == a;
      for i := (ROWS - 1) * COLS to ROWS * COLS
        invariant Written(m, memory[..], t, c[..n] + Blanks(i - n) + c[i..], a[..n] + Plain(i - n) + a[i..])
      {
        SetCell(t, i, BLANK);
        BlankFrom(c, a, n, i);
      }
      assert c[CELLS..] == [] && a[CELLS..] == [];
    }

    /** Moves the rows of a screen up by one. */
    method ScrollScreen(runningTerminal: int)
      requires IsVideo()
      modifies memory, this`screenX, this`screenY
      ensures IsVideo()
      ensures Views() == old(Views())[Selected(runningTerminal) := Scrolled(old(View(Selected(runningTerminal))))]
    {
      var t := Selected(runningTerminal);
      ghost var c, a := Characters(memory[..], t), Attributes(memory[..], t);
      ShiftRows(t);
      BlankLastRow(t);
      assert (c[COLS..] + c[CELLS - COLS..])[..CELLS - COLS] + Blanks(COLS) == c[COLS..] + Blanks(COLS);
      assert (Plain(CELLS - COLS) + a[CELLS - COLS..])[..CELLS - COLS] + Plain(COLS) == Plain(CELLS);
      SetCursor(t, screenX[t], screenY[t] - 1);
    }

    /** Moves the cursor to the next row, scrolling at the bottom. */
    method PrintNewLine(runningTerminal: int)
      requires IsVideo()
      modifies memory, this`screenX, this`screenY
      ensures IsVideo()
      ensures Views() == old(Views())[Selected(runningTerminal) := NextRow(old(View(Selected(runningTerminal))))]
      ensures old(screenY[Selected(runningTerminal)]) + 1 != ROWS ==> memory[..] == old(memory[..])
    {
      var t := Selected(runningTerminal);
      SetCursor(t, screenX[t], screenY[t] + 1);
      if screenY[t] == ROWS {
        ScrollScreen(runningTerminal);
      }
    }

    /** Moves the cursor one cell on. */
    method Advance(runningTerminal: int)
      requires IsVideo() && Near(View(Selected(runningTerminal)))
      modifies memory, this`screenX, this`screenY
      ensures IsVideo()
      ensures Views() == old(Views())[Selected(runningTerminal) := Advanced(old(View(Selected(runningTerminal))))]
      ensures old(At(View(Selected(runningTerminal)))) < 0 ==> memory[..] == old(memory[..])
    {
      var t := Selected(runningTerminal);
      ghost var v, s := Views(), View(t);
      SetCursor(t, screenX[t] + 1, screenY[t]);
      Wrap(runningTerminal);
      ghost var d := s.(x := s.x + 1);
      ghost var e := if d.x == COLS then NextRow(d) else d;
      assert Views() == v[t := e] && View(t) == Views()[t];
      hide View;
      var x := Rem(screenX[t], COLS);
      SetCursor(t, x, Rem(screenY[t] + x / COLS, ROWS));
      WrappedCursor(s, e, x, screenY[t]);
    }

    method Wrap(runningTerminal: int)
      requires IsVideo()
      modifies memory, this`screenX, this`screenY
      ensures IsVideo()
      ensures var t, s := Selected(runningTerminal), old(View(Selected(runningTerminal)));
        && Views() == old(Views())[t := if s.x == COLS then NextRow(s) else s]
        && (s.x != COLS || s.y + 1 != ROWS ==> memory[..] == old(memory[..]))
    {
      if screenX[Selected(runningTerminal)] == COLS {
        PrintNewLine(runningTerminal);
      }
    }

    lemma WrappedCursor(s: Shown, e: Shown, x: int, y: int)
      requires Near(s) && x == Rem(e.x, COLS) && y == Rem(e.y + x / COLS, ROWS)
      requires var d := s.(x := s.x + 1); e == if d.x == COLS then NextRow(d) else d
      ensures e.(x := x, y := y) == Advanced(s)
    {
    }

    /** Writes a character at the cursor and advances the cursor. */
    method PutGlyph(c: byte, runningTerminal: int)
      requires IsVideo() && Near(View(Selected(runningTerminal))) && !EndsLine(c)
      modifies memory, this`screenX, this`screenY
      ensures IsVideo()
      ensures Views() == old(Views())[Selected(runningTerminal) := Typed(old(View(Selected(runningTerminal))), c)]
      ensures var t, i := Selected(runningTerminal), old(At(View(Selected(runningTerminal))));
        i < 0 ==> memory[..] == old(memory[..])[Address(t, i) := c][Address(t, i) + 1 := ATTRIB]
    {
      var t := Selected(runningTerminal);
      ghost var v, s := Views(), View(t);
      WriteAt(t, COLS * screenY[t] + screenX[t], c);
      assert Views() == v[t := Placed(s, c)] && View(t) == Views()[t];
      Advance(runningTerminal);
    }

    /** Prints a character at the cursor of the selected screen. */
    method Putc(c: byte, runningTerminal: int)
      requires IsVideo() && Near(View(Selected(runningTerminal)))
      modifies memory, this`screenX, this`screenY
      ensures IsVideo()
      ensures runningTerminal == 0 ==>
        Views() == old(Views())[currentTerminal := Typed(old(View(currentTerminal)), c)]
      ensures runningTerminal != 0 ==> Views() == old(Views())[terminalId := Typed(old(View(terminalId)), c)]
      ensures old(Valid(Views())) ==>
        Views() == Step(old(Views()), Put(if runningTerminal == 0 then currentTerminal else terminalId, c))
      ensures Views() == old(Views())[Selected(runningTerminal) := Typed(old(View(Selected(runningTerminal))), c)]
    {
      if c == NEWLINE || c == RETURN {
        var t := Selected(runningTerminal);
        PrintNewLine(runningTerminal);
        SetCursor(t, 0, screenY[t]);
      } else {
        PutGlyph(c, runningTerminal);
      }
    }

    /** Prints the characters of a string. */
    method Puts(s: seq<byte>, runningTerminal: int) returns (length: nat)
      requires IsVideo() && Near(View(Selected(runningTerminal)))
      requires 0 in s
      modifies memory, this`screenX, this`screenY
      ensures IsVideo()
      ensures length < |s| && s[length] == 0 && 0 !in s[..length]
      ensures Views() == old(Views())[Selected(runningTerminal) := TypedAll(old(View(Selected(runningTerminal))),
        s[..length])]
      ensures runningTerminal == 0 ==>
        Views() == old(Views())[currentTerminal := TypedAll(old(View(currentTerminal)), s[..length])]
      ensures runningTerminal != 0 ==>
        Views() == old(Views())[terminalId := TypedAll(old(View(terminalId)), s[..length])]
    {
      hide Typed, Characters, Attributes;
      length := 0;
      var t := Selected(runningTerminal);
      ghost var end :| 0 <= end < |s| && s[end] == 0;
      ghost var v := Views();
      while s[length] != 0
        invariant IsVideo() && Selected(runningTerminal) == t
        invariant length <= end && 0 !in s[..length]
        invariant Views() == v[t := TypedAll(v[t], s[..length])]
        decreases end - length
      {
        assert s[..length + 1] == s[..length] + [s[length]];
        assert Views()[t] == View(t);
        Putc(s[length], runningTerminal);
        length := length + 1;
      }
    }

    /** Prints `nbytes` characters of a buffer on the screen of the running terminal. */
    method TerminalWrite(buf: array?<byte>, nbytes: int) returns (result: int)
      requires IsVideo() && Near(View(Selected(0)))
      requires buf != null ==> nbytes <= buf.Length && buf as object != memory
      modifies memory, this`screenX, this`screenY
      ensures IsVideo()
      ensures buf == null || nbytes < 0 ==> result == -1 && Views() == old(Views())
      ensures buf != null && nbytes >= 0 ==>
        && result == nbytes
        && Views() == old(Views())[Selected(0) := TypedAll(old(View(Selected(0))), buf[..nbytes])]
      ensures result >= 0 ==> Views()[currentTerminal] == TypedAll(old(View(currentTerminal)), buf[..nbytes])
      ensures forall u :: 0 <= u < TERMINALS && u != currentTerminal ==> Views()[u] == old(Views())[u]
    {
      hide Typed, Characters, Attributes;
      if buf == null || nbytes < 0 {
        return -1;
      }
      var t := Selected(0);
      ghost var v := Views();
      ghost var text := buf[..];
      for i := 0 to nbytes
        invariant IsVideo() && Selected(0) == t && buf[..] == text
        invariant Views() == v[t := TypedAll(v[t], text[..i])]
      {
        assert text[..i + 1] == text[..i] + [text[i]];
        assert Views()[t] == View(t);
        Putc(buf[i], 0);
      }
      assert text[..nbytes] == buf[..nbytes];
      return nbytes;
    }

    /**
     Moves the cursor of the displayed screen back and blanks that cell. From the top left corner
     it leaves the screen, and bytes in front of the screen are written.
     */
    method Backspace()
      requires IsVideo() && Near(View(terminalId)) && At(View(terminalId)) > -ABOVE * COLS
      modifies memory, this`screenX, this`screenY
      ensures IsVideo()
      ensures Views() == old(Views())[terminalId := Erased(old(View(terminalId)))]
      ensures var a := Address(terminalId, old(At(View(terminalId))) - 1);
        memory[..] == old(memory[..])[a := BLANK][a + 1 := ATTRIB]
    {
      var t := terminalId;
      ghost var v, s := Views(), View(t);
      if screenX[t] == 0 {
        SetCursor(t, COLS - 1, screenY[t] - 1);
      } else {
        SetCursor(t, screenX[t] - 1, screenY[t]);
      }
      assert Views() == v[t := Back(s)];
      WriteAt(t, COLS * screenY[t] + screenX[t], BLANK);
    }
  }
}

/**
 The text screens of the three terminals: 25 rows of 80 cells each, every cell a character and an
 attribute, in one stretch of video memory. `Window` says what a screen shows: the bottom rows of
 a terminal that prints on endless paper.
 */
module Screen {
  import opened Common

  const COLS: nat := 80
  const ROWS: nat := 25
  const CELLS: nat := 2000
  const ABOVE: int := 2        // the rows above the screen that the cursor can reach
  const PAGE: nat := 8192      // two screens of 4096 bytes per terminal
  const BLANK: byte := 32
  const ATTRIB: byte := 7
  const RETURN: byte := 13

  /** One screen: characters and attributes row by row, and the cursor. */
  datatype Shown = Shown(cells: seq<byte>, attributes: seq<byte>, x: int, y: int)

  ghost predicate InRange(s: Shown)
  {
    |s.cells| == |s.attributes| == CELLS && 0 <= s.x < COLS && 0 <= s.y < ROWS
  }

  /** The cursor is on the screen, or in one of the two rows that would be above it. */
  ghost predicate Near(s: Shown)
  {
    |s.cells| == |s.attributes| == CELLS && 0 <= s.x < COLS && -ABOVE <= s.y < ROWS
  }

  function Blanks(n: nat): seq<byte>
  {
    seq(n, _ => BLANK)
  }

  function Plain(n: nat): seq<byte>
  {
    seq(n, _ => ATTRIB)
  }

  predicate EndsLine(c: byte)
  {
    c == NEWLINE || c == RETURN
  }

  // ---------- what the operations do to a screen ----------

  function Cleared(): Shown
  {
    Shown(Blanks(CELLS), Plain(CELLS), 0, 0)
  }

  /** The rows moved up by one; the cursor stays on its line. */
  function Scrolled(s: Shown): Shown
    requires |s.cells| == CELLS
  {
    Shown(s.cells[COLS..] + Blanks(COLS), Plain(CELLS), s.x, s.y - 1)
  }

  function NextRow(s: Shown): Shown
    requires |s.cells| == CELLS
  {
    var d := s.(y := s.y + 1);
    if d.y == ROWS then Scrolled(d) else d
  }

  function At(s: Shown): int
  {
    COLS * s.y + s.x
  }

  /** A character in the cell at the cursor. Above the screen there is no cell, and none changes. */
  function Placed(s: Shown, c: byte): Shown
    requires Near(s)
  {
    if At(s) < 0 then s
    else s.(cells := s.cells[At(s) := c], attributes := s.attributes[At(s) := ATTRIB])
  }

  /** The cursor one cell on, across the end of a row if need be. */
  function Advanced(s: Shown): (r: Shown)
    requires Near(s)
  {
    var d := s.(x := s.x + 1);
    if d.x == COLS then NextRow(d).(x := 0) else d
  }

  function Typed(s: Shown, c: byte): (r: Shown)
    requires Near(s)
    ensures Near(r) && (InRange(s) ==> InRange(r))
  {
    if EndsLine(c) then NextRow(s).(x := 0) else Advanced(Placed(s, c))
  }

  /** The cursor one cell back, across the start of a row if need be. */
  function Back(s: Shown): Shown
  {
    if s.x == 0 then s.(x := COLS - 1, y := s.y - 1) else s.(x := s.x - 1)
  }

  /** The cursor one cell back and that cell blanked, if there is one. */
  function Erased(s: Shown): Shown
    requires Near(s)
  {
    var d := Back(s);
    if At(d) < 0 then d
    else d.(cells := d.cells[At(d) := BLANK], attributes := d.attributes[At(d) := ATTRIB])
  }

  /** Erasing keeps the cursor on the screen if and only if it is not in the top left corner. */
  lemma ErasedInRange(s: Shown)
    requires InRange(s)
    ensures InRange(Erased(s)) <==> !(s.x == 0 && s.y == 0)
  {
  }

  lemma ErasedAt(s: Shown)
    requires Near(s)
    ensures At(Erased(s)) == At(s) - 1 && (At(s) > -ABOVE * COLS ==> Near(Erased(s)))
  {
  }

  // ---------- the same, by character and cell ----------

  /** What scrolling shows in row `row`: the row below, and blanks at the bottom. */
  lemma ScrolledRow(s: Shown, row: nat, col: nat)
    requires |s.cells| == 2000 && row < 25 && col < 80
    ensures |Scrolled(s).cells| == 2000
    ensures Scrolled(s).cells[80 * row + col] == if row < 24 then s.cells[80 * (row + 1) + col] else 32
  {
  }

  /** Newline (10) and carriage return (13) go to the first column of the next row, and scroll from the last one. */
  lemma LineEndTyped(s: Shown, c: byte)
    requires InRange(s) && (c == 10 || c == 13)
    ensures Typed(s, c) == if s.y < 24 then s.(x := 0, y := s.y + 1) else Scrolled(s).(x := 0, y := 24)
  {
  }

  /** Every other character is written into the cell at the cursor, which goes on to the next cell. */
  lemma GlyphTyped(s: Shown, c: byte)
    requires InRange(s) && c != 10 && c != 13
    ensures var i := 80 * s.y + s.x;
      var d := s.(cells := s.cells[i := c], attributes := s.attributes[i := 7]);
      && 0 <= i < 2000
      && Typed(s, c) ==
        if s.x < 79 then d.(x := s.x + 1)
        else if s.y < 24 then d.(x := 0, y := s.y + 1)
        else Scrolled(d).(x := 0, y := 24)
  {
  }

  /** Erasing writes a blank into the cell before the cursor, which goes there. */
  lemma CellErased(s: Shown)
    requires InRange(s) && 80 * s.y + s.x > 0
    ensures var i, r := 80 * s.y + s.x - 1, Erased(s);
      r.cells == s.cells[i := 32] && r.attributes == s.attributes[i := 7] && r.x == i % 80 && r.y == i / 80
  {
  }

  lemma ClearedCells()
    ensures var r := Cleared();
      && r.x == 0 && r.y == 0 && |r.cells| == |r.attributes| == 2000
      && forall i :: 0 <= i < 2000 ==> r.cells[i] == 32 && r.attributes[i] == 7
  {
  }

  // ---------- endless paper ----------

  type Row = r: seq<byte> | |r| == COLS witness seq(COLS, _ => 32)

  /** All rows printed so far; the print head is in column `col` of the last one. */
  datatype Paper = Paper(rows: seq<Row>, col: nat)

  ghost predicate IsPaper(p: Paper)
  {
    p.rows != [] && p.col < COLS
  }

  function FreshPaper(): Paper
  {
    Paper([Blanks(COLS)], 0)
  }

  function Fed(p: Paper, c: byte): (r: Paper)
    requires IsPaper(p)
    ensures IsPaper(r)
  {
    if EndsLine(c) then Paper(p.rows + [Blanks(COLS)], 0)
    else
      var last := |p.rows| - 1;
      var rows := p.rows[last := p.rows[last][p.col := c]];
      if p.col + 1 == COLS then Paper(rows + [Blanks(COLS)], 0) else Paper(rows, p.col + 1)
  }

  /** The first row of the paper that is still on the screen. */
  function Top(p: Paper): nat
  {
    if |p.rows| <= ROWS then 0 else |p.rows| - ROWS
  }

  function PaperAt(p: Paper, row: nat, col: nat): byte
    requires col < COLS
  {
    if row < |p.rows| then p.rows[row][col] else BLANK
  }

  /** The bottom of the paper, as a screen. */
  function Window(p: Paper): (s: Shown)
    requires IsPaper(p)
    ensures InRange(s)
  {
    Shown(seq(CELLS, i requires 0 <= i < CELLS => PaperAt(p, Top(p) + i / COLS, i % COLS)),
          Plain(CELLS), p.col, |p.rows| - 1 - Top(p))
  }

  lemma ClearedWindow()
    ensures Window(FreshPaper()) == Cleared()
  {
  }

  lemma NextRowWindow(p: Paper)
    requires IsPaper(p)
    ensures NextRow(Window(p)).(x := 0) == Window(Paper(p.rows + [Blanks(COLS)], 0))
  {
    var q := Paper(p.rows + [Blanks(COLS)], 0);
    var l, r := NextRow(Window(p)).cells, Window(q).cells;
    forall i | 0 <= i < CELLS ensures l[i] == r[i] {
      if |p.rows| >= ROWS && i < CELLS - COLS {
        assert (i + COLS) / COLS == i / COLS + 1 && (i + COLS) % COLS == i % COLS;
      }
    }
    assert l == r;
  }

  lemma WriteWindow(p: Paper, c: byte)
    requires IsPaper(p)
    ensures var last := |p.rows| - 1;
      Window(p).cells[At(Window(p)) := c] == Window(p.(rows := p.rows[last := p.rows[last][p.col := c]])).cells
  {
    var last := |p.rows| - 1;
    var s, q := Window(p), p.(rows := p.rows[last := p.rows[last][p.col := c]]);
    var l, r := s.cells[At(s) := c], Window(q).cells;
    forall i | 0 <= i < CELLS ensures l[i] == r[i] {
      assert i == At(s) <==> i / COLS == s.y && i % COLS == s.x;
    }
  }

  /** Typing a character on the screen is printing it on the paper. */
  lemma TypedWindow(p: Paper, c: byte)
    requires IsPaper(p)
    ensures Typed(Window(p), c) == Window(Fed(p, c))
  {
    if EndsLine(c) {
      NextRowWindow(p);
    } else {
      var last := |p.rows| - 1;
      var s, q := Window(p), p.(rows := p.rows[last := p.rows[last][p.col := c]]);
      WriteWindow(p, c);
      assert s.attributes[At(s) := ATTRIB] == Plain(CELLS);
      if p.col + 1 == COLS {
        NextRowWindow(q);
        assert NextRow(Window(q)).cells == NextRow(Window(q).(x := COLS)).cells;
      }
    }
  }

  function TypedAll(s: Shown, text: seq<byte>): (r: Shown)
    requires Near(s)
    ensures Near(r) && (InRange(s) ==> InRange(r))
  {
    if text == [] then s else Typed(TypedAll(s, text[..|text| - 1]), text[|text| - 1])
  }

  function FedAll(p: Paper, text: seq<byte>): (r: Paper)
    requires IsPaper(p)
    ensures IsPaper(r)
  {
    if text == [] then p else Fed(FedAll(p, text[..|text| - 1]), text[|text| - 1])
  }

  /** The same for a whole text, however often it wraps and scrolls. */
  lemma {:induction false} TypedAllWindow(p: Paper, text: seq<byte>)
    requires IsPaper(p)
    ensures TypedAll(Window(p), text) == Window(FedAll(p, text))
  {
    if text != [] {
      TypedAllWindow(p, text[..|text| - 1]);
      TypedWindow(FedAll(p, text[..|text| - 1]), text[|text| - 1]);
    }
  }

  /** The rows of a paper, end to end. */
  function Flatten(rows: seq<Row>): (t: seq<byte>)
    ensures |t| == |rows| * COLS
  {
    if rows == [] then [] else Flatten(rows[..|rows| - 1]) + rows[|rows| - 1]
  }

  /** A text without line ends fills fresh paper row by row: all its characters in order, and then blanks. */
  lemma {:induction false} PaperHoldsText(text: seq<byte>)
    requires forall c :: c in text ==> c != 10 && c != 13
    ensures var p := FedAll(FreshPaper(), text);
      && |text| == (|p.rows| - 1) * 80 + p.col
      && Flatten(p.rows) == text + Blanks(80 - p.col)
  {
    if text == [] {
      assert Flatten([]) == [];
      assert Flatten([Blanks(COLS)]) == [] + Blanks(COLS);
    } else {
      var n := |text| - 1;
      assert text[n] in text && forall c :: c in text[..n] ==> c in text;
      PaperHoldsText(text[..n]);
      FedFlat(FedAll(FreshPaper(), text[..n]), text[n], text[..n]);
      assert text == text[..n] + [text[n]];
    }
  }

  lemma FedFlat(p: Paper, c: byte, before: seq<byte>)
    requires IsPaper(p) && !EndsLine(c)
    requires |before| == (|p.rows| - 1) * COLS + p.col && Flatten(p.rows) == before + Blanks(COLS - p.col)
    ensures var q := Fed(p, c);
      && |before| + 1 == (|q.rows| - 1) * COLS + q.col
      && Flatten(q.rows) == before + [c] + Blanks(COLS - q.col)
  {
    var last := |p.rows| - 1;
    var head, row := p.rows[..last], p.rows[last];
    var rows := p.rows[last := row[p.col := c]];
    assert rows[..last] == head && rows[last] == row[p.col := c];
    FlatLast(Flatten(head), row, before, c, p.col);
    assert Flatten(rows) == before + [c] + Blanks(COLS - p.col - 1);
    if p.col + 1 == COLS {
      assert (rows + [Blanks(COLS)])[..|rows|] == rows;
      assert Blanks(0) == [];
      assert before + [c] + [] + Blanks(COLS) == before + [c] + Blanks(COLS);
    }
  }

  lemma FlatLast(head: seq<byte>, row: Row, before: seq<byte>, c: byte, col: nat)
    requires col < COLS && |before| == |head| + col && head + row == before + Blanks(COLS - col)
    ensures head + row[col := c] == before + [c] + Blanks(COLS - col - 1)
  {
    var l, r, m := head + row[col := c], before + [c] + Blanks(COLS - col - 1), head + row;
    forall i | 0 <= i < |m| ensures l[i] == r[i] {
      assert m[i] == (before + Blanks(COLS - col))[i];
    }
  }

  /** The screen shows the last 25 rows of the paper, or all of them with blank rows below. */
  lemma WindowShowsBottom(p: Paper, row: nat, col: nat)
    requires IsPaper(p) && row < 25 && col < 80
    ensures var first := if |p.rows| <= 25 then 0 else |p.rows| - 25;
      && Window(p).cells[80 * row + col] == (if first + row < |p.rows| then p.rows[first + row][col] else 32)
      && Window(p).y == |p.rows| - 1 - first && Window(p).x == p.col
  {
    assert (80 * row + col) / COLS == row && (80 * row + col) % COLS == col;
  }

  // ---------- any history ----------

  datatype Event = Clear(t: nat) | Put(t: nat, c: byte)

  ghost predicate Valid(screens: seq<Shown>)
  {
    |screens| == TERMINALS && forall t :: 0 <= t < TERMINALS ==> InRange(screens[t])
  }

  ghost predicate OnTerminals(events: seq<Event>)
  {
    forall e :: e in events ==> e.t < TERMINALS
  }

  function Step(screens: seq<Shown>, e: Event): (r: seq<Shown>)
    requires Valid(screens) && e.t < TERMINALS
    ensures Valid(r)
  {
    match e
    case Clear(t) => screens[t := Cleared()]
    case Put(t, c) => screens[t := Typed(screens[t], c)]
  }

  function Run(screens: seq<Shown>, events: seq<Event>): (r: seq<Shown>)
    requires Valid(screens) && OnTerminals(events)
    ensures Valid(r)
    decreases |events|
  {
    if events == [] then screens else Run(Step(screens, events[0]), events[1..])
  }

  /** The paper of terminal `t`: a fresh one after every `Clear`. */
  function PaperOf(p: Paper, t: nat, events: seq<Event>): (r: Paper)
    requires IsPaper(p)
    ensures IsPaper(r)
    decreases |events|
  {
    if events == [] then p
    else
      var q := match events[0]
        case Clear(u) => if u == t then FreshPaper() else p
        case Put(u, c) => if u == t then Fed(p, c) else p;
      PaperOf(q, t, events[1..])
  }

  /**
   However the output to the three terminals is interleaved, each screen shows the bottom of its
   own paper: the one it showed before, or a fresh one since its last `Clear`.
   */
  lemma {:induction false} ScreensShowPapers(screens: seq<Shown>, events: seq<Event>, t: nat, p: Paper)
    requires Valid(screens) && OnTerminals(events) && t < TERMINALS
    requires IsPaper(p) && screens[t] == Window(p)
    ensures Run(screens, events)[t] == Window(PaperOf(p, t, events))
    decreases |events|
  {
    if events != [] {
      var e := events[0];
      assert OnTerminals(events[1..]);
      ClearedWindow();
      if e.t == t && e.Put? {
        TypedWindow(p, e.c);
      }
      var q := match e
        case Clear(u) => if u == t then FreshPaper() else p
        case Put(u, c) => if u == t then Fed(p, c) else p;
      ScreensShowPapers(Step(screens, e), events[1..], t, q);
    }
  }

  /** The same from any history whatever, for a terminal that is cleared first. */
  lemma ClearedScreenShowsPaper(screens: seq<Shown>, events: seq<Event>, t: nat)
    requires Valid(screens) && OnTerminals(events) && t < TERMINALS
    ensures Run(Step(screens, Clear(t)), events)[t] == Window(PaperOf(FreshPaper(), t, events))
  {
    ClearedWindow();
    ScreensShowPapers(Step(screens, Clear(t)), events, t, FreshPaper());
  }

  // ---------- erasing ----------

  /**
   Erasing undoes typing a printable character exactly when the cell typed into was blank and
   the cursor was not in the last cell of the screen, where typing scrolls.
   */
  lemma ErasedTyped(s: Shown, c: byte)
    requires InRange(s) && !EndsLine(c)
    ensures var r := Typed(s, c);
      && !(r.x == 0 && r.y == 0)
      && (Erased(r) == s <==>
            !(s.x == COLS - 1 && s.y == ROWS - 1) && s.cells[At(s)] == BLANK && s.attributes[At(s)] == ATTRIB)
  {
    var r := Typed(s, c);
    if s.x == COLS - 1 && s.y == ROWS - 1 {
      assert Erased(r).y == ROWS - 2;
    } else {
      assert Erased(r).x == s.x && Erased(r).y == s.y;
      assert Erased(r).cells == s.cells[At(s) := BLANK];
      assert Erased(r).attributes == s.attributes[At(s) := ATTRIB];
      assert s.cells[At(s) := BLANK][At(s)] == BLANK && s.attributes[At(s) := ATTRIB][At(s)] == ATTRIB;
      if s.cells[At(s)] == BLANK && s.attributes[At(s)] == ATTRIB {
        assert s.cells[At(s) := BLANK] == s.cells && s.attributes[At(s) := ATTRIB] == s.attributes;
      }
    }
  }
}

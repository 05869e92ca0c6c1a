/**
 The whole board: the cells of a `rows` x `cols` grid in row-major order, the lines along which
 a move pushes, and the functional meaning of a move.
 */
module Board {
  import opened Common
  import opened Lines

  datatype Direction = W | A | S | D

  /** A rectangle of cells, stored row by row. */
  ghost predicate IsBoard(rows: nat, cols: nat, b: seq<int>)
  {
    |b| == rows * cols
  }

  predicate Sideways(d: Direction)
  {
    d == A || d == D
  }

  /** The number of lines a move in direction `d` pushes, and the length of each. */
  function LineCount(d: Direction, rows: nat, cols: nat): nat
  {
    if Sideways(d) then rows else cols
  }

  function LineLength(d: Direction, rows: nat, cols: nat): nat
  {
    if Sideways(d) then cols else rows
  }

  /** The index of the cell at `row`, `col`. */
  function Index(cols: nat, row: nat, col: nat): nat
  {
    row * cols + col
  }

  /** The index of the `k`-th cell of line `j`, counted from the wall that `d` pushes against. */
  function LineCell(d: Direction, rows: nat, cols: nat, j: nat, k: nat): nat
    requires j < LineCount(d, rows, cols) && k < LineLength(d, rows, cols)
  {
    match d
    case A => Index(cols, j, k)
    case D => Index(cols, j, cols - 1 - k)
    case W => Index(cols, k, j)
    case S => Index(cols, rows - 1 - k, j)
  }

  /** The cells of line `j`, wall first. */
  function Line(d: Direction, rows: nat, cols: nat, j: nat): (ix: seq<nat>)
    requires j < LineCount(d, rows, cols)
    ensures |ix| == LineLength(d, rows, cols)
    ensures forall k :: 0 <= k < |ix| ==> ix[k] == LineCell(d, rows, cols, j, k)
  {
    seq(LineLength(d, rows, cols), k requires 0 <= k < LineLength(d, rows, cols) => LineCell(d, rows, cols, j, k))
  }

  /** The line and the place in that line of the cell with index `p`. */
  function LineOf(d: Direction, cols: nat, p: nat): nat
    requires cols > 0
  {
    if Sideways(d) then p / cols else p % cols
  }

  function PlaceOf(d: Direction, rows: nat, cols: nat, p: nat): int
    requires cols > 0
  {
    match d
    case A => p % cols
    case D => cols - 1 - p % cols
    case W => p / cols
    case S => rows - 1 - p / cols
  }

  /** What is in the cells `ix`, in that order. */
  function Read(b: seq<int>, ix: seq<nat>): (s: seq<int>)
    requires forall k :: 0 <= k < |ix| ==> ix[k] < |b|
    ensures |s| == |ix|
    ensures forall k :: 0 <= k < |ix| ==> s[k] == b[ix[k]]
  {
    seq(|ix|, k requires 0 <= k < |ix| => b[ix[k]])
  }

  /** Cells that exist on a board of `n` cells, each listed once. */
  ghost predicate ValidLine(n: nat, ix: seq<nat>)
  {
    Distinct(ix) && forall k :: 0 <= k < |ix| ==> ix[k] < n
  }

  // ---------- the grid ----------

  lemma IndexInRange(rows: nat, cols: nat, row: nat, col: nat)
    requires row < rows && col < cols
    ensures Index(cols, row, col) < rows * cols
  {
    assert (row + 1) * cols <= rows * cols;
  }

  lemma IndexDivMod(cols: nat, row: nat, col: nat)
    requires col < cols
    ensures Index(cols, row, col) / cols == row && Index(cols, row, col) % cols == col
  {
    var q := Index(cols, row, col) / cols;
    MulMonotone(cols, q + 1, row);
    MulMonotone(cols, row + 1, q);
  }

  lemma DivModInRange(rows: nat, cols: nat, p: nat)
    requires p < rows * cols
    ensures cols > 0 && p / cols < rows && p % cols < cols && p == Index(cols, p / cols, p % cols)
  {
    assert cols > 0;
    MulMonotone(cols, rows, p / cols);
  }

  /** Cell `k` of line `j` is on the board, and `LineOf` and `PlaceOf` find it again. */
  lemma LineCellPlace(d: Direction, rows: nat, cols: nat, j: nat, k: nat)
    requires j < LineCount(d, rows, cols) && k < LineLength(d, rows, cols)
    ensures cols > 0 && LineCell(d, rows, cols, j, k) < rows * cols
    ensures LineOf(d, cols, LineCell(d, rows, cols, j, k)) == j
    ensures PlaceOf(d, rows, cols, LineCell(d, rows, cols, j, k)) == k
  {
    var (row, col) := match d
      case A => (j, k)
      case D => (j, cols - 1 - k)
      case W => (k, j)
      case S => (rows - 1 - k, j);
    IndexInRange(rows, cols, row, col);
    IndexDivMod(cols, row, col);
  }

  /** Every cell lies on a line. */
  lemma PlaceLineCell(d: Direction, rows: nat, cols: nat, p: nat)
    requires p < rows * cols
    ensures cols > 0
    ensures LineOf(d, cols, p) < LineCount(d, rows, cols)
    ensures 0 <= PlaceOf(d, rows, cols, p) < LineLength(d, rows, cols)
    ensures LineCell(d, rows, cols, LineOf(d, cols, p), PlaceOf(d, rows, cols, p)) == p
  {
    DivModInRange(rows, cols, p);
    var r, c := p / cols, p % cols;
    assert p == Index(cols, r, c);
    assert Sideways(d) ==> LineOf(d, cols, p) == r;
    assert !Sideways(d) ==> LineOf(d, cols, p) == c;
    if d == D {
      assert cols - 1 - PlaceOf(d, rows, cols, p) == c;
    } else if d == S {
      assert rows - 1 - PlaceOf(d, rows, cols, p) == r;
    }
  }

  lemma OnItsLine(d: Direction, rows: nat, cols: nat, p: nat)
    requires p < rows * cols
    ensures cols > 0 && LineOf(d, cols, p) < LineCount(d, rows, cols)
    ensures p in Line(d, rows, cols, LineOf(d, cols, p))
  {
    PlaceLineCell(d, rows, cols, p);
    assert Line(d, rows, cols, LineOf(d, cols, p))[PlaceOf(d, rows, cols, p)] == p;
  }

  lemma LineIsValid(d: Direction, rows: nat, cols: nat, j: nat)
    requires j < LineCount(d, rows, cols)
    ensures ValidLine(rows * cols, Line(d, rows, cols, j))
  {
    var ix := Line(d, rows, cols, j);
    forall k | 0 <= k < |ix| ensures ix[k] < rows * cols {
      LineCellPlace(d, rows, cols, j, k);
    }
    forall i, k | 0 <= i < k < |ix| ensures ix[i] != ix[k] {
      LineCellPlace(d, rows, cols, j, i);
      LineCellPlace(d, rows, cols, j, k);
    }
  }

  /** Different lines of one direction share no cell. */
  lemma LinesDisjoint(d: Direction, rows: nat, cols: nat, i: nat, j: nat)
    requires i < LineCount(d, rows, cols) && j < LineCount(d, rows, cols) && i != j
    ensures forall k :: 0 <= k < LineLength(d, rows, cols) ==> Line(d, rows, cols, i)[k] !in Line(d, rows, cols, j)
  {
    forall k | 0 <= k < LineLength(d, rows, cols)
      ensures Line(d, rows, cols, i)[k] !in Line(d, rows, cols, j)
    {
      LineCellPlace(d, rows, cols, i, k);
      if Line(d, rows, cols, i)[k] in Line(d, rows, cols, j) {
        var m :| 0 <= m < LineLength(d, rows, cols) && Line(d, rows, cols, j)[m] == Line(d, rows, cols, i)[k];
        LineCellPlace(d, rows, cols, j, m);
        assert false;
      }
    }
  }

  /** What line `j` of a board holds, wall first. */
  function ReadLine(d: Direction, rows: nat, cols: nat, b: seq<int>, j: nat): (s: seq<int>)
    requires IsBoard(rows, cols, b) && j < LineCount(d, rows, cols)
    ensures |s| == LineLength(d, rows, cols)
    ensures forall k :: 0 <= k < |s| ==> LineCell(d, rows, cols, j, k) < |b| && s[k] == b[LineCell(d, rows, cols, j, k)]
  {
    LineIsValid(d, rows, cols, j);
    Read(b, Line(d, rows, cols, j))
  }

  /** A change inside line `i` leaves the other lines of that direction alone. */
  lemma OtherLinesKept(d: Direction, rows: nat, cols: nat, b: seq<int>, c: seq<int>, i: nat)
    requires IsBoard(rows, cols, b) && IsBoard(rows, cols, c) && i < LineCount(d, rows, cols)
    requires SameOutside(Line(d, rows, cols, i), b, c)
    ensures forall j :: 0 <= j < LineCount(d, rows, cols) && j != i ==>
      ReadLine(d, rows, cols, c, j) == ReadLine(d, rows, cols, b, j)
  {
    forall j | 0 <= j < LineCount(d, rows, cols) && j != i
      ensures ReadLine(d, rows, cols, c, j) == ReadLine(d, rows, cols, b, j)
    {
      LinesDisjoint(d, rows, cols, j, i);
    }
  }

  /** A board is determined by its lines. */
  lemma BoardFromLines(d: Direction, rows: nat, cols: nat, b: seq<int>, c: seq<int>)
    requires IsBoard(rows, cols, b) && IsBoard(rows, cols, c)
    requires forall j :: 0 <= j < LineCount(d, rows, cols) ==>
      ReadLine(d, rows, cols, b, j) == ReadLine(d, rows, cols, c, j)
    ensures b == c
  {
    forall p | 0 <= p < |b| ensures b[p] == c[p] {
      PlaceLineCell(d, rows, cols, p);
      var j, k := LineOf(d, cols, p), PlaceOf(d, rows, cols, p);
      assert ReadLine(d, rows, cols, b, j)[k] == ReadLine(d, rows, cols, c, j)[k];
    }
  }

  // ---------- the meaning of a move ----------

  /** The board after a move: every line slid towards the wall. */
  function MoveBoard(d: Direction, rows: nat, cols: nat, b: seq<int>): (r: seq<int>)
    requires IsBoard(rows, cols, b)
    ensures IsBoard(rows, cols, r)
  {
    seq(rows * cols, p requires 0 <= p < rows * cols =>
      PlaceLineCell(d, rows, cols, p);
      Slide(ReadLine(d, rows, cols, b, LineOf(d, cols, p)))[PlaceOf(d, rows, cols, p)])
  }

  /** The score earned on the first `n` lines. */
  function MoveGain(d: Direction, rows: nat, cols: nat, b: seq<int>, n: nat): int
    requires IsBoard(rows, cols, b) && n <= LineCount(d, rows, cols)
  {
    if n == 0 then 0
    else MoveGain(d, rows, cols, b, n - 1) + Gain(Tiles(ReadLine(d, rows, cols, b, n - 1)))
  }

  /** The score earned by a move. */
  function ScoreOfMove(d: Direction, rows: nat, cols: nat, b: seq<int>): int
    requires IsBoard(rows, cols, b)
  {
    MoveGain(d, rows, cols, b, LineCount(d, rows, cols))
  }

  lemma MovedLine(d: Direction, rows: nat, cols: nat, b: seq<int>, j: nat)
    requires IsBoard(rows, cols, b) && j < LineCount(d, rows, cols)
    ensures ReadLine(d, rows, cols, MoveBoard(d, rows, cols, b), j) == Slide(ReadLine(d, rows, cols, b, j))
  {
    var m := MoveBoard(d, rows, cols, b);
    forall k | 0 <= k < LineLength(d, rows, cols)
      ensures ReadLine(d, rows, cols, m, j)[k] == Slide(ReadLine(d, rows, cols, b, j))[k]
    {
      LineCellPlace(d, rows, cols, j, k);
    }
  }

  /** A move changes the board exactly when it changes one of its lines. */
  lemma MoveChanges(d: Direction, rows: nat, cols: nat, b: seq<int>)
    requires IsBoard(rows, cols, b)
    ensures MoveBoard(d, rows, cols, b) != b <==>
      exists j :: 0 <= j < LineCount(d, rows, cols) &&
        Slide(ReadLine(d, rows, cols, b, j)) != ReadLine(d, rows, cols, b, j)
  {
    forall j | 0 <= j < LineCount(d, rows, cols)
      ensures ReadLine(d, rows, cols, MoveBoard(d, rows, cols, b), j) == Slide(ReadLine(d, rows, cols, b, j))
    {
      MovedLine(d, rows, cols, b, j);
    }
    if forall j :: 0 <= j < LineCount(d, rows, cols) ==>
      Slide(ReadLine(d, rows, cols, b, j)) == ReadLine(d, rows, cols, b, j) {
      BoardFromLines(d, rows, cols, MoveBoard(d, rows, cols, b), b);
    }
  }

  /** After a move that changed the board some cell is empty. */
  lemma ChangedBoardHasHole(d: Direction, rows: nat, cols: nat, b: seq<int>)
    requires IsBoard(rows, cols, b) && MoveBoard(d, rows, cols, b) != b
    ensures HOLE in MoveBoard(d, rows, cols, b)
  {
    MoveChanges(d, rows, cols, b);
    var j :| 0 <= j < LineCount(d, rows, cols) && Slide(ReadLine(d, rows, cols, b, j)) != ReadLine(d, rows, cols, b, j);
    ChangedLineHasHole(ReadLine(d, rows, cols, b, j));
    MovedLine(d, rows, cols, b, j);
  }

  lemma UnchangedLinesScoreNothing(d: Direction, rows: nat, cols: nat, b: seq<int>, n: nat)
    requires IsBoard(rows, cols, b) && n <= LineCount(d, rows, cols)
    requires forall j :: 0 <= j < n ==> Slide(ReadLine(d, rows, cols, b, j)) == ReadLine(d, rows, cols, b, j)
    ensures MoveGain(d, rows, cols, b, n) == 0
  {
    if n > 0 {
      UnchangedLinesScoreNothing(d, rows, cols, b, n - 1);
      UnchangedLineScoresNothing(ReadLine(d, rows, cols, b, n - 1));
    }
  }

  /** A move that changes nothing scores nothing. */
  lemma UnchangedBoardScoresNothing(d: Direction, rows: nat, cols: nat, b: seq<int>)
    requires IsBoard(rows, cols, b) && MoveBoard(d, rows, cols, b) == b
    ensures ScoreOfMove(d, rows, cols, b) == 0
  {
    MoveChanges(d, rows, cols, b);
    UnchangedLinesScoreNothing(d, rows, cols, b, LineCount(d, rows, cols));
  }

  // ---------- the phases of a move ----------

  ghost predicate SameOutside(ix: seq<nat>, b: seq<int>, c: seq<int>)
  {
    |c| == |b| && forall p :: 0 <= p < |b| && p !in ix ==> c[p] == b[p]
  }

  /** The first `n` lines of `b` have been pushed to the wall, which gives `c`. */
  ghost predicate LinesPacked(d: Direction, rows: nat, cols: nat, b: seq<int>, c: seq<int>, n: nat)
  {
    && IsBoard(rows, cols, b) && IsBoard(rows, cols, c)
    && forall j :: 0 <= j < LineCount(d, rows, cols) ==>
         ReadLine(d, rows, cols, c, j) ==
           if j < n then Compact(ReadLine(d, rows, cols, b, j)) else ReadLine(d, rows, cols, b, j)
  }

  /** The lines of `b` have been pushed to the wall and the first `n` merged, which gives `c`. */
  ghost predicate LinesMerged(d: Direction, rows: nat, cols: nat, b: seq<int>, c: seq<int>, n: nat)
  {
    && IsBoard(rows, cols, b) && IsBoard(rows, cols, c)
    && (forall j :: 0 <= j < n && j < LineCount(d, rows, cols) ==>
         Tiles(ReadLine(d, rows, cols, c, j)) == PairMerge(Tiles(ReadLine(d, rows, cols, b, j))))
    && forall j :: n <= j < LineCount(d, rows, cols) ==>
         ReadLine(d, rows, cols, c, j) == Compact(ReadLine(d, rows, cols, b, j))
  }

  /** One of the first `n` lines has a tile to push. */
  ghost predicate AnyUnpacked(d: Direction, rows: nat, cols: nat, b: seq<int>, n: nat)
    requires IsBoard(rows, cols, b) && n <= LineCount(d, rows, cols)
  {
    n > 0 && (AnyUnpacked(d, rows, cols, b, n - 1) || !Packed(ReadLine(d, rows, cols, b, n - 1)))
  }

  /** One of the first `n` lines has tiles to merge once they have been pushed. */
  ghost predicate AnyMerge(d: Direction, rows: nat, cols: nat, b: seq<int>, n: nat)
    requires IsBoard(rows, cols, b) && n <= LineCount(d, rows, cols)
  {
    n > 0 && (AnyMerge(d, rows, cols, b, n - 1) || HasMerge(Compact(ReadLine(d, rows, cols, b, n - 1))))
  }

  lemma AnyLine(d: Direction, rows: nat, cols: nat, b: seq<int>, n: nat)
    requires IsBoard(rows, cols, b) && n <= LineCount(d, rows, cols)
    ensures AnyUnpacked(d, rows, cols, b, n) || AnyMerge(d, rows, cols, b, n) <==>
      exists j :: 0 <= j < n && Slide(ReadLine(d, rows, cols, b, j)) != ReadLine(d, rows, cols, b, j)
  {
    if n > 0 {
      AnyLine(d, rows, cols, b, n - 1);
      SlideChanges(ReadLine(d, rows, cols, b, n - 1));
    }
  }

  lemma PackedStep(d: Direction, rows: nat, cols: nat, b: seq<int>, c: seq<int>, c': seq<int>, i: nat)
    requires i < LineCount(d, rows, cols) && LinesPacked(d, rows, cols, b, c, i)
    requires SameOutside(Line(d, rows, cols, i), c, c')
    requires ReadLine(d, rows, cols, c', i) == Compact(ReadLine(d, rows, cols, c, i))
    ensures LinesPacked(d, rows, cols, b, c', i + 1)
  {
    OtherLinesKept(d, rows, cols, c, c', i);
  }

  lemma MergedStep(d: Direction, rows: nat, cols: nat, b: seq<int>, c: seq<int>, c': seq<int>, i: nat)
    requires i < LineCount(d, rows, cols) && LinesMerged(d, rows, cols, b, c, i)
    requires SameOutside(Line(d, rows, cols, i), c, c')
    requires Tiles(ReadLine(d, rows, cols, c', i)) == PairMerge(Tiles(ReadLine(d, rows, cols, c, i)))
    ensures LinesMerged(d, rows, cols, b, c', i + 1)
    ensures ReadLine(d, rows, cols, c', i) == ReadLine(d, rows, cols, c, i) ==> c' == c
  {
    OtherLinesKept(d, rows, cols, c, c', i);
    TilesOfCompact(ReadLine(d, rows, cols, b, i));
    if ReadLine(d, rows, cols, c', i) == ReadLine(d, rows, cols, c, i) {
      BoardFromLines(d, rows, cols, c', c);
    }
  }

  /** Push, merge and push again amount to the move. */
  lemma PhasesCompose(d: Direction, rows: nat, cols: nat, b: seq<int>, merged: seq<int>, c: seq<int>)
    requires LinesMerged(d, rows, cols, b, merged, LineCount(d, rows, cols))
    requires LinesPacked(d, rows, cols, merged, c, LineCount(d, rows, cols))
    ensures c == MoveBoard(d, rows, cols, b)
  {
    forall j | 0 <= j < LineCount(d, rows, cols)
      ensures ReadLine(d, rows, cols, c, j) == ReadLine(d, rows, cols, MoveBoard(d, rows, cols, b), j)
    {
      MovedLine(d, rows, cols, b, j);
      SlideByPhases(ReadLine(d, rows, cols, b, j), ReadLine(d, rows, cols, merged, j));
    }
    BoardFromLines(d, rows, cols, c, MoveBoard(d, rows, cols, b));
  }

  /** When no line has to be pushed and no tiles merge, the move is the identity. */
  lemma NothingToDo(d: Direction, rows: nat, cols: nat, b: seq<int>, c: seq<int>)
    requires LinesPacked(d, rows, cols, b, c, LineCount(d, rows, cols))
    requires !AnyUnpacked(d, rows, cols, b, LineCount(d, rows, cols))
    requires !AnyMerge(d, rows, cols, b, LineCount(d, rows, cols))
    ensures c == b == MoveBoard(d, rows, cols, b)
  {
    var n := LineCount(d, rows, cols);
    AnyLine(d, rows, cols, b, n);
    MoveChanges(d, rows, cols, b);
    forall j | 0 <= j < n ensures ReadLine(d, rows, cols, c, j) == ReadLine(d, rows, cols, b, j) {
      NonePacked(d, rows, cols, b, n, j);
      PackedIsCompact(ReadLine(d, rows, cols, b, j));
    }
    BoardFromLines(d, rows, cols, c, b);
  }

  lemma NonePacked(d: Direction, rows: nat, cols: nat, b: seq<int>, n: nat, j: nat)
    requires IsBoard(rows, cols, b) && j < n <= LineCount(d, rows, cols) && !AnyUnpacked(d, rows, cols, b, n)
    ensures Packed(ReadLine(d, rows, cols, b, j))
  {
    if j < n - 1 {
      NonePacked(d, rows, cols, b, n - 1, j);
    }
  }

  /** The flag a move returns says whether the board changes. */
  lemma MovedFlag(d: Direction, rows: nat, cols: nat, b: seq<int>)
    requires IsBoard(rows, cols, b)
    ensures AnyUnpacked(d, rows, cols, b, LineCount(d, rows, cols)) ||
      AnyMerge(d, rows, cols, b, LineCount(d, rows, cols))
      <==> MoveBoard(d, rows, cols, b) != b
  {
    AnyLine(d, rows, cols, b, LineCount(d, rows, cols));
    MoveChanges(d, rows, cols, b);
  }

  // ---------- symmetries of the four moves ----------

  /** The board seen in a mirror: left and right, or top and bottom, swapped. */
  function MirrorSides(rows: nat, cols: nat, b: seq<int>): (m: seq<int>)
    requires IsBoard(rows, cols, b)
    ensures IsBoard(rows, cols, m)
  {
    seq(rows * cols, p requires 0 <= p < rows * cols =>
      DivModInRange(rows, cols, p); IndexInRange(rows, cols, p / cols, cols - 1 - p % cols);
      b[Index(cols, p / cols, cols - 1 - p % cols)])
  }

  function MirrorUpDown(rows: nat, cols: nat, b: seq<int>): (m: seq<int>)
    requires IsBoard(rows, cols, b)
    ensures IsBoard(rows, cols, m)
  {
    seq(rows * cols, p requires 0 <= p < rows * cols =>
      DivModInRange(rows, cols, p); IndexInRange(rows, cols, rows - 1 - p / cols, p % cols);
      b[Index(cols, rows - 1 - p / cols, p % cols)])
  }

  /** Rows and columns exchanged; the result has `cols` rows. */
  function Transpose(rows: nat, cols: nat, b: seq<int>): (t: seq<int>)
    requires IsBoard(rows, cols, b)
    ensures IsBoard(cols, rows, t)
  {
    assert rows * cols == cols * rows;
    seq(cols * rows, p requires 0 <= p < cols * rows =>
      DivModInRange(cols, rows, p); IndexInRange(rows, cols, p % rows, p / rows);
      b[Index(cols, p % rows, p / rows)])
  }

  lemma MirroredLines(rows: nat, cols: nat, b: seq<int>, j: nat)
    requires IsBoard(rows, cols, b)
    ensures j < rows ==> ReadLine(A, rows, cols, MirrorSides(rows, cols, b), j) == ReadLine(D, rows, cols, b, j)
    ensures j < cols ==> ReadLine(W, rows, cols, MirrorUpDown(rows, cols, b), j) == ReadLine(S, rows, cols, b, j)
    ensures j < rows ==> ReadLine(W, cols, rows, Transpose(rows, cols, b), j) == ReadLine(A, rows, cols, b, j)
  {
    if j < rows {
      var m := ReadLine(A, rows, cols, MirrorSides(rows, cols, b), j);
      forall k | 0 <= k < cols ensures m[k] == ReadLine(D, rows, cols, b, j)[k] {
        IndexDivMod(cols, j, k);
      }
      var t := ReadLine(W, cols, rows, Transpose(rows, cols, b), j);
      forall k | 0 <= k < cols ensures t[k] == ReadLine(A, rows, cols, b, j)[k] {
        IndexDivMod(rows, k, j);
      }
    }
    if j < cols {
      var m := ReadLine(W, rows, cols, MirrorUpDown(rows, cols, b), j);
      forall k | 0 <= k < rows ensures m[k] == ReadLine(S, rows, cols, b, j)[k] {
        IndexDivMod(cols, k, j);
      }
    }
  }

  /** `MirrorSides` undoes itself, and so on: each symmetry of a moved board is read off line by line. */
  lemma MoveMirrorSides(rows: nat, cols: nat, b: seq<int>)
    requires IsBoard(rows, cols, b)
    ensures MirrorSides(rows, cols, MoveBoard(D, rows, cols, b)) == MoveBoard(A, rows, cols, MirrorSides(rows, cols, b))
  {
    var l := MirrorSides(rows, cols, MoveBoard(D, rows, cols, b));
    var r := MoveBoard(A, rows, cols, MirrorSides(rows, cols, b));
    forall j | 0 <= j < rows ensures ReadLine(A, rows, cols, l, j) == ReadLine(A, rows, cols, r, j) {
      MirroredLines(rows, cols, MoveBoard(D, rows, cols, b), j);
      MovedLine(D, rows, cols, b, j);
      MirroredLines(rows, cols, b, j);
      MovedLine(A, rows, cols, MirrorSides(rows, cols, b), j);
    }
    BoardFromLines(A, rows, cols, l, r);
  }

  lemma MoveMirrorUpDown(rows: nat, cols: nat, b: seq<int>)
    requires IsBoard(rows, cols, b)
    ensures MirrorUpDown(rows, cols, MoveBoard(S, rows, cols, b)) ==
      MoveBoard(W, rows, cols, MirrorUpDown(rows, cols, b))
  {
    var l := MirrorUpDown(rows, cols, MoveBoard(S, rows, cols, b));
    var r := MoveBoard(W, rows, cols, MirrorUpDown(rows, cols, b));
    forall j | 0 <= j < cols ensures ReadLine(W, rows, cols, l, j) == ReadLine(W, rows, cols, r, j) {
      MirroredLines(rows, cols, MoveBoard(S, rows, cols, b), j);
      MovedLine(S, rows, cols, b, j);
      MirroredLines(rows, cols, b, j);
      MovedLine(W, rows, cols, MirrorUpDown(rows, cols, b), j);
    }
    BoardFromLines(W, rows, cols, l, r);
  }

  lemma MoveTranspose(rows: nat, cols: nat, b: seq<int>)
    requires IsBoard(rows, cols, b)
    ensures Transpose(rows, cols, MoveBoard(A, rows, cols, b)) == MoveBoard(W, cols, rows, Transpose(rows, cols, b))
  {
    var l := Transpose(rows, cols, MoveBoard(A, rows, cols, b));
    var r := MoveBoard(W, cols, rows, Transpose(rows, cols, b));
    forall j | 0 <= j < rows ensures ReadLine(W, cols, rows, l, j) == ReadLine(W, cols, rows, r, j) {
      MirroredLines(rows, cols, MoveBoard(A, rows, cols, b), j);
      MovedLine(A, rows, cols, b, j);
      MirroredLines(rows, cols, b, j);
      MovedLine(W, cols, rows, Transpose(rows, cols, b), j);
    }
    BoardFromLines(W, cols, rows, l, r);
  }

  // ---------- the game-over test ----------

  /** The cell at `r`, `c` equals the one below it. */
  predicate EqualBelow(rows: nat, cols: nat, b: seq<int>, r: nat, c: nat)
    requires IsBoard(rows, cols, b)
  {
    && r + 1 < rows && c < cols
    && (IndexInRange(rows, cols, r, c); IndexInRange(rows, cols, r + 1, c);
        b[Index(cols, r, c)] == b[Index(cols, r + 1, c)])
  }

  /** The cell at `r`, `c` equals the one to its right. */
  predicate EqualRight(rows: nat, cols: nat, b: seq<int>, r: nat, c: nat)
    requires IsBoard(rows, cols, b)
  {
    && r < rows && c + 1 < cols
    && (IndexInRange(rows, cols, r, c); IndexInRange(rows, cols, r, c + 1);
        b[Index(cols, r, c)] == b[Index(cols, r, c + 1)])
  }

  ghost predicate AdjacentEqual(rows: nat, cols: nat, b: seq<int>)
    requires IsBoard(rows, cols, b)
  {
    exists r: nat, c: nat :: EqualBelow(rows, cols, b, r, c) || EqualRight(rows, cols, b, r, c)
  }

  /** What the game-over test answers: there is a hole, or two neighbours are equal. */
  ghost predicate Legal(rows: nat, cols: nat, b: seq<int>)
    requires IsBoard(rows, cols, b)
  {
    HOLE in b || AdjacentEqual(rows, cols, b)
  }

  ghost predicate Movable(rows: nat, cols: nat, b: seq<int>)
    requires IsBoard(rows, cols, b)
  {
    exists d :: MoveBoard(d, rows, cols, b) != b
  }

  lemma OpposedLines(rows: nat, cols: nat, b: seq<int>, j: nat)
    requires IsBoard(rows, cols, b)
    ensures j < rows ==> ReadLine(D, rows, cols, b, j) == Reverse(ReadLine(A, rows, cols, b, j))
    ensures j < cols ==> ReadLine(S, rows, cols, b, j) == Reverse(ReadLine(W, rows, cols, b, j))
  {
  }

  /** A line that holds both a tile and a hole can be pushed one way or the other. */
  lemma MixedLineMoves(s: seq<int>, i: nat, h: nat)
    requires i < |s| && h < |s| && s[i] != HOLE && s[h] == HOLE
    ensures Slide(s) != s || Slide(Reverse(s)) != Reverse(s)
  {
    SlideChanges(s);
    SlideChanges(Reverse(s));
    if h > i {
      var r := Reverse(s);
      assert r[|s| - 1 - h] == HOLE && r[|s| - 1 - i] != HOLE;
    }
  }

  lemma MixedRowMoves(rows: nat, cols: nat, b: seq<int>, r: nat, c: nat, c': nat)
    requires IsBoard(rows, cols, b) && r < rows && c < cols && c' < cols
    requires ReadLine(A, rows, cols, b, r)[c] != HOLE && ReadLine(A, rows, cols, b, r)[c'] == HOLE
    ensures Movable(rows, cols, b)
  {
    OpposedLines(rows, cols, b, r);
    MixedLineMoves(ReadLine(A, rows, cols, b, r), c, c');
    MoveChanges(A, rows, cols, b);
    MoveChanges(D, rows, cols, b);
  }

  lemma MixedColumnMoves(rows: nat, cols: nat, b: seq<int>, c: nat, r: nat, r': nat)
    requires IsBoard(rows, cols, b) && c < cols && r < rows && r' < rows
    requires ReadLine(W, rows, cols, b, c)[r] != HOLE && ReadLine(W, rows, cols, b, c)[r'] == HOLE
    ensures Movable(rows, cols, b)
  {
    OpposedLines(rows, cols, b, c);
    MixedLineMoves(ReadLine(W, rows, cols, b, c), r, r');
    MoveChanges(W, rows, cols, b);
    MoveChanges(S, rows, cols, b);
  }

  lemma TileAndHoleAt(rows: nat, cols: nat, b: seq<int>, r: nat, c: nat, r': nat, c': nat)
    requires IsBoard(rows, cols, b) && r < rows && r' < rows && c < cols && c' < cols
    requires Index(cols, r, c) < |b| && b[Index(cols, r, c)] != HOLE
    requires Index(cols, r', c') < |b| && b[Index(cols, r', c')] == HOLE
    ensures Movable(rows, cols, b)
  {
    hide Movable;
    IndexInRange(rows, cols, r, c');
    if b[Index(cols, r, c')] == HOLE {
      MixedRowMoves(rows, cols, b, r, c, c');
    } else {
      MixedColumnMoves(rows, cols, b, c', r, r');
    }
  }

  /** A tile and a hole anywhere on the board: some row or column holds both. */
  lemma TileAndHoleMove(rows: nat, cols: nat, b: seq<int>, p: nat, h: nat)
    requires IsBoard(rows, cols, b) && p < |b| && h < |b| && b[p] != HOLE && b[h] == HOLE
    ensures Movable(rows, cols, b)
  {
    hide Movable;
    DivModInRange(rows, cols, p);
    DivModInRange(rows, cols, h);
    TileAndHoleAt(rows, cols, b, p / cols, p % cols, h / cols, h % cols);
  }

  lemma FullLineIsCompact(s: seq<int>)
    requires HOLE !in s
    ensures Packed(s) && Compact(s) == s
  {
    TilesOfTiles(s);
  }

  /** On a full board a line moves exactly when two of its neighbours are equal. */
  lemma FullLineMoves(s: seq<int>)
    requires HOLE !in s
    ensures Slide(s) != s <==> exists k :: 0 <= k < |s| - 1 && s[k] == s[k + 1]
  {
    FullLineIsCompact(s);
    SlideChanges(s);
    if k :| 0 <= k < |s| - 1 && s[k] == s[k + 1] {
      assert s[k] in s && Merges(s, k);
    }
  }

  lemma LineHasNoHole(d: Direction, rows: nat, cols: nat, b: seq<int>, j: nat)
    requires IsBoard(rows, cols, b) && HOLE !in b && j < LineCount(d, rows, cols)
    ensures HOLE !in ReadLine(d, rows, cols, b, j)
  {
  }

  lemma AdjacentEqualMoves(rows: nat, cols: nat, b: seq<int>)
    requires IsBoard(rows, cols, b) && HOLE !in b && AdjacentEqual(rows, cols, b)
    ensures Movable(rows, cols, b)
  {
    var r: nat, c: nat :| EqualBelow(rows, cols, b, r, c) || EqualRight(rows, cols, b, r, c);
    if EqualBelow(rows, cols, b, r, c) {
      var s := ReadLine(W, rows, cols, b, c);
      assert s[r] == s[r + 1];
      LineHasNoHole(W, rows, cols, b, c);
      FullLineMoves(s);
      MoveChanges(W, rows, cols, b);
    } else {
      var s := ReadLine(A, rows, cols, b, r);
      assert s[c] == s[c + 1];
      LineHasNoHole(A, rows, cols, b, r);
      FullLineMoves(s);
      MoveChanges(A, rows, cols, b);
    }
  }

  lemma EqualInLine(d: Direction, rows: nat, cols: nat, b: seq<int>, j: nat, k: nat)
    requires IsBoard(rows, cols, b) && j < LineCount(d, rows, cols) && k + 1 < LineLength(d, rows, cols)
    requires ReadLine(d, rows, cols, b, j)[k] == ReadLine(d, rows, cols, b, j)[k + 1]
    ensures AdjacentEqual(rows, cols, b)
  {
    match d
    case A => assert EqualRight(rows, cols, b, j, k);
    case D => assert EqualRight(rows, cols, b, j, cols - 2 - k);
    case W => assert EqualBelow(rows, cols, b, k, j);
    case S => assert EqualBelow(rows, cols, b, rows - 2 - k, j);
  }

  lemma FullBoardMoves(rows: nat, cols: nat, b: seq<int>, d: Direction)
    requires IsBoard(rows, cols, b) && HOLE !in b && MoveBoard(d, rows, cols, b) != b
    ensures AdjacentEqual(rows, cols, b)
  {
    MoveChanges(d, rows, cols, b);
    var j :| 0 <= j < LineCount(d, rows, cols) && Slide(ReadLine(d, rows, cols, b, j)) != ReadLine(d, rows, cols, b, j);
    FullLineChanges(d, rows, cols, b, j);
  }

  lemma FullLineChanges(d: Direction, rows: nat, cols: nat, b: seq<int>, j: nat)
    requires IsBoard(rows, cols, b) && HOLE !in b && j < LineCount(d, rows, cols)
    requires Slide(ReadLine(d, rows, cols, b, j)) != ReadLine(d, rows, cols, b, j)
    ensures AdjacentEqual(rows, cols, b)
  {
    hide Slide, AdjacentEqual;
    LineHasNoHole(d, rows, cols, b, j);
    var k := EqualPair(ReadLine(d, rows, cols, b, j));
    EqualInLine(d, rows, cols, b, j, k);
  }

  lemma EqualPair(s: seq<int>) returns (k: nat)
    requires HOLE !in s && Slide(s) != s
    ensures k + 1 < |s| && s[k] == s[k + 1]
  {
    FullLineMoves(s);
    hide Slide;
    k :| 0 <= k < |s| - 1 && s[k] == s[k + 1];
  }

  /**
   The game-over test is exact: it answers "there is a legal move" if and only if one of the four
   moves changes the board or the board consists of holes only (which no move changes).
   */
  lemma LegalIsExact(rows: nat, cols: nat, b: seq<int>)
    requires IsBoard(rows, cols, b)
    ensures Legal(rows, cols, b) <==>
      Movable(rows, cols, b) || (b != [] && forall p :: 0 <= p < |b| ==> b[p] == HOLE)
  {
    if HOLE in b {
      var h :| 0 <= h < |b| && b[h] == HOLE;
      if p :| 0 <= p < |b| && b[p] != HOLE {
        TileAndHoleMove(rows, cols, b, p, h);
      }
    } else {
      if AdjacentEqual(rows, cols, b) {
        AdjacentEqualMoves(rows, cols, b);
      }
      if Movable(rows, cols, b) {
        var d :| MoveBoard(d, rows, cols, b) != b;
        FullBoardMoves(rows, cols, b, d);
      }
      if b != [] {
        assert b[0] in b;
      }
    }
  }
}

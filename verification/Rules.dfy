/** One turn and whole plays of the game, on values. */
module Rules {
  import opened Common
  import opened Lines
  import opened Board
  import opened Spawn

  /** The board, the score, and the position in the table of probes. */
  datatype State = State(cells: seq<int>, score: int, index: nat)

  datatype Outcome =
    | Playing(state: State)  // the game goes on
    | Over(state: State)     // no legal move was found: the game has been destroyed
    | Quit                   // the player left: the game has been destroyed
    | Hung                   // no probe names an empty cell: the turn never ends

  datatype Key = Push(d: Direction) | Leave | Other

  function KeyOf(c: char): Key
  {
    match c
    case 'w' => Push(W)
    case 'a' => Push(A)
    case 's' => Push(S)
    case 'd' => Push(D)
    case 'q' => Leave
    case _ => Other
  }

  ghost predicate IsState(rows: nat, cols: nat, s: State)
  {
    IsBoard(rows, cols, s.cells) && s.cells != []
  }

  ghost function Judged(rows: nat, cols: nat, s: State): Outcome
    requires IsState(rows, cols, s)
  {
    if Legal(rows, cols, s.cells) then Playing(s) else Over(s)
  }

  /** Pushing in direction `d` either does nothing or leaves room for the new tile to be placed. */
  ghost predicate CanPush(rows: nat, cols: nat, s: State, d: Direction)
    requires IsState(rows, cols, s)
  {
    var b := MoveBoard(d, rows, cols, s.cells);
    b == s.cells || CanSpawn(b)
  }

  /** A push and, if it moved anything, a new tile. */
  ghost function Pushed(rows: nat, cols: nat, s: State, d: Direction): (r: State)
    requires IsState(rows, cols, s) && CanPush(rows, cols, s, d)
    ensures IsState(rows, cols, r)
  {
    var b := MoveBoard(d, rows, cols, s.cells);
    if b == s.cells then s
    else State(Spawned(b, s.index).0, s.score + ScoreOfMove(d, rows, cols, s.cells), Spawned(b, s.index).1)
  }

  /** The outcome of one key. */
  ghost function Turn(rows: nat, cols: nat, s: State, key: char): (o: Outcome)
    requires IsState(rows, cols, s)
    ensures o.Playing? || o.Over? ==> IsState(rows, cols, o.state)
  {
    match KeyOf(key)
    case Leave => Quit
    case Other => Judged(rows, cols, s)
    case Push(d) => if CanPush(rows, cols, s, d) then Judged(rows, cols, Pushed(rows, cols, s, d)) else Hung
  }

  function Blank(rows: nat, cols: nat): seq<int>
  {
    Holes(rows * cols)
  }

  /** A new game: the first tile on an empty board. */
  ghost function Start(rows: nat, cols: nat, index: nat): (s: State)
    requires rows * cols > 0
    ensures IsState(rows, cols, s)
  {
    var b := Blank(rows, cols);
    assert Hits(b, 0);
    State(Spawned(b, index).0, 0, Spawned(b, index).1)
  }

  /** The outcome of a whole play; keys after its end are not read. */
  ghost function Play(rows: nat, cols: nat, index: nat, keys: seq<char>): (o: Outcome)
    requires rows * cols > 0
    ensures o.Playing? || o.Over? ==> IsState(rows, cols, o.state)
  {
    if keys == [] then Playing(Start(rows, cols, index))
    else
      match Play(rows, cols, index, keys[..|keys| - 1])
      case Playing(s) => Turn(rows, cols, s, keys[|keys| - 1])
      case o => o
  }

  // ---------- the keys, by character ----------

  /** The cell in row `r` and column `c`, both counted from 0. */
  function At(rows: nat, cols: nat, b: seq<int>, r: nat, c: nat): int
    requires IsBoard(rows, cols, b) && r < rows && c < cols
  {
    IndexInRange(rows, cols, r, c);
    b[r * cols + c]
  }

  /** A column from the top. */
  function FromTop(rows: nat, cols: nat, b: seq<int>, c: nat): (s: seq<int>)
    requires IsBoard(rows, cols, b) && c < cols
    ensures |s| == rows && forall k :: 0 <= k < rows ==> s[k] == At(rows, cols, b, k, c)
  {
    seq(rows, k requires 0 <= k < rows => At(rows, cols, b, k, c))
  }

  /** A row from the left. */
  function FromLeft(rows: nat, cols: nat, b: seq<int>, r: nat): (s: seq<int>)
    requires IsBoard(rows, cols, b) && r < rows
    ensures |s| == cols && forall k :: 0 <= k < cols ==> s[k] == At(rows, cols, b, r, k)
  {
    seq(cols, k requires 0 <= k < cols => At(rows, cols, b, r, k))
  }

  /** `m` is `b` after the tiles have been pushed up, down, to the left or to the right. */
  ghost predicate PushedUp(rows: nat, cols: nat, b: seq<int>, m: seq<int>)
    requires IsBoard(rows, cols, b) && IsBoard(rows, cols, m)
  {
    forall c :: 0 <= c < cols ==> FromTop(rows, cols, m, c) == Slide(FromTop(rows, cols, b, c))
  }

  ghost predicate PushedDown(rows: nat, cols: nat, b: seq<int>, m: seq<int>)
    requires IsBoard(rows, cols, b) && IsBoard(rows, cols, m)
  {
    forall c :: 0 <= c < cols ==> Reverse(FromTop(rows, cols, m, c)) == Slide(Reverse(FromTop(rows, cols, b, c)))
  }

  ghost predicate PushedLeft(rows: nat, cols: nat, b: seq<int>, m: seq<int>)
    requires IsBoard(rows, cols, b) && IsBoard(rows, cols, m)
  {
    forall r :: 0 <= r < rows ==> FromLeft(rows, cols, m, r) == Slide(FromLeft(rows, cols, b, r))
  }

  ghost predicate PushedRight(rows: nat, cols: nat, b: seq<int>, m: seq<int>)
    requires IsBoard(rows, cols, b) && IsBoard(rows, cols, m)
  {
    forall r :: 0 <= r < rows ==> Reverse(FromLeft(rows, cols, m, r)) == Slide(Reverse(FromLeft(rows, cols, b, r)))
  }

  lemma ColumnIsLine(rows: nat, cols: nat, b: seq<int>, c: nat)
    requires IsBoard(rows, cols, b) && c < cols
    ensures ReadLine(W, rows, cols, b, c) == FromTop(rows, cols, b, c)
    ensures ReadLine(S, rows, cols, b, c) == Reverse(FromTop(rows, cols, b, c))
  {
    forall k | 0 <= k < rows
      ensures ReadLine(W, rows, cols, b, c)[k] == FromTop(rows, cols, b, c)[k]
      ensures ReadLine(S, rows, cols, b, c)[k] == FromTop(rows, cols, b, c)[rows - 1 - k]
    {
      assert LineCell(W, rows, cols, c, k) == k * cols + c;
      assert LineCell(S, rows, cols, c, k) == (rows - 1 - k) * cols + c;
    }
  }

  lemma RowIsLine(rows: nat, cols: nat, b: seq<int>, r: nat)
    requires IsBoard(rows, cols, b) && r < rows
    ensures ReadLine(A, rows, cols, b, r) == FromLeft(rows, cols, b, r)
    ensures ReadLine(D, rows, cols, b, r) == Reverse(FromLeft(rows, cols, b, r))
  {
    forall k | 0 <= k < cols
      ensures ReadLine(A, rows, cols, b, r)[k] == FromLeft(rows, cols, b, r)[k]
      ensures ReadLine(D, rows, cols, b, r)[k] == FromLeft(rows, cols, b, r)[cols - 1 - k]
    {
      assert LineCell(A, rows, cols, r, k) == r * cols + k;
      assert LineCell(D, rows, cols, r, k) == r * cols + (cols - 1 - k);
    }
  }

  /** The four moves in rows and columns. */
  lemma MovesByWall(rows: nat, cols: nat, b: seq<int>)
    requires IsBoard(rows, cols, b)
    ensures PushedUp(rows, cols, b, MoveBoard(W, rows, cols, b))
    ensures PushedDown(rows, cols, b, MoveBoard(S, rows, cols, b))
    ensures PushedLeft(rows, cols, b, MoveBoard(A, rows, cols, b))
    ensures PushedRight(rows, cols, b, MoveBoard(D, rows, cols, b))
  {
    forall c | 0 <= c < cols
      ensures FromTop(rows, cols, MoveBoard(W, rows, cols, b), c) == Slide(FromTop(rows, cols, b, c))
      ensures Reverse(FromTop(rows, cols, MoveBoard(S, rows, cols, b), c)) == Slide(Reverse(FromTop(rows, cols, b, c)))
    {
      ColumnMoves(rows, cols, b, c);
    }
    forall r | 0 <= r < rows
      ensures FromLeft(rows, cols, MoveBoard(A, rows, cols, b), r) == Slide(FromLeft(rows, cols, b, r))
      ensures Reverse(FromLeft(rows, cols, MoveBoard(D, rows, cols, b), r)) ==
        Slide(Reverse(FromLeft(rows, cols, b, r)))
    {
      RowMoves(rows, cols, b, r);
    }
  }

  lemma ColumnMoves(rows: nat, cols: nat, b: seq<int>, c: nat)
    requires IsBoard(rows, cols, b) && c < cols
    ensures FromTop(rows, cols, MoveBoard(W, rows, cols, b), c) == Slide(FromTop(rows, cols, b, c))
    ensures Reverse(FromTop(rows, cols, MoveBoard(S, rows, cols, b), c)) == Slide(Reverse(FromTop(rows, cols, b, c)))
  {
    hide MoveBoard, Slide, ReadLine, FromTop, Reverse;
    ColumnIsLine(rows, cols, b, c);
    ColumnIsLine(rows, cols, MoveBoard(W, rows, cols, b), c);
    ColumnIsLine(rows, cols, MoveBoard(S, rows, cols, b), c);
    MovedLine(W, rows, cols, b, c);
    MovedLine(S, rows, cols, b, c);
  }

  lemma RowMoves(rows: nat, cols: nat, b: seq<int>, r: nat)
    requires IsBoard(rows, cols, b) && r < rows
    ensures FromLeft(rows, cols, MoveBoard(A, rows, cols, b), r) == Slide(FromLeft(rows, cols, b, r))
    ensures Reverse(FromLeft(rows, cols, MoveBoard(D, rows, cols, b), r)) == Slide(Reverse(FromLeft(rows, cols, b, r)))
  {
    hide MoveBoard, Slide, ReadLine, FromLeft, Reverse;
    RowIsLine(rows, cols, b, r);
    RowIsLine(rows, cols, MoveBoard(A, rows, cols, b), r);
    RowIsLine(rows, cols, MoveBoard(D, rows, cols, b), r);
    MovedLine(A, rows, cols, b, r);
    MovedLine(D, rows, cols, b, r);
  }

  /** The push that a letter asks for: w up, s down, a to the left, d to the right. */
  ghost predicate PushedByLetter(key: char, rows: nat, cols: nat, b: seq<int>, m: seq<int>)
    requires IsBoard(rows, cols, b) && IsBoard(rows, cols, m)
  {
    && (key == 'w' ==> PushedUp(rows, cols, b, m))
    && (key == 's' ==> PushedDown(rows, cols, b, m))
    && (key == 'a' ==> PushedLeft(rows, cols, b, m))
    && (key == 'd' ==> PushedRight(rows, cols, b, m))
  }

  ghost predicate IsLetter(key: char)
  {
    key == 'w' || key == 'a' || key == 's' || key == 'd'
  }

  /**
   The turn of every key. The letters push, and what follows is the pushed board if nothing moved,
   and otherwise the pushed board with a 2 in one hole; q leaves; any other key changes nothing.
   */
  lemma TurnByKey(rows: nat, cols: nat, s: State, key: char)
    requires IsState(rows, cols, s)
    ensures var o := Turn(rows, cols, s, key);
      && (o == Quit <==> key == 'q')
      && (key != 'q' && !IsLetter(key) ==> (o.Playing? || o.Over?) && o.state == s)
      && (IsLetter(key) && (o.Playing? || o.Over?) ==> exists m: seq<int> ::
            && IsBoard(rows, cols, m) && PushedByLetter(key, rows, cols, s.cells, m)
            && if m == s.cells then o.state == s
               else exists p :: 0 <= p < |m| && m[p] == -1 && o.state.cells == m[p := 2])
  {
    MovesByWall(rows, cols, s.cells);
    hide MoveBoard, PushedUp, PushedDown, PushedLeft, PushedRight, Legal;
    if IsLetter(key) && CanPush(rows, cols, s, KeyOf(key).d) {
      var m := MoveBoard(KeyOf(key).d, rows, cols, s.cells);
      assert PushedByLetter(key, rows, cols, s.cells, m);
      if m != s.cells {
        SpawnFillsOneHole(m, s.index);
      }
    }
  }
}

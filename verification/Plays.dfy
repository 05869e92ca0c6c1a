/** Whole plays: what holds after any sequence of keys, and the driver that runs one. */
module Plays {
  import opened Common
  import opened Lines
  import opened Board
  import opened Spawn
  import opened Rules
  import opened Conservation
  import opened Heap
  import opened Game

  /** The number of tiles that have appeared in a play. */
  ghost function Spawns(rows: nat, cols: nat, index: nat, keys: seq<char>): nat
    requires rows * cols > 0
  {
    if keys == [] then 1
    else
      var before := Spawns(rows, cols, index, keys[..|keys| - 1]);
      match Play(rows, cols, index, keys[..|keys| - 1])
      case Playing(s) =>
        (match KeyOf(keys[|keys| - 1])
         case Push(d) => if MoveBoard(d, rows, cols, s.cells) != s.cells then before + 1 else before
         case _ => before)
      case _ => before
  }

  ghost predicate SoundState(rows: nat, cols: nat, s: State, spawns: nat)
  {
    Sound(rows * cols, s.cells, s.score, spawns)
  }

  lemma StartSound(rows: nat, cols: nat, index: nat)
    requires rows * cols > 0
    ensures SoundState(rows, cols, Start(rows, cols, index), 1)
  {
    var b := Blank(rows, cols);
    BlankSound(rows * cols);
    assert Hits(b, 0);
    SpawnedSound(rows * cols, b, index, 0, 0);
  }

  lemma PushSound(rows: nat, cols: nat, s: State, d: Direction, spawns: nat)
    requires IsState(rows, cols, s) && CanPush(rows, cols, s, d) && SoundState(rows, cols, s, spawns)
    ensures SoundState(rows, cols, Pushed(rows, cols, s, d),
              if MoveBoard(d, rows, cols, s.cells) != s.cells then spawns + 1 else spawns)
  {
    var b := MoveBoard(d, rows, cols, s.cells);
    if b != s.cells {
      MoveSound(d, rows, cols, s.cells, s.score, spawns);
      SpawnedSound(rows * cols, b, s.index, s.score + ScoreOfMove(d, rows, cols, s.cells), spawns);
    }
  }

  /**
   In every play: each cell is a hole or a power of two, the tiles add up to twice the number of
   tiles that appeared, the score is what building the tiles on the board has earned, and for
   each k there are at most n + 1 - k tiles of at least 2^k.
   */
  lemma {:induction false} PlaySound(rows: nat, cols: nat, index: nat, keys: seq<char>)
    requires rows * cols > 0
    ensures var o := Play(rows, cols, index, keys);
      o.Playing? || o.Over? ==> SoundState(rows, cols, o.state, Spawns(rows, cols, index, keys))
    decreases |keys|
  {
    if keys == [] {
      StartSound(rows, cols, index);
    } else {
      var before := keys[..|keys| - 1];
      PlaySound(rows, cols, index, before);
      var o := Play(rows, cols, index, before);
      if o.Playing? {
        var key := KeyOf(keys[|keys| - 1]);
        if key.Push? && CanPush(rows, cols, o.state, key.d) {
          PushSound(rows, cols, o.state, key.d, Spawns(rows, cols, index, before));
        }
      }
    }
  }

  /** In every play no tile exceeds 2^n and the score stays within (n - 2) * 2^(n+1) + 4. */
  lemma PlayBounds(rows: nat, cols: nat, index: nat, keys: seq<char>)
    requires rows * cols > 0
    ensures var n, o := rows * cols, Play(rows, cols, index, keys);
      o.Playing? || o.Over? ==>
        && o.state.score <= (n - 2) * Pow2(n + 1) + 4
        && forall v :: v in o.state.cells ==> v <= Pow2(n)
  {
    var n, o := rows * cols, Play(rows, cols, index, keys);
    PlaySound(rows, cols, index, keys);
    if o.Playing? || o.Over? {
      var s, spawns := o.state, Spawns(rows, cols, index, keys);
      LargestScore(n, s.cells, s.score, spawns);
      forall v | v in s.cells ensures v <= Pow2(n) {
        var p :| 0 <= p < n && s.cells[p] == v;
        LargestTile(n, s.cells, s.score, spawns, p);
      }
    }
  }

  lemma {:induction false} ScoreLimitMonotone(n: nat, m: nat)
    requires 2 <= n <= m
    ensures (n - 2) * Pow2(n + 1) <= (m - 2) * Pow2(m + 1)
    decreases m
  {
    if n < m {
      ScoreLimitMonotone(n, m - 1);
      var q := Pow2(m);
      assert Pow2(m + 1) == 2 * q;
      MulMonotone(q, m - 3, 2 * (m - 2));
      assert (m - 2) * (2 * q) == q * (2 * (m - 2));
    }
  }

  lemma PowersUpTo26()
    ensures Pow2(25) == 0x200_0000 && Pow2(26) == 0x400_0000
  {
    assert Pow2(8) == 256;
    assert Pow2(16) == 0x1_0000;
    assert Pow2(24) == 0x100_0000;
  }

  lemma ScoreLimit(n: nat)
    requires 1 <= n <= 25
    ensures (n - 2) * Pow2(n + 1) + 4 <= 23 * 0x400_0000 + 4
  {
    PowersUpTo26();
    if n >= 2 {
      ScoreLimitMonotone(n, 25);
    } else {
      assert Pow2(2) == 4;
    }
  }

  /** On boards of up to 25 cells neither a tile nor the score ever leaves the range of a 32-bit int. */
  lemma PlayFitsInt32(rows: nat, cols: nat, index: nat, keys: seq<char>)
    requires 0 < rows * cols <= 25
    ensures var o := Play(rows, cols, index, keys);
      o.Playing? || o.Over? ==> o.state.score < 0x8000_0000 && forall v :: v in o.state.cells ==> v < 0x8000_0000
  {
    var n := rows * cols;
    PlayBounds(rows, cols, index, keys);
    assert (n - 2) * Pow2(n + 1) + 4 < 0x8000_0000 && Pow2(n) < 0x8000_0000 by {
      ScoreLimit(n);
      PowersUpTo26();
      PowMonotone(n, 25);
    }
  }

  lemma TurnBoardHasTile(rows: nat, cols: nat, s: State, spawns: nat)
    requires SoundState(rows, cols, s, spawns) && spawns > 0
    ensures exists p :: 0 <= p < |s.cells| && s.cells[p] != HOLE
  {
    if forall p :: 0 <= p < |s.cells| ==> s.cells[p] == HOLE {
      assert s.cells == Holes(|s.cells|);
      TotalOfHoles(TileSum, |s.cells|);
      assert false;
    }
  }

  lemma {:induction false} SomethingSpawned(rows: nat, cols: nat, index: nat, keys: seq<char>)
    requires rows * cols > 0
    ensures Spawns(rows, cols, index, keys) > 0
    decreases |keys|
  {
    if keys != [] {
      SomethingSpawned(rows, cols, index, keys[..|keys| - 1]);
    }
  }

  /** A turn reports game over exactly when none of the four moves would change the board. */
  lemma GameOverIsExact(rows: nat, cols: nat, index: nat, keys: seq<char>)
    requires rows * cols > 0 && keys != []
    ensures var o := Play(rows, cols, index, keys);
      && (o.Playing? ==> Movable(rows, cols, o.state.cells))
      && (o.Over? ==> !Movable(rows, cols, o.state.cells))
  {
    var o := Play(rows, cols, index, keys);
    if o.Playing? || o.Over? {
      PlaySound(rows, cols, index, keys);
      SomethingSpawned(rows, cols, index, keys);
      TurnBoardHasTile(rows, cols, o.state, Spawns(rows, cols, index, keys));
      LegalIsExact(rows, cols, o.state.cells);
      PlayIsJudged(rows, cols, index, keys);
    }
  }

  lemma {:induction false} PlayIsJudged(rows: nat, cols: nat, index: nat, keys: seq<char>)
    requires rows * cols > 0 && keys != []
    ensures var o := Play(rows, cols, index, keys);
      && (o.Playing? ==> Legal(rows, cols, o.state.cells))
      && (o.Over? ==> !Legal(rows, cols, o.state.cells))
    decreases |keys|
  {
    if |keys| > 1 {
      PlayIsJudged(rows, cols, index, keys[..|keys| - 1]);
    }
  }

  // ---------- turns that never end ----------

  /**
   The promise that a tile can be placed after every move that changed the board is too strong:
   a turn never ends exactly when its key moves the board and all entries of the table, however
   long they are walked through, name cells that are then occupied.
   */
  lemma TurnHangsExactly(rows: nat, cols: nat, s: State, key: char)
    requires IsState(rows, cols, s)
    ensures Turn(rows, cols, s, key) == Hung <==>
      KeyOf(key).Push? &&
      var b := MoveBoard(KeyOf(key).d, rows, cols, s.cells);
      b != s.cells && forall h :: h > s.index ==> !Hits(b, h)
  {
    if KeyOf(key).Push? {
      ProbingStops(MoveBoard(KeyOf(key).d, rows, cols, s.cells), s.index);
    }
  }

  /** On a board of at most four cells no play hangs. */
  lemma {:induction false} SmallBoardsNeverHang(rows: nat, cols: nat, index: nat, keys: seq<char>)
    requires 0 < rows * cols <= 4
    ensures Play(rows, cols, index, keys) != Hung
    decreases |keys|
  {
    if keys != [] {
      var before, key := keys[..|keys| - 1], keys[|keys| - 1];
      SmallBoardsNeverHang(rows, cols, index, before);
      var o := Play(rows, cols, index, before);
      if o.Playing? && KeyOf(key).Push? {
        HolesAreNamedExactly(rows * cols);
        var b := MoveBoard(KeyOf(key).d, rows, cols, o.state.cells);
        if b != o.state.cells {
          ChangedBoardHasHole(KeyOf(key).d, rows, cols, o.state.cells);
        }
      }
    }
  }

  lemma OnlyRow(cols: nat, b: seq<int>)
    requires |b| == cols
    ensures ReadLine(A, 1, cols, b, 0) == b && ReadLine(D, 1, cols, b, 0) == Reverse(b)
  {
  }

  lemma OneRowLeft(cols: nat, b: seq<int>)
    requires |b| == cols
    ensures MoveBoard(A, 1, cols, b) == Slide(b)
  {
    MovedLine(A, 1, cols, b, 0);
    OnlyRow(cols, b);
    OnlyRow(cols, MoveBoard(A, 1, cols, b));
  }

  lemma ReverseTwice(b: seq<int>)
    ensures Reverse(Reverse(b)) == b
  {
  }

  lemma OneRowRight(cols: nat, b: seq<int>)
    requires |b| == cols
    ensures MoveBoard(D, 1, cols, b) == Reverse(Slide(Reverse(b)))
  {
    var d := MoveBoard(D, 1, cols, b);
    MovedLine(D, 1, cols, b, 0);
    OnlyRow(cols, b);
    OnlyRow(cols, d);
    ReverseTwice(d);
  }

  /** After `keys`, a game of one row of five cells goes on with board `b` and table position `i`. */
  ghost predicate Reached(keys: seq<char>, b: seq<int>, i: nat)
  {
    var o := Play(1, 5, 0, keys);
    o.Playing? && o.state.cells == b && o.state.index == i
  }

  /** Key `key` turns `b` into `moved`, and the new tile, placed by table entry `h`, into `next`. */
  ghost predicate Leads(b: seq<int>, i: nat, key: char, moved: seq<int>, h: nat, next: seq<int>)
  {
    && |b| == |moved| == 5 && moved != b
    && ((key == 'a' && moved == Slide(b)) || (key == 'd' && moved == Reverse(Slide(Reverse(b)))))
    && i < h < 10 && Hits(moved, h) && (forall k :: i < k < h ==> !Hits(moved, k))
    && next == moved[ProbeCell(5, h) := 2] && HOLE in next
  }

  lemma SpawnLeads(moved: seq<int>, i: nat, h: nat)
    requires |moved| == 5 && i < h < 10 && Hits(moved, h) && (forall k :: i < k < h ==> !Hits(moved, k))
    ensures CanSpawn(moved)
    ensures Spawned(moved, i) == (moved[ProbeCell(5, h) := 2], h)
  {
    ProbingStops(moved, i);
    NextHitUnique(moved, i, h);
    EverySpawnIsTwo(h);
  }

  lemma MoveLeads(b: seq<int>, key: char, moved: seq<int>)
    requires |b| == 5
    requires (key == 'a' && moved == Slide(b)) || (key == 'd' && moved == Reverse(Slide(Reverse(b))))
    ensures KeyOf(key).Push? && MoveBoard(KeyOf(key).d, 1, 5, b) == moved
  {
    if key == 'a' {
      OneRowLeft(5, b);
    } else {
      OneRowRight(5, b);
    }
  }

  lemma TurnLeads(s: State, key: char, moved: seq<int>, h: nat, next: seq<int>)
    requires Leads(s.cells, s.index, key, moved, h, next)
    ensures var o := Turn(1, 5, s, key);
      o.Playing? && o.state.cells == next && o.state.index == h
  {
    MoveLeads(s.cells, key, moved);
    SpawnLeads(moved, s.index, h);
  }

  lemma ReachedNext(keys: seq<char>, b: seq<int>, i: nat, moved: seq<int>, h: nat, next: seq<int>)
    requires keys != [] && Reached(keys[..|keys| - 1], b, i) && Leads(b, i, keys[|keys| - 1], moved, h, next)
    ensures Reached(keys, next, h)
  {
    TurnLeads(Play(1, 5, 0, keys[..|keys| - 1]).state, keys[|keys| - 1], moved, h, next);
  }

  lemma TilesOfFive(a: int, b: int, c: int, d: int, e: int)
    ensures Tiles([a, b, c, d, e]) == Tiles([a]) + Tiles([b]) + Tiles([c]) + Tiles([d]) + Tiles([e])
    ensures Reverse([a, b, c, d, e]) == [e, d, c, b, a]
  {
    TilesConcat([a, b, c, d], [e]);
    TilesConcat([a, b, c], [d]);
    TilesConcat([a, b], [c]);
    TilesConcat([a], [b]);
    assert [a, b, c, d, e] == [a, b, c, d] + [e] && [a, b, c, d] == [a, b, c] + [d] && [a, b, c] == [a, b] + [c] &&
      [a, b] == [a] + [b];
  }

  lemma Probes()
    ensures ProbeCell(5, 0) == 4 && ProbeCell(5, 1) == 3 && ProbeCell(5, 2) == 3 && ProbeCell(5, 3) == 3 &&
      ProbeCell(5, 4) == 3
    ensures ProbeCell(5, 5) == 3 && ProbeCell(5, 6) == 2 && ProbeCell(5, 7) == 3 && ProbeCell(5, 8) == 4 &&
      ProbeCell(5, 9) == 3
  {
  }

  lemma FirstTile(keys: seq<char>)
    requires keys == []
    ensures Reached(keys, [HOLE, HOLE, HOLE, 2, HOLE], 1)
  {
    var b := Blank(1, 5);
    Probes();
    assert b == [HOLE, HOLE, HOLE, HOLE, HOLE] && Hits(b, 1);
    NextHitUnique(b, 0, 1);
    EverySpawnIsTwo(1);
  }

  lemma SlideOfFive(s: seq<int>, m: seq<int>, r: seq<int>)
    requires |s| == |r| == 5 && PairMerge(Tiles(s)) == m && |m| <= 5
    requires forall k :: 0 <= k < 5 ==> r[k] == if k < |m| then m[k] else HOLE
    ensures Slide(s) == r
  {
  }

  lemma MergeUnequal(t: seq<int>)
    requires forall i :: 0 <= i < |t| - 1 ==> t[i] != t[i + 1]
    ensures PairMerge(t) == t
  {
    MergeShortens(t);
  }

  lemma SecondTile()
    ensures Leads([HOLE, HOLE, HOLE, 2, HOLE], 1, 'a', [2, HOLE, HOLE, HOLE, HOLE], 2, [2, HOLE, HOLE, 2, HOLE])
  {
    Probes();
    TilesOfFive(HOLE, HOLE, HOLE, 2, HOLE);
    var b, next := [HOLE, HOLE, HOLE, 2, HOLE], [2, HOLE, HOLE, 2, HOLE];
    assert Tiles(b) == [2];
    MergeUnequal([2]);
    SlideOfFive(b, [2], [2, HOLE, HOLE, HOLE, HOLE]);
    assert next[1] == HOLE;
  }

  lemma ThirdTile()
    ensures Leads([2, HOLE, HOLE, 2, HOLE], 2, 'a', [4, HOLE, HOLE, HOLE, HOLE], 3, [4, HOLE, HOLE, 2, HOLE])
  {
    Probes();
    TilesOfFive(2, HOLE, HOLE, 2, HOLE);
    var b, next := [2, HOLE, HOLE, 2, HOLE], [4, HOLE, HOLE, 2, HOLE];
    var t := [2, 2];
    assert Tiles(b) == t && t[2..] == [] && PairMerge(t) == [4];
    SlideOfFive(b, [4], [4, HOLE, HOLE, HOLE, HOLE]);
    assert next[1] == HOLE;
  }

  lemma FourthTile()
    ensures Leads([4, HOLE, HOLE, 2, HOLE], 3, 'd', [HOLE, HOLE, HOLE, 4, 2], 6, [HOLE, HOLE, 2, 4, 2])
  {
    FourthMove();
    var moved, next := [HOLE, HOLE, HOLE, 4, 2], [HOLE, HOLE, 2, 4, 2];
    Probes();
    assert next[1] == HOLE;
    forall k | 3 < k < 6 ensures !Hits(moved, k) {
      assert k == 4 || k == 5;
    }
  }

  lemma FourthMove()
    ensures Reverse(Slide(Reverse([4, HOLE, HOLE, 2, HOLE]))) == [HOLE, HOLE, HOLE, 4, 2]
  {
    TilesOfFive(4, HOLE, HOLE, 2, HOLE);
    TilesOfFive(HOLE, 2, HOLE, HOLE, 4);
    TilesOfFive(2, 4, HOLE, HOLE, HOLE);
    var b, r := [HOLE, 2, HOLE, HOLE, 4], [2, 4, HOLE, HOLE, HOLE];
    var t := [2, 4];
    assert Tiles(b) == t;
    MergeUnequal(t);
    SlideOfFive(b, t, r);
  }

  lemma FifthTile()
    ensures Leads([HOLE, HOLE, 2, 4, 2], 6, 'a', [2, 4, 2, HOLE, HOLE], 7, [2, 4, 2, 2, HOLE])
  {
    Probes();
    TilesOfFive(HOLE, HOLE, 2, 4, 2);
    var b, next := [HOLE, HOLE, 2, 4, 2], [2, 4, 2, 2, HOLE];
    var t := [2, 4, 2];
    assert Tiles(b) == t;
    MergeUnequal(t);
    SlideOfFive(b, t, [2, 4, 2, HOLE, HOLE]);
    assert next[4] == HOLE;
  }

  lemma LastBoard()
    ensures MoveBoard(D, 1, 5, [2, 4, 2, 2, HOLE]) == [HOLE, HOLE, 2, 4, 4]
  {
    var b, r := [2, 4, 2, 2, HOLE], [4, 4, 2, HOLE, HOLE];
    TilesOfFive(2, 4, 2, 2, HOLE);
    TilesOfFive(HOLE, 2, 2, 4, 2);
    var t := [2, 2, 4, 2];
    assert t[2..] == [4, 2];
    MergeUnequal([4, 2]);
    assert Tiles(Reverse(b)) == t && PairMerge(t) == [4, 4, 2];
    SlideOfFive(Reverse(b), [4, 4, 2], r);
    TilesOfFive(4, 4, 2, HOLE, HOLE);
    OneRowRight(5, b);
  }

  lemma LastBoardIsStuck()
    ensures !CanSpawn([HOLE, HOLE, 2, 4, 4])
  {
    var moved := [HOLE, HOLE, 2, 4, 4];
    forall i | 0 <= i < 10 ensures moved[ProbeCell(5, i)] != HOLE {
      Probes();
      assert ProbeCell(5, i) >= 2;
    }
  }

  lemma TwoKeys(keys: seq<char>)
    requires keys == ['a', 'a']
    ensures Reached(keys, [4, HOLE, HOLE, 2, HOLE], 3)
  {
    var one := keys[..1];
    FirstTile(one[..0]);
    SecondTile();
    ReachedNext(one, [HOLE, HOLE, HOLE, 2, HOLE], 1, [2, HOLE, HOLE, HOLE, HOLE], 2, [2, HOLE, HOLE, 2, HOLE]);
    ThirdTile();
    ReachedNext(keys, [2, HOLE, HOLE, 2, HOLE], 2, [4, HOLE, HOLE, HOLE, HOLE], 3, [4, HOLE, HOLE, 2, HOLE]);
  }

  lemma FourKeys(keys: seq<char>)
    requires keys == ['a', 'a', 'd', 'a']
    ensures Reached(keys, [2, 4, 2, 2, HOLE], 7)
  {
    var three := keys[..3];
    TwoKeys(three[..2]);
    FourthTile();
    ReachedNext(three, [4, HOLE, HOLE, 2, HOLE], 3, [HOLE, HOLE, HOLE, 4, 2], 6, [HOLE, HOLE, 2, 4, 2]);
    FifthTile();
    ReachedNext(keys, [HOLE, HOLE, 2, 4, 2], 6, [2, 4, 2, HOLE, HOLE], 7, [2, 4, 2, 2, HOLE]);
  }

  lemma StuckTurn(s: State)
    requires IsState(1, 5, s) && !CanPush(1, 5, s, D)
    ensures Turn(1, 5, s, 'd') == Hung
  {
  }

  /**
   A play that never ends: from the start of a game of one row of five cells, left, left, right,
   left, right leads to a board with two holes, neither of which the table names.
   */
  lemma PlayHangsWithRoom(keys: seq<char>)
    requires keys == ['a', 'a', 'd', 'a', 'd']
    ensures Play(1, 5, 0, keys) == Hung
    ensures Reached(keys[..4], [2, 4, 2, 2, HOLE], 7)
    ensures MoveBoard(D, 1, 5, [2, 4, 2, 2, HOLE]) == [HOLE, HOLE, 2, 4, 4]
  {
    FourKeys(keys[..4]);
    LastBoard();
    LastBoardIsStuck();
    StuckTurn(Play(1, 5, 0, keys[..4]).state);
  }

  /** The first tile of a game of 4 x 4, when no game was played before, is a 2 in the last column of the third row. */
  lemma FirstTileOfFour()
    ensures Start(4, 4, 0).cells == Holes(16)[11 := 2] && Start(4, 4, 0).score == 0
  {
    assert ProbeCell(16, 1) == 11;
    assert Hits(Holes(16), 1);
    NextHitUnique(Holes(16), 0, 1);
    EverySpawnIsTwo(1);
  }

  // ---------- the driver ----------

  lemma {:induction false} PlayStable(rows: nat, cols: nat, index: nat, keys: seq<char>, k: nat)
    requires rows * cols > 0 && k <= |keys|
    requires !Play(rows, cols, index, keys[..k]).Playing?
    ensures Play(rows, cols, index, keys) == Play(rows, cols, index, keys[..k])
    decreases |keys|
  {
    if k == |keys| {
      assert keys[..k] == keys;
    } else {
      var before := keys[..|keys| - 1];
      assert before[..k] == keys[..k];
      PlayStable(rows, cols, index, before, k);
    }
  }

  /** What the two requests of a new game come to. */
  ghost predicate RequestsEnd(t: Table, behind: Bytes, rows: nat, cols: nat)
  {
    && rows * cols * CELL_BYTES < 0x1_0000_0000
    && SearchOutcome(t, behind, UnitsFor(GAME_BYTES)) != Spins
    && (SearchOutcome(t, behind, UnitsFor(GAME_BYTES)).Found? ==>
          SearchOutcome(WithGame(t, behind), behind, UnitsFor(rows * cols * CELL_BYTES)) != Spins)
  }

  /** The table once the game structure has been allocated. */
  function WithGame(t: Table, behind: Bytes): Table
  {
    match SearchOutcome(t, behind, UnitsFor(GAME_BYTES))
    case Found(i) => t[i := UnitsFor(GAME_BYTES)]
    case _ => t
  }

  /** Both requests of a new game are granted. */
  ghost predicate Granted(t: Table, behind: Bytes, rows: nat, cols: nat)
    requires rows * cols * CELL_BYTES < 0x1_0000_0000
  {
    && SearchOutcome(t, behind, UnitsFor(GAME_BYTES)).Found?
    && SearchOutcome(WithGame(t, behind), behind, UnitsFor(rows * cols * CELL_BYTES)).Found?
  }

  /**
   Allocates a game, all of whose cells are empty. When the second request is refused the block
   of the first one is never freed.
   */
  method MakeGame(rows: nat, cols: nat, index: nat, heap: Allocator) returns (g: Game?)
    requires heap.IsTable() && RequestsEnd(heap.View(), heap.behind, rows, cols)
    modifies heap.table
    ensures g != null <==> Granted(old(heap.View()), heap.behind, rows, cols)
    ensures g == null ==> heap.View() == WithGame(old(heap.View()), heap.behind)
    ensures g != null ==>
      && fresh(g) && fresh(g.cells) && g.IsGame() && g.rows == rows && g.cols == cols && g.Allocated()
      && g.View() == State(Blank(rows, cols), 0, index)
      && g.Freed(heap.View()) == old(heap.View())
  {
    var at := heap.Malloc(GAME_BYTES);
    if at == NULL {
      return null;
    }
    var cellsAt := heap.Malloc(rows * cols * CELL_BYTES);
    if cellsAt == NULL {
      return null;
    }
    g := new Game(rows, cols, at, cellsAt, index);
  }

  /** For a board of at most 9 x 9 cells both requests are for one unit, which always get an answer. */
  lemma SmallBoardsAreAnswered(t: Table, behind: Bytes, rows: nat, cols: nat)
    requires 1 <= rows <= 9 && 1 <= cols <= 9
    ensures RequestsEnd(t, behind, rows, cols)
  {
    AtMost81(rows, cols);
    SmallRequestEnds(t, behind, GAME_BYTES);
    SmallRequestEnds(WithGame(t, behind), behind, rows * cols * CELL_BYTES);
  }

  lemma AtMost81(rows: nat, cols: nat)
    requires 1 <= rows <= 9 && 1 <= cols <= 9
    ensures 1 <= rows * cols <= 81
  {
    MulMonotone(rows, cols, 9);
    MulMonotone(rows, 1, cols);
  }

  datatype Ending = NoMemory | Finished | Waiting

  /** After `k` keys the game of a play that ends, or is still going on, is in state `s`. */
  ghost predicate Underway(rows: nat, cols: nat, index: nat, keys: seq<char>, k: nat, s: State)
    requires rows * cols > 0
  {
    && k <= |keys| && IsState(rows, cols, s)
    && Play(rows, cols, index, keys) != Hung
    && Play(rows, cols, index, keys[..k]) == Playing(s)
  }

  /** The next turn of such a play returns; it goes on, or its outcome is that of the whole play. */
  lemma NextTurn(rows: nat, cols: nat, index: nat, keys: seq<char>, k: nat, s: State)
    requires rows * cols > 0 && k < |keys| && Underway(rows, cols, index, keys, k, s)
    ensures var o := Turn(rows, cols, s, keys[k]);
      && o != Hung
      && (o.Playing? ==> Underway(rows, cols, index, keys, k + 1, o.state))
      && (!o.Playing? ==> !Play(rows, cols, index, keys).Playing?)
  {
    var next := keys[..k + 1];
    assert next[..k] == keys[..k] && next[..|next| - 1] == keys[..k] && next[k] == keys[k];
    assert Play(rows, cols, index, next) == Turn(rows, cols, s, keys[k]);
    if !Play(rows, cols, index, next).Playing? {
      PlayStable(rows, cols, index, keys, k + 1);
    }
  }

  /**
   Plays a game from its first tile. `keys` is the input that arrives: the driver is `Waiting`
   when all of it has been read and the game still goes on.
   */
  method Start2048(rows: nat, cols: nat, index: nat, keys: seq<char>, heap: Allocator) returns (e: Ending)
    requires 1 <= rows <= 9 && 1 <= cols <= 9 && heap.IsTable()
    requires rows * cols > 0 && Play(rows, cols, index, keys) != Hung
    modifies heap.table
    ensures e == if !Granted(old(heap.View()), heap.behind, rows, cols) then NoMemory
                 else if Play(rows, cols, index, keys).Playing? then Waiting else Finished
    ensures e == Finished ==> heap.View() == old(heap.View())
    ensures e == NoMemory ==> heap.View() == WithGame(old(heap.View()), heap.behind)
  {
    SmallBoardsAreAnswered(heap.View(), heap.behind, rows, cols);
    var g := MakeGame(rows, cols, index, heap);
    if g == null {
      return NoMemory;
    }
    assert Hits(Blank(rows, cols), 0);
    g.RandNewTile();
    e := TakeTurns(g, index, keys, heap);
  }

  /** The loop of the driver. */
  method TakeTurns(g: Game, ghost index: nat, keys: seq<char>, heap: Allocator) returns (e: Ending)
    requires g.IsGame() && g.cells.Length > 0 && g.Allocated()
    requires heap.IsTable() && heap.table as object != g.cells
    requires g.rows * g.cols > 0 && Play(g.rows, g.cols, index, keys) != Hung
    requires g.View() == Start(g.rows, g.cols, index)
    modifies g, g.cells, heap.table
    ensures e == if Play(g.rows, g.cols, index, keys).Playing? then Waiting else Finished
    ensures heap.View() == if e == Finished then g.Freed(old(heap.View())) else old(heap.View())
  {
    hide Play;
    assert keys[..0] == [];
    FirstState(g.rows, g.cols, index);
    var k := 0;
    while k < |keys|
      invariant 0 <= k <= |keys|
      invariant g.IsGame() && g.cells.Length > 0 && g.Allocated()
      invariant Underway(g.rows, g.cols, index, keys, k, g.View())
      invariant heap.View() == old(heap.View())
    {
      NextTurn(g.rows, g.cols, index, keys, k, g.View());
      var goesOn := g.ProcessTurn(keys[k], heap);
      if !goesOn {
        return Finished;
      }
      k := k + 1;
    }
    assert keys[..k] == keys;
    return Waiting;
  }

  lemma FirstState(rows: nat, cols: nat, index: nat)
    requires rows * cols > 0
    ensures Play(rows, cols, index, []) == Playing(Start(rows, cols, index))
  {
  }
}

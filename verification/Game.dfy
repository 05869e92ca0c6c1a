/** The game object, which every move changes in place. */
module Game {
  import opened Common
  import opened Lines
  import opened Board
  import opened Spawn
  import opened Rules
  import opened Heap

  datatype Option<T> = None | Some(value: T)

  const GAME_BYTES: uint32 := 16
  const CELL_BYTES: nat := 4

  class Game {
    const rows: nat
    const cols: nat
    const cells: array<int>
    var score: int
    var indexRandom: nat

    // where the allocator placed the structure and its cells
    const at: nat
    const cellsAt: nat

    ghost predicate IsGame()
      reads this
    {
      cells.Length == rows * cols
    }

    ghost function View(): State
      reads this, cells
    {
      State(cells[..], score, indexRandom)
    }

    constructor (rows: nat, cols: nat, at: nat, cellsAt: nat, indexRandom: nat)
      ensures this.rows == rows && this.cols == cols && this.at == at && this.cellsAt == cellsAt
      ensures IsGame() && fresh(cells)
      ensures View() == State(Blank(rows, cols), 0, indexRandom)
    {
      this.rows, this.cols, this.at, this.cellsAt, this.indexRandom := rows, cols, at, cellsAt, indexRandom;
      var a := new int[rows * cols];
      for i := 0 to rows * cols
        invariant forall k :: 0 <= k < i ==> a[k] == HOLE
      {
        a[i] := HOLE;
      }
      cells := a;
      score := 0;
      new;
      assert cells[..] == Blank(rows, cols);
    }

    /** The index of a cell, if there is one. */
    function GetCell(row: int, col: int): (c: Option<nat>)
      reads this
      ensures c.Some? <==> 0 <= row < rows && 0 <= col < cols
      ensures c.Some? ==> c.value == row * cols + col && (IsGame() ==> c.value < cells.Length)
    {
      if row < 0 || row >= rows || col < 0 || col >= cols then None
      else IndexInRange(rows, cols, row, col); Some(Index(cols, row, col))
    }

    // ---------- one line ----------

    /** Moves the tile at `ix[k + 1]` into `ix[k]` if that cell is a hole. */
    method Pull(ix: seq<nat>, k: nat) returns (moved: bool)
      requires ValidLine(cells.Length, ix) && k + 1 < |ix|
      modifies cells
      ensures Read(cells[..], ix) == PullAt(old(Read(cells[..], ix)), k)
      ensures moved <==> Read(cells[..], ix) != old(Read(cells[..], ix))
      ensures SameOutside(ix, old(cells[..]), cells[..])
    {
      ghost var s := Read(cells[..], ix);
      PullAtKeepsTiles(s, k);
      moved := false;
      if cells[ix[k]] == HOLE {
        if cells[ix[k + 1]] != HOLE {
          cells[ix[k]] := cells[ix[k + 1]];
          cells[ix[k + 1]] := HOLE;
          moved := true;
        }
      }
      assert Read(cells[..], ix) == PullAt(s, k);
    }

    /** One pass over a line, scanning away from the wall: holes drift to the far end. */
    method PassNearFirst(ix: seq<nat>, ghost i: nat) returns (moved: bool)
      requires ValidLine(cells.Length, ix) && i < |ix| - 1
      requires FarSettled(Read(cells[..], ix), i)
      modifies cells
      ensures Tiles(Read(cells[..], ix)) == Tiles(old(Read(cells[..], ix)))
      ensures FarSettled(Read(cells[..], ix), i + 1)
      ensures SameOutside(ix, old(cells[..]), cells[..])
      ensures if moved then !Packed(old(Read(cells[..], ix))) else Read(cells[..], ix) == old(Read(cells[..], ix))
    {
      ghost var s0 := Read(cells[..], ix);
      ghost var s := s0;
      moved := false;
      var k := 0;
      while k < |ix| - 1
        invariant 0 <= k <= |ix| - 1
        invariant s == Read(cells[..], ix) && Tiles(s) == Tiles(s0)
        invariant if moved then !Packed(s0) else s == s0
        invariant SameOutside(ix, old(cells[..]), cells[..])
        invariant FarSettled(s, i) && HolesReach(s, k)
        invariant k >= |ix| - 1 - i ==> HolesReach(s, |ix| - 1 - i)
      {
        NearFirstStep(s, k, i);
        PullAtKeepsTiles(s, k);
        var m := Pull(ix, k);
        s := PullAt(s, k);
        moved := moved || m;
        k := k + 1;
      }
    }

    /** One pass over a line, scanning towards the wall: tiles drift to the wall. */
    method PassFarFirst(ix: seq<nat>, ghost i: nat) returns (moved: bool)
      requires ValidLine(cells.Length, ix) && i < |ix| - 1
      requires WallSettled(Read(cells[..], ix), i)
      modifies cells
      ensures Tiles(Read(cells[..], ix)) == Tiles(old(Read(cells[..], ix)))
      ensures WallSettled(Read(cells[..], ix), i + 1)
      ensures SameOutside(ix, old(cells[..]), cells[..])
      ensures if moved then !Packed(old(Read(cells[..], ix))) else Read(cells[..], ix) == old(Read(cells[..], ix))
    {
      ghost var s0 := Read(cells[..], ix);
      ghost var s := s0;
      moved := false;
      var k := |ix| - 1;
      while k > 0
        invariant 0 <= k <= |ix| - 1
        invariant s == Read(cells[..], ix) && Tiles(s) == Tiles(s0)
        invariant if moved then !Packed(s0) else s == s0
        invariant SameOutside(ix, old(cells[..]), cells[..])
        invariant WallSettled(s, i) && HolesFrom(s, k)
        invariant k <= i ==> HolesFrom(s, i)
      {
        k := k - 1;
        FarFirstStep(s, k, i);
        PullAtKeepsTiles(s, k);
        var m := Pull(ix, k);
        s := PullAt(s, k);
        moved := moved || m;
      }
    }

    /** Pushes the tiles of a line to the wall by passes that scan away from the wall. */
    method PackNearFirst(ix: seq<nat>) returns (moved: bool)
      requires ValidLine(cells.Length, ix)
      modifies cells
      ensures Read(cells[..], ix) == Compact(old(Read(cells[..], ix)))
      ensures SameOutside(ix, old(cells[..]), cells[..])
      ensures moved <==> !Packed(old(Read(cells[..], ix)))
    {
      ghost var s0 := Read(cells[..], ix);
      moved := false;
      var i := 0;
      while i < |ix| - 1
        invariant 0 <= i && (ix != [] ==> i <= |ix| - 1)
        invariant Tiles(Read(cells[..], ix)) == Tiles(s0)
        invariant if moved then !Packed(s0) else Read(cells[..], ix) == s0
        invariant SameOutside(ix, old(cells[..]), cells[..])
        invariant i <= |ix| && FarSettled(Read(cells[..], ix), i)
      {
        var m := PassNearFirst(ix, i);
        moved := moved || m;
        i := i + 1;
      }
      PackedWithTiles(s0, Read(cells[..], ix));
    }

    /** Pushes the tiles of a line to the wall by passes that scan towards the wall. */
    method PackFarFirst(ix: seq<nat>) returns (moved: bool)
      requires ValidLine(cells.Length, ix)
      modifies cells
      ensures Read(cells[..], ix) == Compact(old(Read(cells[..], ix)))
      ensures SameOutside(ix, old(cells[..]), cells[..])
      ensures moved <==> !Packed(old(Read(cells[..], ix)))
    {
      ghost var s0 := Read(cells[..], ix);
      moved := false;
      var i := 0;
      while i < |ix| - 1
        invariant 0 <= i && (ix != [] ==> i <= |ix| - 1)
        invariant Tiles(Read(cells[..], ix)) == Tiles(s0)
        invariant if moved then !Packed(s0) else Read(cells[..], ix) == s0
        invariant SameOutside(ix, old(cells[..]), cells[..])
        invariant i <= |ix| && WallSettled(Read(cells[..], ix), i)
      {
        var m := PassFarFirst(ix, i);
        moved := moved || m;
        i := i + 1;
      }
      PackedWithTiles(s0, Read(cells[..], ix));
    }

    /** Merges the tiles at `ix[k]` and `ix[k + 1]` if they are equal. */
    method MergePair(ix: seq<nat>, k: nat) returns (moved: bool)
      requires ValidLine(cells.Length, ix) && k + 1 < |ix|
      modifies cells, this`score
      ensures Read(cells[..], ix) == MergeAt(old(Read(cells[..], ix)), k)
      ensures moved <==> Merges(old(Read(cells[..], ix)), k)
      ensures score == old(score) + if moved then 2 * old(cells[ix[k]]) else 0
      ensures SameOutside(ix, old(cells[..]), cells[..])
    {
      ghost var s := Read(cells[..], ix);
      moved := false;
      if cells[ix[k]] == cells[ix[k + 1]] && cells[ix[k]] != HOLE {
        cells[ix[k]] := cells[ix[k]] * 2;
        cells[ix[k + 1]] := HOLE;
        score := score + cells[ix[k]];
        moved := true;
      }
      assert Read(cells[..], ix) == MergeAt(s, k);
    }

    /** Merges equal neighbours of a packed line in pairs, starting at the wall, and scores them. */
    method MergeLine(ix: seq<nat>) returns (moved: bool)
      requires ValidLine(cells.Length, ix)
      requires Packed(Read(cells[..], ix))
      modifies cells, this`score
      ensures Tiles(Read(cells[..], ix)) == PairMerge(Tiles(old(Read(cells[..], ix))))
      ensures score == old(score) + Gain(Tiles(old(Read(cells[..], ix))))
      ensures SameOutside(ix, old(cells[..]), cells[..])
      ensures moved <==> HasMerge(old(Read(cells[..], ix)))
      ensures !moved ==> Read(cells[..], ix) == old(Read(cells[..], ix))
    {
      ghost var s0 := Read(cells[..], ix);
      ghost var s := s0;
      moved := false;
      if ix == [] {
        return;
      }
      MergingStarts(s0);
      var k := 0;
      while k < |ix| - 1
        invariant 0 <= k <= |ix| - 1
        invariant s == Read(cells[..], ix)
        invariant Merging(s0, s, k, score - old(score))
        invariant SameOutside(ix, old(cells[..]), cells[..])
        invariant if moved then HasMerge(s0) else s == s0 && NoMergeBefore(s0, k)
      {
        MergingStep(s0, s, k, score - old(score));
        var m := MergePair(ix, k);
        s := MergeAt(s, k);
        moved := moved || m;
        k := k + 1;
      }
      MergingEnds(s0, s, score - old(score));
    }

    // ---------- the whole board ----------

    /** Pushes the tiles of every line to the wall. */
    method PackAll(d: Direction) returns (moved: bool)
      requires IsGame()
      modifies cells
      ensures LinesPacked(d, rows, cols, old(cells[..]), cells[..], LineCount(d, rows, cols))
      ensures moved <==> AnyUnpacked(d, rows, cols, old(cells[..]), LineCount(d, rows, cols))
    {
      moved := false;
      for i := 0 to LineCount(d, rows, cols)
        invariant LinesPacked(d, rows, cols, old(cells[..]), cells[..], i)
        invariant moved <==> AnyUnpacked(d, rows, cols, old(cells[..]), i)
      {
        ghost var before := cells[..];
        var ix := Line(d, rows, cols, i);
        LineIsValid(d, rows, cols, i);
        assert ReadLine(d, rows, cols, before, i) == Read(before, ix);
        var m;
        if d == W || d == A {
          m := PackNearFirst(ix);
        } else {
          m := PackFarFirst(ix);
        }
        assert ReadLine(d, rows, cols, cells[..], i) == Read(cells[..], ix);
        PackedStep(d, rows, cols, old(cells[..]), before, cells[..], i);
        moved := moved || m;
      }
    }

    /** Merges the tiles of line `i`, the lines before it having been merged. */
    method MergeLineOf(d: Direction, i: nat, ghost b: seq<int>) returns (moved: bool)
      requires IsGame() && i < LineCount(d, rows, cols)
      requires LinesMerged(d, rows, cols, b, cells[..], i)
      modifies cells, this`score
      ensures LinesMerged(d, rows, cols, b, cells[..], i + 1)
      ensures score == old(score) + Gain(Tiles(ReadLine(d, rows, cols, b, i)))
      ensures moved <==> HasMerge(Compact(ReadLine(d, rows, cols, b, i)))
      ensures !moved ==> cells[..] == old(cells[..])
    {
      ghost var before := cells[..];
      var ix := Line(d, rows, cols, i);
      LineIsValid(d, rows, cols, i);
      assert ReadLine(d, rows, cols, before, i) == Read(before, ix);
      TilesOfCompact(ReadLine(d, rows, cols, b, i));
      moved := MergeLine(ix);
      assert ReadLine(d, rows, cols, cells[..], i) == Read(cells[..], ix);
      MergedStep(d, rows, cols, b, before, cells[..], i);
    }

    /** Merges the tiles of every line, all of which have been pushed to the wall. */
    method MergeAll(d: Direction, ghost b: seq<int>) returns (moved: bool)
      requires IsGame() && IsBoard(rows, cols, b)
      requires LinesPacked(d, rows, cols, b, cells[..], LineCount(d, rows, cols))
      modifies cells, this`score
      ensures LinesMerged(d, rows, cols, b, cells[..], LineCount(d, rows, cols))
      ensures score == old(score) + ScoreOfMove(d, rows, cols, b)
      ensures moved <==> AnyMerge(d, rows, cols, b, LineCount(d, rows, cols))
      ensures !moved ==> cells[..] == old(cells[..])
    {
      moved := false;
      for i := 0 to LineCount(d, rows, cols)
        invariant LinesMerged(d, rows, cols, b, cells[..], i)
        invariant score == old(score) + MoveGain(d, rows, cols, b, i)
        invariant moved <==> AnyMerge(d, rows, cols, b, i)
        invariant !moved ==> cells[..] == old(cells[..])
      {
        var m := MergeLineOf(d, i, b);
        moved := moved || m;
      }
    }

    /** Slides the tiles towards a wall: push, merge, and, if anything moved, push again. */
    method Move(d: Direction) returns (moved: bool)
      requires IsGame()
      modifies cells, this`score
      ensures cells[..] == MoveBoard(d, rows, cols, old(cells[..]))
      ensures score == old(score) + ScoreOfMove(d, rows, cols, old(cells[..]))
      ensures moved <==> cells[..] != old(cells[..])
    {
      ghost var b := cells[..];
      moved := PackAll(d);
      var merged := MergeAll(d, b);
      ghost var unpushed := cells[..];
      moved := moved || merged;
      if moved {
        var _ := PackAll(d);
        PhasesCompose(d, rows, cols, b, unpushed, cells[..]);
      } else {
        NothingToDo(d, rows, cols, b, cells[..]);
      }
      MovedFlag(d, rows, cols, b);
    }

    // ---------- new tiles and the game-over test ----------

    lemma CellOfIndex(ind: nat)
      requires IsGame() && ind < rows * cols
      ensures cols > 0 && GetCell(ind / cols, ind % cols) == Some(ind)
    {
      DivModInRange(rows, cols, ind);
    }

    /** Puts a new tile into the first empty cell that the table of probes names. */
    method RandNewTile()
      requires IsGame() && cells.Length > 0
      requires CanSpawn(cells[..])
      modifies cells, this`indexRandom
      ensures (cells[..], indexRandom) == Spawned(old(cells[..]), old(indexRandom))
    {
      ghost var b := cells[..];
      ghost var i := indexRandom;
      ghost var k := i;
      ghost var h := NextHit(b, i);
      var row, col;
      while true
        invariant i <= k < h && cells[..] == b
        invariant k % 10 == indexRandom % 10
        decreases h - k
      {
        NextProbe(|b|, k, indexRandom);
        k := k + 1;
        indexRandom := indexRandom + 1;
        indexRandom := indexRandom % 10;
        var ind := ProbeCell(rows * cols, indexRandom);
        CellOfIndex(ind);
        col := ind % cols;
        row := ind / cols;
        if cells[GetCell(row, col).value] == HOLE {
          assert Hits(b, k) && k == h;
          break;
        }
        assert !Hits(b, k);
      }
      var num := Entry(indexRandom) % 20;
      cells[GetCell(row, col).value] := if num <= 1 then 4 else 2;
      assert cells[..] == b[ProbeCell(|b|, h) := TileFor(h)];
    }

    /** Whether a hole or two equal neighbours are left. */
    method LegalMoveCheck() returns (legal: bool)
      requires IsGame()
      ensures legal <==> Legal(rows, cols, cells[..])
    {
      ghost var b := cells[..];
      for i := 0 to rows * cols
        invariant HOLE !in b[..i]
      {
        if cells[i] == HOLE {
          assert b[i] in b;
          return true;
        }
      }
      assert b[..rows * cols] == b;
      for c := 0 to cols
        invariant forall r: nat, c': nat :: c' < c ==> !EqualBelow(rows, cols, b, r, c')
      {
        var r := 0;
        while r < rows - 1
          invariant 0 <= r && (rows > 0 ==> r <= rows - 1)
          invariant forall r': nat :: r' < r ==> !EqualBelow(rows, cols, b, r', c)
        {
          if cells[GetCell(r, c).value] == cells[GetCell(r + 1, c).value] {
            assert EqualBelow(rows, cols, b, r, c);
            return true;
          }
          r := r + 1;
        }
      }
      for r := 0 to rows
        invariant forall r': nat, c: nat :: r' < r ==> !EqualRight(rows, cols, b, r', c)
      {
        var c := 0;
        while c < cols - 1
          invariant 0 <= c && (cols > 0 ==> c <= cols - 1)
          invariant forall c': nat :: c' < c ==> !EqualRight(rows, cols, b, r, c')
        {
          if cells[GetCell(r, c).value] == cells[GetCell(r, c + 1).value] {
            assert EqualRight(rows, cols, b, r, c);
            return true;
          }
          c := c + 1;
        }
      }
      return false;
    }

    // ---------- a turn ----------

    /** The allocator's table without the two blocks of this game. */
    ghost function Freed(t: Table): Table
      requires DYNAMIC_START <= at < AddressOf(UNITS) && DYNAMIC_START <= cellsAt < AddressOf(UNITS)
      reads this
    {
      t[(cellsAt - DYNAMIC_START) / UNIT_SIZE := 0][(at - DYNAMIC_START) / UNIT_SIZE := 0]
    }

    ghost predicate Allocated()
      reads this
    {
      DYNAMIC_START <= at < AddressOf(UNITS) && DYNAMIC_START <= cellsAt < AddressOf(UNITS)
    }

    /** Frees the cells, then the game structure. */
    method Destroy(heap: Allocator)
      requires heap.IsTable() && Allocated()
      modifies heap.table
      ensures heap.View() == Freed(old(heap.View()))
    {
      heap.Free(cellsAt);
      heap.Free(at);
    }

    /** Moves in direction `d` and, if that changed the board, adds a tile. */
    method Push(d: Direction)
      requires IsGame() && cells.Length > 0
      requires CanPush(rows, cols, View(), d)
      modifies cells, this`score, this`indexRandom
      ensures View() == Pushed(rows, cols, old(View()), d)
    {
      ghost var s := View();
      var moved := Move(d);
      if moved {
        RandNewTile();
      } else {
        UnchangedBoardScoresNothing(d, rows, cols, s.cells);
      }
    }

    /** Handles one key; the result says whether the game goes on. */
    method ProcessTurn(key: char, heap: Allocator) returns (goesOn: bool)
      requires IsGame() && cells.Length > 0 && Allocated()
      requires heap.IsTable() && heap.table as object != cells
      requires Turn(rows, cols, View(), key) != Hung
      modifies cells, this`score, this`indexRandom, heap.table
      ensures var o := Turn(rows, cols, old(View()), key);
        && goesOn == o.Playing?
        && (o.Playing? || o.Over? ==> View() == o.state)
        && heap.View() == if goesOn then old(heap.View()) else Freed(old(heap.View()))
    {
      match key {
        case 'w' => Push(W);
        case 'a' => Push(A);
        case 's' => Push(S);
        case 'd' => Push(D);
        case 'q' =>
          Destroy(heap);
          return false;
        case _ =>
      }
      var legal := LegalMoveCheck();
      if !legal {
        Destroy(heap);
        return false;
      }
      return true;
    }
  }
}

/**
 Where a new tile appears. The source has no random numbers: it walks cyclically through a table
 of ten constants and takes the first one whose cell is empty.
 */
module Spawn {
  import opened Lines

  /** The table. */
  function Entry(i: nat): nat
    requires i < 10
  {
    match i
    case 0 => 199
    case 1 => 123
    case 2 => 213
    case 3 => 333
    case 4 => 4123
    case 5 => 3213
    case 6 => 3332
    case 7 => 978
    case 8 => 404
    case 9 => 243
  }

  /** The cell that table entry `i` names on a board of `n` cells. */
  function ProbeCell(n: nat, i: nat): (c: nat)
    requires n > 0
    ensures c < n
  {
    Entry(i % 10) % n
  }

  /** Some entry of the table names an empty cell. */
  ghost predicate CanSpawn(b: seq<int>)
    requires b != []
  {
    exists i :: 0 <= i < 10 && b[ProbeCell(|b|, i)] == HOLE
  }

  predicate Hits(b: seq<int>, i: nat)
    requires b != []
  {
    b[ProbeCell(|b|, i)] == HOLE
  }

  /** The first table position at or after `i` that names an empty cell. */
  function FirstHit(b: seq<int>, i: nat, ghost bound: nat): (h: nat)
    requires b != [] && i <= bound && Hits(b, bound)
    ensures i <= h <= bound && Hits(b, h)
    ensures forall k :: i <= k < h ==> !Hits(b, k)
    decreases bound - i
  {
    if Hits(b, i) then i else FirstHit(b, i + 1, bound)
  }

  lemma SameResidue(j: nat, e: nat)
    requires e < 10
    ensures (j + (e + 10 - j % 10) % 10) % 10 == e
  {
    var r := j % 10;
    assert j == 10 * (j / 10) + r;
  }

  /** Any ten consecutive positions visit the whole table. */
  lemma HitWithinTen(b: seq<int>, i: nat) returns (h: nat)
    requires b != [] && CanSpawn(b)
    ensures i < h <= i + 10 && Hits(b, h)
  {
    var e :| 0 <= e < 10 && b[ProbeCell(|b|, e)] == HOLE;
    h := i + 1 + (e + 10 - (i + 1) % 10) % 10;
    SameResidue(i + 1, e);
  }

  /** The position at which the probing that starts behind `i` stops. */
  ghost function NextHit(b: seq<int>, i: nat): (h: nat)
    requires b != [] && CanSpawn(b)
    ensures i < h <= i + 10 && Hits(b, h)
    ensures forall k :: i < k < h ==> !Hits(b, k)
  {
    HitExists(b, i);
    var bound :| i < bound <= i + 10 && Hits(b, bound);
    FirstHit(b, i + 1, bound)
  }

  lemma HitExists(b: seq<int>, i: nat)
    requires b != [] && CanSpawn(b)
    ensures exists h :: i < h <= i + 10 && Hits(b, h)
  {
    var h := HitWithinTen(b, i);
  }

  lemma NextHitUnique(b: seq<int>, i: nat, h: nat)
    requires b != [] && CanSpawn(b)
    requires i < h && Hits(b, h) && forall k :: i < k < h ==> !Hits(b, k)
    ensures h == NextHit(b, i)
  {
  }

  /** The position in the table, and so the cell, depends on the position modulo 10 only. */
  lemma HitsModTen(b: seq<int>, i: nat)
    requires b != []
    ensures Hits(b, i) <==> Hits(b, i % 10)
  {
  }

  /**
   The probing stops if and only if some table entry names an empty cell; then at most ten
   entries are looked at.
   */
  lemma ProbingStops(b: seq<int>, i: nat)
    requires b != []
    ensures CanSpawn(b) <==> exists h :: i < h && Hits(b, h)
    ensures CanSpawn(b) ==> exists h :: i < h <= i + 10 && Hits(b, h)
  {
    if CanSpawn(b) {
      HitExists(b, i);
    }
    if h :| i < h && Hits(b, h) {
      HitsModTen(b, h);
      assert b[ProbeCell(|b|, h % 10)] == HOLE;
    }
  }

  /** The value of the new tile: the rule has a 4 for residues 0 and 1 modulo 20. */
  function TileFor(i: nat): int
  {
    if Entry(i % 10) % 20 <= 1 then 4 else 2
  }

  /** The table has no such residue, so every new tile is a 2. */
  lemma EverySpawnIsTwo(i: nat)
    ensures TileFor(i) == 2
  {
  }

  /** The board and the table position after a new tile has been placed. */
  ghost function Spawned(b: seq<int>, i: nat): (r: (seq<int>, nat))
    requires b != [] && CanSpawn(b)
    ensures |r.0| == |b| && r.1 < 10
  {
    var h := NextHit(b, i);
    (b[ProbeCell(|b|, h) := TileFor(h)], h % 10)
  }

  /** A new tile fills exactly one cell, which was empty, with a 2. */
  lemma SpawnFillsOneHole(b: seq<int>, i: nat)
    requires b != [] && CanSpawn(b)
    ensures exists p :: 0 <= p < |b| && b[p] == HOLE && Spawned(b, i).0 == b[p := 2]
  {
    var p := ProbeCell(|b|, NextHit(b, i));
    EverySpawnIsTwo(NextHit(b, i));
    assert b[p] == HOLE;
  }

  /**
   The new tile, and where the next search begins: a 2 goes into the cell of the first entry behind
   `i`, going round the table, that names an empty cell.
   */
  lemma SpawnedExactly(b: seq<int>, i: nat, h: nat)
    requires b != [] && i < h && b[ProbeCell(|b|, h % 10)] == -1
    requires forall k :: i < k < h ==> b[ProbeCell(|b|, k % 10)] != -1
    ensures CanSpawn(b) && Spawned(b, i) == (b[ProbeCell(|b|, h % 10) := 2], h % 10)
  {
    hide Entry, ProbeCell, CanSpawn;
    SameProbe(|b|, h);
    assert Hits(b, h);
    forall k | i < k < h ensures !Hits(b, k) {
      SameProbe(|b|, k);
      assert b[ProbeCell(|b|, k % 10)] != HOLE;
    }
    ProbingStops(b, i);
    NextHitUnique(b, i, h);
    EverySpawnIsTwo(h);
  }

  lemma SameProbe(n: nat, i: nat)
    requires n > 0
    ensures ProbeCell(n, i) == ProbeCell(n, i % 10)
  {
  }

  /** Counting modulo 10 keeps the probed cell. */
  lemma NextProbe(n: nat, k: nat, i: nat)
    requires n > 0 && k % 10 == i % 10
    ensures ProbeCell(n, (i + 1) % 10) == ProbeCell(n, k + 1)
    ensures (k + 1) % 10 == (i + 1) % 10 == (i + 1) % 10 % 10
  {
  }

  // ---------- which cells the table names ----------

  predicate Named(n: nat, c: nat)
    requires n > 0
  {
    exists i :: 0 <= i < 10 && ProbeCell(n, i) == c
  }

  lemma SmallBoardNamed(n: nat, c: nat)
    requires 0 < n <= 4 && c < n
    ensures Named(n, c)
  {
    assert ProbeCell(1, 0) == 0;
    assert ProbeCell(2, 0) == 1 && ProbeCell(2, 6) == 0;
    assert ProbeCell(3, 0) == 1 && ProbeCell(3, 1) == 0 && ProbeCell(3, 6) == 2;
    assert ProbeCell(4, 0) == 3 && ProbeCell(4, 2) == 1 && ProbeCell(4, 6) == 0 && ProbeCell(4, 7) == 2;
  }

  /** On a board of 5 to 10 cells this cell is named by no entry. */
  function Unnamed(n: nat): nat
  {
    match n
    case 5 => 0
    case 6 => 4
    case 7 => 1
    case 8 => 0
    case 9 => 3
    case _ => 0
  }

  lemma MiddleBoardUnnamed(n: nat)
    requires 5 <= n <= 10
    ensures !Named(n, Unnamed(n))
  {
    forall i | 0 <= i < 10 ensures ProbeCell(n, i) != Unnamed(n) {
    }
  }

  ghost function FirstCells(m: nat): (s: set<int>)
    ensures |s| == m && forall c :: c in s <==> 0 <= c < m
  {
    if m == 0 then {} else FirstCells(m - 1) + {m - 1}
  }

  /** The cells that the first `m` entries name. */
  ghost function NamedCells(n: nat, m: nat): set<int>
    requires n > 0
  {
    set i | 0 <= i < m :: ProbeCell(n, i)
  }

  /** Ten entries cannot name more than ten cells. */
  lemma LargeBoardUnnamed(n: nat) returns (c: nat)
    requires n > 10
    ensures c < n && !Named(n, c)
  {
    NamedCount(n, 10);
    if FirstCells(11) <= NamedCells(n, 10) {
      SubsetIsNoLarger(FirstCells(11), NamedCells(n, 10));
    }
    c :| c in FirstCells(11) && c !in NamedCells(n, 10);
    forall i | 0 <= i < 10 ensures ProbeCell(n, i) != c {
      assert ProbeCell(n, i) in NamedCells(n, 10);
    }
  }

  lemma {:induction false} NamedCount(n: nat, m: nat)
    requires n > 0
    ensures |NamedCells(n, m)| <= m
  {
    if m == 0 {
      assert NamedCells(n, 0) == {};
    } else {
      NamedCount(n, m - 1);
      assert NamedCells(n, m) == NamedCells(n, m - 1) + {ProbeCell(n, m - 1)};
    }
  }

  lemma SubsetIsNoLarger(a: set<int>, b: set<int>)
    requires a <= b
    ensures |a| <= |b|
  {
    assert b == a + (b - a);
  }

  /**
   A tile can be placed on every board of `n` cells that has a hole, as the rule promises, if and
   only if the board has at most four cells: for every larger size there is a board with a hole that
   no entry names.
   */
  lemma HolesAreNamedExactly(n: nat)
    requires n > 0
    ensures (forall b: seq<int> :: |b| == n && HOLE in b ==> CanSpawn(b)) <==> n <= 4
  {
    if n <= 4 {
      forall b: seq<int> | |b| == n && HOLE in b ensures CanSpawn(b) {
        var c :| 0 <= c < n && b[c] == HOLE;
        SmallBoardNamed(n, c);
      }
    } else {
      var c := Unnamed(n);
      if n <= 10 {
        MiddleBoardUnnamed(n);
      } else {
        c := LargeBoardUnnamed(n);
      }
      var b := seq(n, p => if p == c then HOLE else 2);
      assert b[c] == HOLE && !CanSpawn(b);
    }
  }

  /** The table, read off a board of 50 x 100 cells, which is larger than all its entries. */
  lemma TableByNumber()
    ensures ProbeCell(5000, 0) == 199 && ProbeCell(5000, 1) == 123 && ProbeCell(5000, 2) == 213
    ensures ProbeCell(5000, 3) == 333 && ProbeCell(5000, 4) == 4123 && ProbeCell(5000, 5) == 3213
    ensures ProbeCell(5000, 6) == 3332 && ProbeCell(5000, 7) == 978 && ProbeCell(5000, 8) == 404
    ensures ProbeCell(5000, 9) == 243
  {
  }

  /** The cells that are probed, in this order, on the usual board of 4 x 4. */
  lemma ProbedOnFourByFour()
    ensures ProbeCell(16, 0) == 7 && ProbeCell(16, 1) == 11 && ProbeCell(16, 2) == 5 && ProbeCell(16, 3) == 13
    ensures ProbeCell(16, 4) == 11 && ProbeCell(16, 5) == 13 && ProbeCell(16, 6) == 4 && ProbeCell(16, 7) == 2
    ensures ProbeCell(16, 8) == 4 && ProbeCell(16, 9) == 3
  {
  }
}

/**
 The kernel heap: 4096 one-kilobyte units, tracked by a table of bytes. The entry of a unit at
 which an allocation starts holds the number of units allocated; every other entry is zero,
 whether its unit is free or inside an allocation.
 */
module Heap {
  import opened Common

  const UNITS: nat := 4096
  const UNIT_SIZE: nat := 1024
  const DYNAMIC_START: nat := 0x800000
  const NULL: nat := 0

  type Table = t: seq<byte> | |t| == UNITS witness seq(UNITS, _ => 0)

  // A request is for at most 255 units, so the search of `malloc` reads at most this far beyond the table.
  const REACH: nat := 255

  /** The bytes that follow the table in memory. They belong to other variables, and `malloc` reads them. */
  type Bytes = b: seq<byte> | |b| == REACH witness seq(REACH, _ => 0)

  /** The number of units a request is rounded up to, truncated to a byte as the table stores it. */
  function UnitsFor(size: uint32): byte
  {
    (size / UNIT_SIZE + 1) % 256
  }

  function AddressOf(i: nat): nat
  {
    DYNAMIC_START + i * UNIT_SIZE
  }

  /** Unit `u` belongs to the allocation that starts at `i`. */
  ghost predicate Covers(t: Table, i: nat, u: nat)
  {
    i < UNITS && t[i] != 0 && i <= u < i + t[i]
  }

  /** Unit `u` belongs to some allocation. */
  ghost predicate InUse(t: Table, u: nat)
  {
    exists h: nat :: Covers(t, h, u)
  }

  /** No unit belongs to two allocations. */
  ghost predicate Disjoint(t: Table)
  {
    forall i, j :: 0 <= i < j < UNITS && t[i] != 0 && t[j] != 0 ==> i + t[i] <= j
  }

  /** No allocation leaves the heap. */
  ghost predicate Inside(t: Table)
  {
    forall i :: 0 <= i < UNITS && t[i] != 0 ==> i + t[i] <= UNITS
  }

  /** The byte that `malloc` reads for unit `u`, which may lie behind the table. */
  function ByteAt(t: Table, behind: Bytes, u: nat): byte
    requires u < UNITS + REACH
  {
    if u < UNITS then t[u] else behind[u - UNITS]
  }

  /** The entries that `malloc` reads for `n` units from `i` on are all zero. */
  predicate Clear(t: Table, behind: Bytes, i: nat, n: nat)
    requires i + n <= UNITS + REACH
  {
    forall u :: i <= u < i + n ==> ByteAt(t, behind, u) == 0
  }

  /** The first unit with a zero entry that is reached by jumping over allocations from `i`. */
  function FirstGap(t: Table, i: nat): (g: nat)
    ensures i <= g
    ensures g < UNITS ==> t[g] == 0
    decreases UNITS - i
  {
    if i < UNITS && t[i] != 0 then FirstGap(t, i + t[i]) else i
  }

  /** What the search of `malloc` comes to. */
  datatype Search =
    | Found(at: nat)     // the entries that are read for the first gap are all zero
    | NoRoom             // there is no gap
    | Spins              // some entry is not: the search never leaves the gap

  function SearchOutcome(t: Table, behind: Bytes, n: byte): Search
  {
    var g := FirstGap(t, 0);
    if g >= UNITS then NoRoom
    else if Clear(t, behind, g, n) then Found(g)
    else Spins
  }

  class Allocator {
    const table: array<byte>
    var behind: Bytes

    ghost predicate IsTable()
      reads this
    {
      table.Length == UNITS
    }

    ghost function View(): Table
      requires IsTable()
      reads this, table
    {
      table[..]
    }

    constructor (behind: Bytes)
      ensures IsTable() && fresh(table) && this.behind == behind
      ensures View() == seq(UNITS, _ => 0)
    {
      var t := new byte[UNITS];
      for i := 0 to UNITS
        invariant forall k :: 0 <= k < i ==> t[k] == 0
      {
        t[i] := 0;
      }
      table := t;
      this.behind := behind;
      new;
      assert table[..] == seq(UNITS, _ => 0);
    }

    /** Allocates `size` bytes and returns the address, or `NULL` when there is no gap. */
    method Malloc(size: uint32) returns (address: nat)
      requires IsTable()
      requires SearchOutcome(View(), behind, UnitsFor(size)) != Spins
      modifies table
      ensures var outcome := SearchOutcome(old(View()), behind, UnitsFor(size));
        if outcome.NoRoom? then address == NULL && View() == old(View())
        else address == AddressOf(outcome.at) && View() == old(View())[outcome.at := UnitsFor(size)]
      ensures View() == Apply(old(View()), Alloc(size, behind))
    {
      var n := UnitsFor(size);
      var i := 0;
      while i < UNITS
        invariant FirstGap(View(), i) == FirstGap(View(), 0)
        invariant View() == old(View())
        decreases UNITS - i
      {
        if table[i] != 0 {
          i := i + table[i];
        } else {
          var blocked := false;
          for k := i to i + n
            invariant blocked <==> exists u :: i <= u < k && ByteAt(View(), behind, u) != 0
          {
            assert ByteAt(View(), behind, k) == if k < UNITS then table[k] else behind[k - UNITS];
            if (if k < UNITS then table[k] else behind[k - UNITS]) != 0 {
              blocked := true;
            }
          }
          if !blocked {
            break;
          }
          assert false; // the search does not spin
        }
      }
      if i >= UNITS {
        return NULL;
      }
      table[i] := n;
      address := AddressOf(i);
    }

    /** Frees the allocation at `address`. */
    method Free(address: nat)
      requires IsTable()
      requires DYNAMIC_START <= address < AddressOf(UNITS)
      modifies table
      ensures View() == old(View())[(address - DYNAMIC_START) / UNIT_SIZE := 0]
      ensures View() == Apply(old(View()), Release((address - DYNAMIC_START) / UNIT_SIZE))
    {
      var i := (address - DYNAMIC_START) / UNIT_SIZE;
      table[i] := 0;
    }
  }

  // ---------- the search ----------

  /** One round of the search loop of `malloc`; rounds that start at a gap too small change nothing. */
  datatype Round = At(i: nat) | Stopped

  function SearchRound(t: Table, behind: Bytes, n: byte, r: Round): Round
  {
    if r.Stopped? || r.i >= UNITS then Stopped
    else if t[r.i] != 0 then At(r.i + t[r.i])
    else if Clear(t, behind, r.i, n) then Stopped
    else r
  }

  function Rounds(t: Table, behind: Bytes, n: byte, i: nat, k: nat): Round
  {
    if k == 0 then At(i) else SearchRound(t, behind, n, Rounds(t, behind, n, i, k - 1))
  }

  lemma {:induction false} RoundsFromGap(t: Table, behind: Bytes, n: byte, g: nat, k: nat)
    requires g < UNITS && t[g] == 0 && !Clear(t, behind, g, n)
    ensures Rounds(t, behind, n, g, k) == At(g)
  {
    if k > 0 {
      RoundsFromGap(t, behind, n, g, k - 1);
    }
  }

  lemma {:induction false} RoundsCompose(t: Table, behind: Bytes, n: byte, i: nat, k: nat)
    requires i < UNITS && t[i] != 0
    ensures Rounds(t, behind, n, i, k + 1) == Rounds(t, behind, n, i + t[i], k)
  {
    if k > 0 {
      RoundsCompose(t, behind, n, i, k - 1);
    } else {
      assert Rounds(t, behind, n, i, 0) == At(i);
    }
  }

  lemma {:induction false} RoundsEnd(t: Table, behind: Bytes, n: byte, i: nat) returns (k: nat)
    requires var g := FirstGap(t, i); g >= UNITS || Clear(t, behind, g, n)
    ensures Rounds(t, behind, n, i, k).Stopped?
    decreases UNITS - i
  {
    if i < UNITS && t[i] != 0 {
      k := RoundsEnd(t, behind, n, i + t[i]);
      RoundsCompose(t, behind, n, i, k);
      k := k + 1;
    } else {
      k := 1;
      assert Rounds(t, behind, n, i, 0) == At(i);
    }
  }

  lemma {:induction false} RoundsForever(t: Table, behind: Bytes, n: byte, i: nat, k: nat)
    requires var g := FirstGap(t, i); g < UNITS && !Clear(t, behind, g, n)
    ensures !Rounds(t, behind, n, i, k).Stopped?
    decreases UNITS - i
  {
    if i < UNITS && t[i] != 0 {
      if k > 0 {
        RoundsForever(t, behind, n, i + t[i], k - 1);
        RoundsCompose(t, behind, n, i, k - 1);
      }
    } else {
      RoundsFromGap(t, behind, n, i, k);
    }
  }

  lemma ClearByByte(t: Table, behind: Bytes, g: nat, n: byte)
    requires g < UNITS
    ensures Clear(t, behind, g, n) <==>
      (forall u :: g <= u < g + n && u < 4096 ==> t[u] == 0) && (forall j :: 0 <= j < g + n - 4096 ==> behind[j] == 0)
  {
    if Clear(t, behind, g, n) {
      forall u | g <= u < g + n && u < 4096 ensures t[u] == 0 {
        assert ByteAt(t, behind, u) == t[u];
      }
      forall j | 0 <= j < g + n - 4096 ensures behind[j] == 0 {
        assert ByteAt(t, behind, 4096 + j) == behind[j];
      }
    }
  }

  /**
   The search loop ends if and only if there is no gap or all entries read for the first one, also
   those behind the table, are zero: room anywhere else in the table does not help.
   */
  lemma SearchEndsExactly(t: Table, behind: Bytes, n: byte)
    ensures (exists k :: Rounds(t, behind, n, 0, k).Stopped?) <==>
      var g := FirstGap(t, 0);
      g >= 4096 || ((forall u :: g <= u < g + n && u < 4096 ==> t[u] == 0) &&
                    (forall j :: 0 <= j < g + n - 4096 ==> behind[j] == 0))
  {
    var g := FirstGap(t, 0);
    if g < UNITS {
      ClearByByte(t, behind, g, n);
    }
    if g >= UNITS || Clear(t, behind, g, n) {
      var k := RoundsEnd(t, behind, n, 0);
    } else {
      forall k ensures !Rounds(t, behind, n, 0, k).Stopped? {
        RoundsForever(t, behind, n, 0, k);
      }
    }
  }

  lemma {:induction false} CoveredBeforeGap(t: Table, i: nat, u: nat)
    requires i <= u < FirstGap(t, i) && u < UNITS
    ensures InUse(t, u)
    decreases UNITS - i
  {
    if u < i + t[i] {
      assert Covers(t, i, u);
    } else {
      CoveredBeforeGap(t, i + t[i], u);
    }
  }

  /** The first gap is the lowest unit that belongs to no allocation. */
  lemma FirstGapIsLowestFree(t: Table)
    requires Disjoint(t)
    ensures var g := FirstGap(t, 0);
      && (forall u: nat :: u < g && u < UNITS ==> InUse(t, u))
      && (g < UNITS ==> !InUse(t, g))
  {
    var g := FirstGap(t, 0);
    forall u: nat | u < g && u < UNITS ensures InUse(t, u) {
      CoveredBeforeGap(t, 0, u);
    }
    forall h: nat | g < UNITS ensures !Covers(t, h, g) {
      if h < g && t[h] != 0 {
        AllocationsEndBeforeGap(t, 0, h);
      }
    }
  }

  /** `malloc` answers NULL if and only if every unit of the heap belongs to an allocation. */
  lemma NoRoomExactly(t: Table, behind: Bytes, n: byte)
    requires Disjoint(t)
    ensures SearchOutcome(t, behind, n).NoRoom? <==> forall u: nat :: u < UNITS ==> InUse(t, u)
  {
    FirstGapIsLowestFree(t);
  }

  /** A request for one unit, that is for less than 1024 bytes, always gets an answer. */
  lemma SmallRequestEnds(t: Table, behind: Bytes, size: uint32)
    requires size < UNIT_SIZE
    ensures UnitsFor(size) == 1 && SearchOutcome(t, behind, UnitsFor(size)) != Spins
  {
  }

  // ---------- what every run keeps ----------

  lemma {:induction false} AllocationsEndBeforeGap(t: Table, i: nat, h: nat)
    requires Disjoint(t) && i <= h < FirstGap(t, i) && h < UNITS && t[h] != 0
    ensures h + t[h] <= FirstGap(t, i)
    decreases UNITS - i
  {
    if h > i {
      AllocationsEndBeforeGap(t, i + t[i], h);
    }
  }

  /**
   The extent that `malloc` hands out overlaps no live allocation. It lies inside the heap if and
   only if it ends before the table does, which `malloc` does not check.
   */
  lemma MallocDisjoint(t: Table, behind: Bytes, n: byte)
    requires Disjoint(t) && SearchOutcome(t, behind, n).Found?
    ensures var g := SearchOutcome(t, behind, n).at;
      && Disjoint(t[g := n])
      && (forall h: nat, u: nat :: Covers(t, h, u) ==> !(g <= u < g + n))
      && (Inside(t) ==> (Inside(t[g := n]) <==> g + n <= UNITS))
  {
    var g := SearchOutcome(t, behind, n).at;
    forall h | 0 <= h < UNITS && t[h] != 0
      ensures h < g ==> h + t[h] <= g
      ensures h > g ==> g + n <= h
    {
      assert ByteAt(t, behind, h) != 0;
      if h < g {
        AllocationsEndBeforeGap(t, 0, h);
      }
    }
    var r := t[g := n];
    assert n != 0 ==> r[g] != 0;
  }

  /** Freeing what was just allocated restores the table. */
  lemma FreeAfterMalloc(t: Table, behind: Bytes, n: byte)
    requires SearchOutcome(t, behind, n).Found?
    ensures var g := SearchOutcome(t, behind, n).at;
      t[g := n][(AddressOf(g) - DYNAMIC_START) / UNIT_SIZE := 0] == t
  {
  }

  /** The bytes of a block: 1024 for each of its units, from 8 MB on. */
  ghost predicate HasByte(t: Table, h: nat, a: nat)
  {
    h < UNITS && t[h] != 0 && 0x80_0000 + 1024 * h <= a < 0x80_0000 + 1024 * (h + t[h])
  }

  /** The address handed out is that of the first byte of the block, and no byte belongs to two blocks. */
  lemma BytesApart(t: Table, h: nat, h': nat, a: nat)
    requires Disjoint(t) && HasByte(t, h, a) && HasByte(t, h', a)
    ensures h == h' && AddressOf(h) == 0x80_0000 + 1024 * h <= a
    ensures Inside(t) ==> a < 0xC0_0000
  {
  }

  /** The extent handed out is as large as the request exactly for requests below 255 KB. */
  lemma RequestCovered(size: uint32)
    ensures UnitsFor(size) * UNIT_SIZE >= size <==> size < 255 * UNIT_SIZE
    ensures size < 255 * 1024 ==> (UnitsFor(size) - 1) * 1024 <= size < UnitsFor(size) * 1024
  {
    var q := size / UNIT_SIZE;
    assert size == q * UNIT_SIZE + size % UNIT_SIZE;
  }

  /** `behind` is what the bytes behind the table are when the request is made. */
  datatype Operation = Alloc(size: uint32, behind: Bytes) | Release(unit: nat)

  /** The allocator answers `op`: a search ends, and only live blocks are freed. */
  ghost predicate Answered(t: Table, op: Operation)
  {
    match op
    case Alloc(size, behind) => SearchOutcome(t, behind, UnitsFor(size)) != Spins
    case Release(unit) => unit < UNITS && t[unit] != 0
  }

  ghost predicate CanRun(t: Table, ops: seq<Operation>)
    decreases |ops|
  {
    ops == [] || (Answered(t, ops[0]) && CanRun(Apply(t, ops[0]), ops[1..]))
  }

  function Apply(t: Table, op: Operation): (r: Table)
  {
    match op
    case Alloc(size, behind) =>
      (match SearchOutcome(t, behind, UnitsFor(size))
       case Found(g) => t[g := UnitsFor(size)]
       case _ => t)
    case Release(unit) => if unit < UNITS then t[unit := 0] else t
  }

  function Run(t: Table, ops: seq<Operation>): Table
    decreases |ops|
  {
    if ops == [] then t else Run(Apply(t, ops[0]), ops[1..])
  }

  lemma ApplyDisjoint(t: Table, op: Operation)
    requires Disjoint(t)
    ensures Disjoint(Apply(t, op))
  {
    if op.Alloc? && SearchOutcome(t, op.behind, UnitsFor(op.size)).Found? {
      MallocDisjoint(t, op.behind, UnitsFor(op.size));
    }
  }

  /** In every run of allocations and frees no unit ever belongs to two blocks. */
  lemma {:induction false} RunDisjoint(t: Table, ops: seq<Operation>)
    requires Disjoint(t)
    ensures Disjoint(Run(t, ops))
    ensures forall h: nat, h': nat, u: nat :: Covers(Run(t, ops), h, u) && Covers(Run(t, ops), h', u) ==> h == h'
    decreases |ops|
  {
    if ops != [] {
      ApplyDisjoint(t, ops[0]);
      RunDisjoint(Apply(t, ops[0]), ops[1..]);
    }
  }

  /** After every step of the run all blocks lie inside the heap. */
  ghost predicate StaysInside(t: Table, ops: seq<Operation>)
    decreases |ops|
  {
    Inside(t) && (ops == [] || StaysInside(Apply(t, ops[0]), ops[1..]))
  }

  /** An answer to `op` does not reach beyond the table. */
  predicate Fits(t: Table, op: Operation)
  {
    op.Alloc? && FirstGap(t, 0) < UNITS ==> FirstGap(t, 0) + UnitsFor(op.size) <= UNITS
  }

  predicate AllFit(t: Table, ops: seq<Operation>)
    decreases |ops|
  {
    ops == [] || (Fits(t, ops[0]) && AllFit(Apply(t, ops[0]), ops[1..]))
  }

  /**
   A run keeps all blocks inside the heap if and only if none of its requests reaches, from the
   first gap, beyond the end of the table.
   */
  lemma {:induction false} RunInsideExactly(t: Table, ops: seq<Operation>)
    requires Disjoint(t) && Inside(t) && CanRun(t, ops)
    ensures StaysInside(t, ops) <==> AllFit(t, ops)
    decreases |ops|
  {
    if ops != [] {
      ApplyDisjoint(t, ops[0]);
      var r := Apply(t, ops[0]);
      assert Inside(r) <==> Fits(t, ops[0]) by {
        if ops[0].Alloc? && SearchOutcome(t, ops[0].behind, UnitsFor(ops[0].size)).Found? {
          MallocDisjoint(t, ops[0].behind, UnitsFor(ops[0].size));
        }
      }
      if Inside(r) {
        RunInsideExactly(r, ops[1..]);
      }
    }
  }

  /** A live block keeps its extent through every run that does not free it. */
  lemma {:induction false} BlockSurvives(t: Table, ops: seq<Operation>, h: nat)
    requires h < UNITS && t[h] != 0
    requires Release(h) !in ops
    ensures Run(t, ops)[h] == t[h]
    decreases |ops|
  {
    if ops != [] {
      BlockSurvives(Apply(t, ops[0]), ops[1..], h);
    }
  }

  // ---------- two runs that go wrong ----------

  const EMPTY: Table := seq(UNITS, _ => 0)

  lemma RunOne(t: Table, op: Operation)
    ensures Run(t, [op]) == Apply(t, op)
    ensures CanRun(t, [op]) <==> Answered(t, op)
  {
    assert [op][1..] == [];
  }

  lemma {:induction false} RunMore(t: Table, ops: seq<Operation>, op: Operation)
    ensures Run(t, ops + [op]) == Apply(Run(t, ops), op)
    ensures CanRun(t, ops + [op]) <==> CanRun(t, ops) && Answered(Run(t, ops), op)
    decreases |ops|
  {
    if ops == [] {
      assert [] + [op] == [op];
      RunOne(t, op);
    } else {
      assert (ops + [op])[1..] == ops[1..] + [op];
      RunMore(Apply(t, ops[0]), ops[1..], op);
    }
  }

  /** Two small blocks, the first one freed: a request for two units spins although 4094 are free. */
  lemma SpinsWithRoom(behind: Bytes)
    ensures var ops := [Alloc(0, behind), Alloc(0, behind), Release(0)];
      && CanRun(EMPTY, ops)
      && SearchOutcome(Run(EMPTY, ops), behind, UnitsFor(UNIT_SIZE)) == Spins
      && Clear(Run(EMPTY, ops), behind, 2, UNITS - 2)
  {
    var a := Alloc(0, behind);
    var t1, t2 := EMPTY[0 := 1], EMPTY[0 := 1][1 := 1];
    SmallRequestEnds(EMPTY, behind, 0);
    SmallRequestEnds(t1, behind, 0);
    assert FirstGap(EMPTY, 0) == 0;
    assert FirstGap(t1, 0) == FirstGap(t1, 1) == 1;
    RunOne(EMPTY, a);
    assert Run(EMPTY, [a]) == t1;
    RunMore(EMPTY, [a], a);
    assert [a] + [a] == [a, a];
    assert Run(EMPTY, [a, a]) == t2;
    RunMore(EMPTY, [a, a], Release(0));
    assert [a, a] + [Release(0)] == [a, a, Release(0)];
    var t := t2[0 := 0];
    assert FirstGap(t, 0) == 0;
    assert ByteAt(t, behind, 1) != 0;
  }

  const BLOCK: uint32 := 194 * 1024
  const BLOCK_UNITS: byte := 195

  /** The heap filled with `j` blocks of 195 units. */
  function Filled(j: nat): Table
    requires j <= 21
  {
    seq(UNITS, i requires 0 <= i => if i % BLOCK_UNITS == 0 && i < j * BLOCK_UNITS then BLOCK_UNITS else 0)
  }

  lemma {:induction false} FilledGap(j: nat, m: nat)
    requires m <= j <= 21
    ensures FirstGap(Filled(j), m * BLOCK_UNITS) == j * BLOCK_UNITS
    decreases j - m
  {
    if m < j {
      FilledGap(j, m + 1);
      assert Filled(j)[m * BLOCK_UNITS] == BLOCK_UNITS;
    }
  }

  function Fill(j: nat, behind: Bytes): seq<Operation>
  {
    seq(j, _ => Alloc(BLOCK, behind))
  }

  lemma {:induction false} FillRuns(j: nat, behind: Bytes)
    requires j <= 21
    ensures CanRun(EMPTY, Fill(j, behind)) && Run(EMPTY, Fill(j, behind)) == Filled(j)
  {
    if j == 0 {
      assert Filled(0) == EMPTY;
    } else {
      FillRuns(j - 1, behind);
      FilledGap(j - 1, 0);
      FilledNext(j - 1, behind);
      assert Fill(j, behind) == Fill(j - 1, behind) + [Alloc(BLOCK, behind)];
      RunMore(EMPTY, Fill(j - 1, behind), Alloc(BLOCK, behind));
    }
  }

  lemma FilledNext(j: nat, behind: Bytes)
    requires j < 21 && FirstGap(Filled(j), 0) == j * BLOCK_UNITS
    ensures Answered(Filled(j), Alloc(BLOCK, behind))
    ensures Apply(Filled(j), Alloc(BLOCK, behind)) == Filled(j + 1)
  {
    var g := j * BLOCK_UNITS;
    assert UnitsFor(BLOCK) == BLOCK_UNITS;
    forall u | g <= u < g + BLOCK_UNITS ensures ByteAt(Filled(j), behind, u) == 0 {
    }
    assert Filled(j)[g := BLOCK_UNITS] == Filled(j + 1);
  }

  /**
   21 blocks of 194 KB leave one unit. A request for two units then gets it, together with a unit
   that is not part of the heap, if the first byte behind the table is zero, and spins otherwise.
   */
  lemma LeavesTheHeap(behind: Bytes)
    ensures var t := Run(EMPTY, Fill(21, behind));
      && CanRun(EMPTY, Fill(21, behind))
      && FirstGap(t, 0) == UNITS - 1
      && SearchOutcome(t, behind, UnitsFor(UNIT_SIZE)) == (if behind[0] == 0 then Found(UNITS - 1) else Spins)
      && (behind[0] == 0 ==> !Inside(Apply(t, Alloc(UNIT_SIZE, behind))))
  {
    FillRuns(21, behind);
    FilledGap(21, 0);
    var t := Filled(21);
    assert UnitsFor(UNIT_SIZE) == 2;
    assert ByteAt(t, behind, UNITS) == behind[0];
    if behind[0] == 0 {
      var r := Apply(t, Alloc(UNIT_SIZE, behind));
      assert r[UNITS - 1] == 2;
    }
  }
}

/**
 What moves and new tiles keep. Every quantity of interest is a total of weights over the cells:
 the sum of the tiles, the score potential, and, for each k, the number of tiles of at least 2^k.
 */
module Conservation {
  import opened Common
  import opened Lines
  import opened Board
  import opened Spawn

  function Pow2(k: nat): (p: nat)
    ensures p >= 1
  {
    if k == 0 then 1 else 2 * Pow2(k - 1)
  }

  /** The exponent of the largest power of two up to `v`. */
  function Log(v: int): nat
  {
    if v <= 1 then 0 else 1 + Log(v / 2)
  }

  predicate PowerOfTwo(v: int)
  {
    v >= 2 && v == Pow2(Log(v))
  }

  datatype Measure =
    | TileSum
    | Potential          // the score that built the tile out of twos
    | Capped(cap: nat)   // the same with tiles counted as at most 2^cap
    | AtLeast(k: nat)    // 1 for tiles of at least 2^k

  /** The score earned in building 2^e out of twos. */
  function Phi(e: nat): int
  {
    if e == 0 then 0 else (e - 1) * Pow2(e)
  }

  function Weigh(m: Measure, v: int): int
  {
    match m
    case TileSum => if v == HOLE then 0 else v
    case Potential => Phi(Log(v))
    case Capped(cap) => Phi(if Log(v) < cap then Log(v) else cap)
    case AtLeast(k) => if v >= Pow2(k) then 1 else 0
  }

  function Total(m: Measure, s: seq<int>): int
  {
    if s == [] then 0 else Weigh(m, s[0]) + Total(m, s[1..])
  }

  ghost predicate AllPowers(s: seq<int>)
  {
    forall v :: v in s ==> v == HOLE || PowerOfTwo(v)
  }

  /** With `n` cells there are at most n + 1 - k tiles of at least 2^k. */
  ghost predicate Bounded(n: nat, s: seq<int>)
  {
    forall k: nat :: k >= 1 ==> Total(AtLeast(k), s) <= (if k <= n then n + 1 - k else 0)
  }

  /** The invariant of a play on `n` cells after `spawns` new tiles. */
  ghost predicate Sound(n: nat, s: seq<int>, score: int, spawns: nat)
  {
    && |s| == n
    && AllPowers(s)
    && Total(TileSum, s) == 2 * spawns
    && Total(Potential, s) == score
    && Bounded(n, s)
  }

  // ---------- powers of two ----------

  lemma {:induction false} LogPow(e: nat)
    ensures Log(Pow2(e)) == e
  {
    if e > 0 {
      LogPow(e - 1);
    }
  }

  lemma {:induction false} PowMonotone(a: nat, b: nat)
    requires a <= b
    ensures Pow2(a) <= Pow2(b)
    ensures a < b ==> 2 * Pow2(a) <= Pow2(b)
    decreases b
  {
    if a < b {
      PowMonotone(a, b - 1);
    }
  }

  /** A power of two is at least 2^k exactly when its exponent is at least k. */
  lemma AtLeastByLog(v: int, k: nat)
    requires PowerOfTwo(v)
    ensures v >= Pow2(k) <==> Log(v) >= k
  {
    var e := Log(v);
    if e >= k {
      PowMonotone(k, e);
    } else {
      PowMonotone(e, k);
    }
  }

  lemma PhiDouble(e: nat)
    requires e >= 1
    ensures Phi(e + 1) == 2 * Phi(e) + Pow2(e + 1)
  {
    var v := Pow2(e);
    Distribute(2 * v, e - 1, 1);
    assert 2 * ((e - 1) * v) == (e - 1) * (2 * v);
  }

  lemma Distribute(w: int, x: int, y: int)
    ensures (x + y) * w == x * w + y * w
  {
  }

  lemma DoubledTile(v: int)
    requires PowerOfTwo(v)
    ensures PowerOfTwo(2 * v) && Log(2 * v) == Log(v) + 1 && Log(v) >= 1
    ensures Weigh(Potential, 2 * v) == 2 * Weigh(Potential, v) + 2 * v
  {
    var e := Log(v);
    assert 2 * v == Pow2(e + 1);
    LogPow(e + 1);
    PhiDouble(e);
  }

  /** The powers of two are 2 and the doubles of powers of two. */
  lemma PowersByDoubling(v: int)
    ensures PowerOfTwo(v) <==> v == 2 || (v % 2 == 0 && PowerOfTwo(v / 2))
  {
    assert Log(2) == 1 && Pow2(1) == 2;
    if v > 2 {
      assert Log(v) == 1 + Log(v / 2);
    }
  }

  /** The sum counts a tile by its value, and the potential by the score of making it out of twos. */
  lemma WeighedByHalves(v: int)
    requires v == -1 || PowerOfTwo(v)
    ensures Weigh(TileSum, v) == if v == -1 then 0 else v
    ensures Weigh(Potential, v) == if v <= 2 then 0 else 2 * Weigh(Potential, v / 2) + v
  {
    assert Log(2) == 1 && Phi(1) == 0;
    PowersByDoubling(v);
    if v > 2 {
      DoubledTile(v / 2);
    }
  }

  // ---------- totals ----------

  /** The cells whose tile is at least 2^k. */
  ghost function LargeCells(k: nat, s: seq<int>): set<nat>
  {
    set i: nat | i < |s| && s[i] >= Pow2(k)
  }

  /** The total of `AtLeast(k)` is the number of these cells. */
  lemma {:induction false} LargeTilesCounted(k: nat, s: seq<int>)
    ensures Total(AtLeast(k), s) == |LargeCells(k, s)|
  {
    if s == [] {
      assert LargeCells(k, s) == {};
    } else {
      var n := |s| - 1;
      assert s == s[..n] + [s[n]];
      TotalConcat(AtLeast(k), s[..n], [s[n]]);
      LargeTilesCounted(k, s[..n]);
      assert LargeCells(k, s) == LargeCells(k, s[..n]) + (if s[n] >= Pow2(k) then {n} else {});
    }
  }

  lemma {:induction false} TotalConcat(m: Measure, a: seq<int>, b: seq<int>)
    ensures Total(m, a + b) == Total(m, a) + Total(m, b)
  {
    if a == [] {
      assert a + b == b;
    } else {
      TotalConcat(m, a[1..], b);
      assert (a + b)[1..] == a[1..] + b;
    }
  }

  lemma TotalUpdate(m: Measure, s: seq<int>, i: nat, v: int)
    requires i < |s|
    ensures Total(m, s[i := v]) == Total(m, s) - Weigh(m, s[i]) + Weigh(m, v)
  {
    var a, b := s[..i], s[i + 1..];
    assert s == a + ([s[i]] + b) && s[i := v] == a + ([v] + b);
    TotalConcat(m, a, [s[i]] + b);
    TotalConcat(m, a, [v] + b);
  }

  /** Only the cells `ix` differ: the totals differ by what these cells hold. */
  lemma {:induction false} TotalOutside(m: Measure, ix: seq<nat>, b: seq<int>, c: seq<int>)
    requires ValidLine(|b|, ix) && SameOutside(ix, b, c)
    ensures Total(m, c) - Total(m, b) == Total(m, Read(c, ix)) - Total(m, Read(b, ix))
  {
    if ix == [] {
      assert c == b;
    } else {
      var p, rest := ix[0], ix[1..];
      var c' := c[p := b[p]];
      forall q | 0 <= q < |b| && q !in rest ensures c'[q] == b[q] {
        if q != p {
          assert q !in ix;
        }
      }
      TotalOutside(m, rest, b, c');
      TotalUpdate(m, c', p, c[p]);
      assert c'[p := c[p]] == c;
      assert Read(c', rest) == Read(c, ix)[1..] && Read(b, rest) == Read(b, ix)[1..];
    }
  }

  lemma {:induction false} TotalOfTiles(m: Measure, s: seq<int>)
    ensures Total(m, Tiles(s)) == Total(m, s)
  {
    if s != [] {
      TotalOfTiles(m, s[1..]);
      if s[0] != HOLE {
        assert Tiles(s)[1..] == Tiles(s[1..]);
      }
    }
  }

  lemma TotalOfSlide(m: Measure, s: seq<int>)
    ensures Total(m, Slide(s)) == Total(m, PairMerge(Tiles(s)))
  {
    TotalOfTiles(m, Slide(s));
    TilesOfSlide(s);
  }

  lemma {:induction false} TotalAtMostLength(k: nat, s: seq<int>)
    ensures 0 <= Total(AtLeast(k), s) <= |s|
  {
    if s != [] {
      TotalAtMostLength(k, s[1..]);
    }
  }

  lemma {:induction false} FewerLargerTiles(k: nat, s: seq<int>)
    ensures Total(AtLeast(k + 1), s) <= Total(AtLeast(k), s)
  {
    if s != [] {
      FewerLargerTiles(k, s[1..]);
    }
  }

  // ---------- merging ----------

  /** Merging keeps the sum of the tiles, and the potential grows by the score earned. */
  lemma {:induction false} MergeConserves(t: seq<int>)
    requires AllPowers(t) && HOLE !in t
    ensures Total(TileSum, PairMerge(t)) == Total(TileSum, t)
    ensures Total(Potential, PairMerge(t)) == Total(Potential, t) + Gain(t)
    ensures AllPowers(PairMerge(t))
  {
    if |t| >= 2 {
      if t[0] == t[1] {
        assert t[0] in t;
        DoubledTile(t[0]);
        MergeConserves(t[2..]);
        assert t[1..][1..] == t[2..];
        assert PairMerge(t)[1..] == PairMerge(t[2..]);
      } else {
        MergeConserves(t[1..]);
        assert PairMerge(t)[1..] == PairMerge(t[1..]);
      }
    }
  }

  /** One merge of two equal tiles keeps the bound on large tiles. */
  lemma MergeOnceBounded(n: nat, a: seq<int>, v: int, r: seq<int>)
    requires PowerOfTwo(v) && Bounded(n, a + ([v, v] + r))
    ensures Bounded(n, a + ([2 * v] + r))
  {
    var e := Log(v);
    DoubledTile(v);
    forall k: nat | k >= 1
      ensures Total(AtLeast(k), a + ([2 * v] + r)) <= (if k <= n then n + 1 - k else 0)
    {
      MergeCounts(a, v, r, k);
      AtLeastByLog(v, k);
      AtLeastByLog(2 * v, k);
      if k == e + 1 {
        MergeCounts(a, v, r, e);
        AtLeastByLog(v, e);
        FewerLargerTiles(e, a);
        FewerLargerTiles(e, r);
        TotalAtMostLength(k, a);
        TotalAtMostLength(k, r);
      }
    }
  }

  lemma MergeCounts(a: seq<int>, v: int, r: seq<int>, k: nat)
    ensures Total(AtLeast(k), a + ([v, v] + r)) ==
      Total(AtLeast(k), a) + 2 * Weigh(AtLeast(k), v) + Total(AtLeast(k), r)
    ensures Total(AtLeast(k), a + ([2 * v] + r)) ==
      Total(AtLeast(k), a) + Weigh(AtLeast(k), 2 * v) + Total(AtLeast(k), r)
  {
    TotalConcat(AtLeast(k), a, [v, v] + r);
    TotalConcat(AtLeast(k), a, [2 * v] + r);
    assert ([v, v] + r)[1..] == [v] + r && ([v] + r)[1..] == r && ([2 * v] + r)[1..] == r;
  }

  /** Merging a line keeps the bound, whatever the rest `a` of the board is. */
  lemma {:induction false} MergeBounded(n: nat, a: seq<int>, t: seq<int>)
    requires AllPowers(t) && HOLE !in t && Bounded(n, a + t)
    ensures Bounded(n, a + PairMerge(t))
    decreases |t|
  {
    if |t| >= 2 {
      assert t[0] in t;
      if t[0] == t[1] {
        var r := t[2..];
        assert t == [t[0], t[0]] + r;
        MergeOnceBounded(n, a, t[0], r);
        assert a + ([2 * t[0]] + r) == (a + [2 * t[0]]) + r;
        MergeBounded(n, a + [2 * t[0]], r);
        assert (a + [2 * t[0]]) + PairMerge(r) == a + PairMerge(t);
      } else {
        var r := t[1..];
        assert a + t == (a + [t[0]]) + r;
        MergeBounded(n, a + [t[0]], r);
        assert (a + [t[0]]) + PairMerge(r) == a + PairMerge(t);
      }
    }
  }

  // ---------- moves ----------

  lemma {:induction false} TilesOfPowers(s: seq<int>)
    requires AllPowers(s)
    ensures AllPowers(Tiles(s))
  {
    if s != [] {
      TilesOfPowers(s[1..]);
    }
  }

  /** Sliding one line keeps the bound of the whole board. */
  lemma SlideLineBounded(n: nat, ix: seq<nat>, b: seq<int>, c: seq<int>)
    requires ValidLine(|b|, ix) && SameOutside(ix, b, c) && AllPowers(Read(b, ix))
    requires Read(c, ix) == Slide(Read(b, ix)) && Bounded(n, b)
    ensures Bounded(n, c)
  {
    var s := Read(b, ix);
    var rest := seq(|b|, p requires 0 <= p < |b| => if p in ix then HOLE else b[p]);
    assert forall k :: 0 <= k < |ix| ==> Read(rest, ix)[k] == HOLE;
    TilesOfHoles(Read(rest, ix));
    TilesOfPowers(s);
    forall k: nat
      ensures Total(AtLeast(k), rest + Tiles(s)) == Total(AtLeast(k), b)
      ensures Total(AtLeast(k), rest + PairMerge(Tiles(s))) == Total(AtLeast(k), c)
    {
      TotalOutside(AtLeast(k), ix, rest, b);
      TotalOutside(AtLeast(k), ix, rest, c);
      TotalOfTiles(AtLeast(k), Read(rest, ix));
      TotalOfTiles(AtLeast(k), s);
      TotalOfSlide(AtLeast(k), s);
      TotalConcat(AtLeast(k), rest, Tiles(s));
      TotalConcat(AtLeast(k), rest, PairMerge(Tiles(s)));
    }
    MergeBounded(n, rest, Tiles(s));
  }

  /** Sliding one line keeps the invariant and scores the merged tiles. */
  lemma SlideLineSound(n: nat, ix: seq<nat>, b: seq<int>, c: seq<int>, score: int, spawns: nat)
    requires ValidLine(|b|, ix) && SameOutside(ix, b, c)
    requires Read(c, ix) == Slide(Read(b, ix)) && Sound(n, b, score, spawns)
    ensures Sound(n, c, score + Gain(Tiles(Read(b, ix))), spawns)
  {
    var s := Read(b, ix);
    assert AllPowers(s) by {
      forall v | v in s ensures v in b {}
    }
    SlideLineBounded(n, ix, b, c);
    TilesOfPowers(s);
    MergeConserves(Tiles(s));
    forall m | m == TileSum || m == Potential
      ensures Total(m, c) == Total(m, b) - Total(m, Tiles(s)) + Total(m, PairMerge(Tiles(s)))
    {
      TotalOutside(m, ix, b, c);
      TotalOfTiles(m, s);
      TotalOfSlide(m, s);
    }
    forall v | v in c ensures v == HOLE || PowerOfTwo(v) {
      var p :| 0 <= p < |c| && c[p] == v;
      if p in ix {
        var k :| 0 <= k < |ix| && ix[k] == p;
        assert v == Slide(s)[k];
      } else {
        assert v == b[p];
      }
    }
  }

  /** The board when the first `j` lines of a move have been slid. */
  function SlidUpTo(d: Direction, rows: nat, cols: nat, b: seq<int>, j: nat): (r: seq<int>)
    requires IsBoard(rows, cols, b)
    ensures IsBoard(rows, cols, r)
  {
    seq(rows * cols, p requires 0 <= p < rows * cols =>
      PlaceLineCell(d, rows, cols, p);
      if LineOf(d, cols, p) < j then MoveBoard(d, rows, cols, b)[p] else b[p])
  }

  lemma SlidStep(d: Direction, rows: nat, cols: nat, b: seq<int>, j: nat)
    requires IsBoard(rows, cols, b) && j < LineCount(d, rows, cols)
    ensures SameOutside(Line(d, rows, cols, j), SlidUpTo(d, rows, cols, b, j), SlidUpTo(d, rows, cols, b, j + 1))
    ensures ReadLine(d, rows, cols, SlidUpTo(d, rows, cols, b, j), j) == ReadLine(d, rows, cols, b, j)
    ensures ReadLine(d, rows, cols, SlidUpTo(d, rows, cols, b, j + 1), j) == Slide(ReadLine(d, rows, cols, b, j))
  {
    var c, c' := SlidUpTo(d, rows, cols, b, j), SlidUpTo(d, rows, cols, b, j + 1);
    forall p | 0 <= p < |c| && p !in Line(d, rows, cols, j) ensures c'[p] == c[p] {
      OnItsLine(d, rows, cols, p);
    }
    MovedLine(d, rows, cols, b, j);
    forall k | 0 <= k < LineLength(d, rows, cols)
      ensures ReadLine(d, rows, cols, c, j)[k] == ReadLine(d, rows, cols, b, j)[k]
      ensures ReadLine(d, rows, cols, c', j)[k] == ReadLine(d, rows, cols, MoveBoard(d, rows, cols, b), j)[k]
    {
      LineCellPlace(d, rows, cols, j, k);
    }
  }

  lemma BoardLineSound(d: Direction, rows: nat, cols: nat, b: seq<int>, c: seq<int>, c': seq<int>, j: nat, score: int,
        spawns: nat)
    requires IsBoard(rows, cols, b) && IsBoard(rows, cols, c) && IsBoard(rows, cols, c') && j < LineCount(d, rows, cols)
    requires SameOutside(Line(d, rows, cols, j), c, c')
    requires ReadLine(d, rows, cols, c, j) == ReadLine(d, rows, cols, b, j)
    requires ReadLine(d, rows, cols, c', j) == Slide(ReadLine(d, rows, cols, b, j))
    requires Sound(rows * cols, c, score + MoveGain(d, rows, cols, b, j), spawns)
    ensures Sound(rows * cols, c', score + MoveGain(d, rows, cols, b, j + 1), spawns)
  {
    LineIsValid(d, rows, cols, j);
    SlideLineSound(rows * cols, Line(d, rows, cols, j), c, c', score + MoveGain(d, rows, cols, b, j), spawns);
  }

  lemma SlidStepSound(d: Direction, rows: nat, cols: nat, b: seq<int>, score: int, spawns: nat, j: nat)
    requires IsBoard(rows, cols, b) && j < LineCount(d, rows, cols)
    requires Sound(rows * cols, SlidUpTo(d, rows, cols, b, j), score + MoveGain(d, rows, cols, b, j), spawns)
    ensures Sound(rows * cols, SlidUpTo(d, rows, cols, b, j + 1), score + MoveGain(d, rows, cols, b, j + 1), spawns)
  {
    SlidStep(d, rows, cols, b, j);
    BoardLineSound(d, rows, cols, b, SlidUpTo(d, rows, cols, b, j), SlidUpTo(d, rows, cols, b, j + 1), j, score,
      spawns);
  }

  lemma NoneSlid(d: Direction, rows: nat, cols: nat, b: seq<int>)
    requires IsBoard(rows, cols, b)
    ensures SlidUpTo(d, rows, cols, b, 0) == b
  {
  }

  lemma {:induction false} MoveSoundUpTo(d: Direction, rows: nat, cols: nat, b: seq<int>, score: int, spawns: nat,
        j: nat)
    requires IsBoard(rows, cols, b) && j <= LineCount(d, rows, cols) && Sound(rows * cols, b, score, spawns)
    ensures Sound(rows * cols, SlidUpTo(d, rows, cols, b, j), score + MoveGain(d, rows, cols, b, j), spawns)
  {
    hide Sound;
    if j == 0 {
      assert SlidUpTo(d, rows, cols, b, 0) == b by {
        NoneSlid(d, rows, cols, b);
      }
      assert MoveGain(d, rows, cols, b, 0) == 0;
    } else {
      MoveSoundUpTo(d, rows, cols, b, score, spawns, j - 1);
      SlidStepSound(d, rows, cols, b, score, spawns, j - 1);
    }
  }

  /** A move keeps the invariant and adds exactly the merged values to the score. */
  lemma MoveSound(d: Direction, rows: nat, cols: nat, b: seq<int>, score: int, spawns: nat)
    requires IsBoard(rows, cols, b) && Sound(rows * cols, b, score, spawns)
    ensures Sound(rows * cols, MoveBoard(d, rows, cols, b), score + ScoreOfMove(d, rows, cols, b), spawns)
  {
    var n := LineCount(d, rows, cols);
    MoveSoundUpTo(d, rows, cols, b, score, spawns, n);
    forall p | 0 <= p < rows * cols
      ensures SlidUpTo(d, rows, cols, b, n)[p] == MoveBoard(d, rows, cols, b)[p]
    {
      PlaceLineCell(d, rows, cols, p);
    }
    assert SlidUpTo(d, rows, cols, b, n) == MoveBoard(d, rows, cols, b);
  }

  /** A new 2 in an empty cell keeps the invariant. */
  lemma SpawnSound(n: nat, b: seq<int>, score: int, spawns: nat, p: nat)
    requires Sound(n, b, score, spawns) && p < n && b[p] == HOLE
    ensures Sound(n, b[p := 2], score, spawns + 1)
  {
    var c := b[p := 2];
    assert Log(2) == 1 && Pow2(1) == 2;
    TotalUpdate(TileSum, b, p, 2);
    TotalUpdate(Potential, b, p, 2);
    forall k: nat | k >= 1 ensures Total(AtLeast(k), c) <= (if k <= n then n + 1 - k else 0) {
      TotalUpdate(AtLeast(k), b, p, 2);
      TotalAtMostLength(k, c);
      if k >= 2 {
        PowMonotone(2, k);
        assert Pow2(2) == 4;
      }
    }
  }

  lemma SpawnedSound(n: nat, b: seq<int>, i: nat, score: int, spawns: nat)
    requires n > 0 && Sound(n, b, score, spawns) && CanSpawn(b)
    ensures Sound(n, Spawned(b, i).0, score, spawns + 1)
  {
    SpawnFillsOneHole(b, i);
    var p :| 0 <= p < |b| && b[p] == HOLE && Spawned(b, i).0 == b[p := 2];
    SpawnSound(n, b, score, spawns, p);
  }

  lemma {:induction false} TotalOfHoles(m: Measure, n: nat)
    ensures Total(m, Holes(n)) == 0
  {
    if n > 0 {
      TotalOfHoles(m, n - 1);
      assert Holes(n)[1..] == Holes(n - 1);
    }
  }

  lemma BlankSound(n: nat)
    ensures Sound(n, Holes(n), 0, 0)
  {
    forall m ensures Total(m, Holes(n)) == 0 {
      TotalOfHoles(m, n);
    }
  }

  // ---------- what the invariant bounds ----------

  /** No tile of a sound board of `n` cells exceeds 2^n. */
  lemma LargestTile(n: nat, s: seq<int>, score: int, spawns: nat, p: nat)
    requires Sound(n, s, score, spawns) && p < n
    ensures s[p] <= Pow2(n)
  {
    if s[p] != HOLE {
      assert s[p] in s;
      AtLeastByLog(s[p], n + 1);
      TotalUpdate(AtLeast(n + 1), s, p, HOLE);
      TotalAtMostLength(n + 1, s[p := HOLE]);
      PowMonotone(0, n);
      if Log(s[p]) <= n {
        PowMonotone(Log(s[p]), n);
      }
    }
  }

  lemma RaiseOneCap(k: nat, v: int)
    requires k >= 1 && (v == HOLE || PowerOfTwo(v))
    ensures Weigh(Capped(k), v) == Weigh(Capped(k - 1), v) + CapWeight(k) * Weigh(AtLeast(k), v)
  {
    PhiStep(k);
    if v == HOLE {
      assert Weigh(AtLeast(k), v) == 0;
    } else {
      AtLeastByLog(v, k);
      if Log(v) >= k {
        assert Weigh(AtLeast(k), v) == 1;
      } else {
        assert Weigh(AtLeast(k), v) == 0;
      }
    }
  }

  /** What a tile of at least 2^k gains in potential over one of 2^(k-1). */
  function CapWeight(k: nat): nat
    requires k >= 1
  {
    if k == 1 then 0 else k * Pow2(k - 1)
  }

  lemma PhiStep(k: nat)
    requires k >= 1
    ensures Phi(k) - Phi(k - 1) == CapWeight(k)
  {
    if k > 1 {
      var q := Pow2(k - 1);
      assert Pow2(k) == 2 * q;
      assert (k - 1) * (2 * q) - (k - 2) * q == k * q;
    }
  }

  lemma AddScaled(w: int, x: int, a: int, y: int, b: int)
    ensures (x + w * a) + (y + w * b) == (x + y) + w * (a + b)
  {
  }

  /** Raising the cap from k - 1 to k adds k * 2^(k-1) for every tile of at least 2^k. */
  lemma {:induction false} RaiseCap(k: nat, s: seq<int>)
    requires k >= 1 && AllPowers(s)
    ensures Total(Capped(k), s) == Total(Capped(k - 1), s) + CapWeight(k) * Total(AtLeast(k), s)
  {
    if s == [] {
      assert CapWeight(k) * 0 == 0;
    } else {
      assert AllPowers(s[1..]) by {
        forall v | v in s[1..] ensures v in s {}
      }
      RaiseCap(k, s[1..]);
      assert s[0] in s;
      RaiseOneCap(k, s[0]);
      hide Weigh, CapWeight;
      AddScaled(CapWeight(k), Weigh(Capped(k - 1), s[0]), Weigh(AtLeast(k), s[0]),
        Total(Capped(k - 1), s[1..]), Total(AtLeast(k), s[1..]));
    }
  }

  /** The largest total that the bound on large tiles allows under cap k. */
  function CapBound(n: nat, k: nat): int
  {
    if k == 0 then 0
    else ((n + 1) * (k - 1) - (k * k - 2 * k + 3)) * Pow2(k) + 4
  }

  lemma CapBoundStep(n: nat, k: nat)
    requires 2 <= k
    ensures CapBound(n, k) == CapBound(n, k - 1) + CapWeight(k) * (n + 1 - k)
  {
    var q := Pow2(k - 1);
    assert Pow2(k) == 2 * q;
    var j := k - 1;
    assert k * k == j * j + 2 * j + 1;
    assert (n + 1) * (k - 1) == (n + 1) * j && (n + 1) * (k - 2) == (n + 1) * j - (n + 1);
    assert (k - 1) * (k - 1) == j * j;
    var x, y := (n + 1) * j, j * j;
    assert CapBound(n, k) == (x - y - 2) * (2 * q) + 4;
    assert CapBound(n, k - 1) == (x - n - 1 - (y - 2 * j + 3)) * q + 4;
    assert (x - y - 2) * (2 * q) - (x - n - 1 - (y - 2 * j + 3)) * q ==
      (2 * (x - y - 2) - (x - n - 1 - y + 2 * j - 3)) * q;
    assert k * (n + 1 - k) == (j + 1) * (n - j) == j * n + n - y - j;
    assert k * q * (n + 1 - k) == (k * (n + 1 - k)) * q;
  }

  lemma {:induction false} CappedBound(n: nat, s: seq<int>, score: int, spawns: nat, k: nat)
    requires Sound(n, s, score, spawns) && k <= n
    ensures Total(Capped(k), s) <= CapBound(n, k)
  {
    if k == 0 {
      NoCapNoPotential(s);
    } else {
      CappedBound(n, s, score, spawns, k - 1);
      RaiseCap(k, s);
      MulMonotone(CapWeight(k), Total(AtLeast(k), s), n + 1 - k) by {
        TotalAtMostLength(k, s);
      }
      if k >= 2 {
        CapBoundStep(n, k);
      } else {
        FirstCap(n);
      }
    }
  }

  lemma FirstCap(n: nat)
    ensures CapBound(n, 1) == 0
  {
  }

  lemma {:induction false} NoCapNoPotential(s: seq<int>)
    ensures Total(Capped(0), s) == 0
  {
    if s != [] {
      NoCapNoPotential(s[1..]);
    }
  }

  lemma {:induction false} CapReached(n: nat, s: seq<int>)
    requires forall v :: v in s ==> v == HOLE || (PowerOfTwo(v) && Log(v) <= n)
    ensures Total(Capped(n), s) == Total(Potential, s)
  {
    if s != [] {
      forall v | v in s[1..] ensures v in s {}
      CapReached(n, s[1..]);
      assert s[0] in s;
    }
  }

  /** The score of a sound board of `n` cells is at most (n - 2) * 2^(n+1) + 4. */
  lemma LargestScore(n: nat, s: seq<int>, score: int, spawns: nat)
    requires n >= 1 && Sound(n, s, score, spawns)
    ensures score <= (n - 2) * Pow2(n + 1) + 4
  {
    forall v | v in s ensures v == HOLE || (PowerOfTwo(v) && Log(v) <= n) {
      if v != HOLE {
        var p :| 0 <= p < n && s[p] == v;
        LargestTile(n, s, score, spawns, p);
        if Log(v) > n {
          PowMonotone(n, Log(v));
        }
      }
    }
    CapReached(n, s);
    CappedBound(n, s, score, spawns, n);
    LastCap(n);
  }

  lemma LastCap(n: nat)
    requires n >= 1
    ensures CapBound(n, n) == (n - 2) * Pow2(n + 1) + 4
  {
    var q := Pow2(n);
    assert (n + 1) * (n - 1) - (n * n - 2 * n + 3) == 2 * n - 4;
    assert (2 * n - 4) * q == (n - 2) * (2 * q);
  }
}

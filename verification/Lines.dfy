/**
 One line of the 2048 board, read from the wall that a move pushes against.

 A line is a sequence of cells; `HOLE` marks an empty one. The rules of the game say what a
 move does to a line: push its tiles to the wall, merge equal neighbours in pairs starting at
 the wall, and push again. `Slide` states that on values; the methods of `Game` do it in place.
 */
module Lines {
  import opened Common

  const HOLE := -1

  /** The tiles of a line, in order. */
  function Tiles(s: seq<int>): (t: seq<int>)
    ensures |t| <= |s|
    ensures HOLE !in t
  {
    if s == [] then [] else if s[0] == HOLE then Tiles(s[1..]) else [s[0]] + Tiles(s[1..])
  }

  function Holes(n: nat): (h: seq<int>)
  {
    seq(n, _ => HOLE)
  }

  /** The tiles of a line pushed to the wall. */
  function Compact(s: seq<int>): (c: seq<int>)
    ensures |c| == |s|
  {
    Tiles(s) + Holes(|s| - |Tiles(s)|)
  }

  /** Equal neighbours of a hole-free line merged in pairs from the wall; no tile takes part in two merges. */
  function PairMerge(t: seq<int>): (m: seq<int>)
    ensures |m| <= |t|
  {
    if |t| < 2 then t
    else if t[0] == t[1] then [2 * t[0]] + PairMerge(t[2..])
    else [t[0]] + PairMerge(t[1..])
  }

  /** The sum of the tiles that `PairMerge` creates. */
  function Gain(t: seq<int>): int
  {
    if |t| < 2 then 0
    else if t[0] == t[1] then 2 * t[0] + Gain(t[2..])
    else Gain(t[1..])
  }

  /** What a move makes of one line. */
  function Slide(s: seq<int>): (r: seq<int>)
    ensures |r| == |s|
  {
    var m := PairMerge(Tiles(s));
    m + Holes(|s| - |m|)
  }

  /** No hole lies between a tile and the wall. */
  ghost predicate Packed(s: seq<int>)
  {
    forall i, j :: 0 <= i < j < |s| && s[i] == HOLE ==> s[j] == HOLE
  }

  predicate Merges(s: seq<int>, c: nat)
    requires c + 1 < |s|
  {
    s[c] == s[c + 1] && s[c] != HOLE
  }

  ghost predicate HasMerge(s: seq<int>)
  {
    exists i :: 0 <= i < |s| - 1 && Merges(s, i)
  }

  // ---------- Tiles ----------

  lemma TilesFirst(v: int, s: seq<int>)
    ensures Tiles([v] + s) == (if v == HOLE then [] else [v]) + Tiles(s)
  {
    assert ([v] + s)[1..] == s;
  }

  lemma TilesConcatStep(v: int, a: seq<int>, b: seq<int>)
    requires Tiles(a + b) == Tiles(a) + Tiles(b)
    ensures Tiles(([v] + a) + b) == Tiles([v] + a) + Tiles(b)
  {
    hide Tiles;
    TilesFirst(v, a + b);
    TilesFirst(v, a);
    assert ([v] + a) + b == [v] + (a + b);
  }

  lemma {:induction false} TilesConcat(a: seq<int>, b: seq<int>)
    ensures Tiles(a + b) == Tiles(a) + Tiles(b)
  {
    if a == [] {
      assert a + b == b;
    } else {
      TilesConcat(a[1..], b);
      assert a == [a[0]] + a[1..];
      TilesConcatStep(a[0], a[1..], b);
    }
  }

  lemma {:induction false} TilesOfHoles(s: seq<int>)
    requires forall k :: 0 <= k < |s| ==> s[k] == HOLE
    ensures Tiles(s) == []
  {
    if s != [] {
      TilesOfHoles(s[1..]);
    }
  }

  lemma {:induction false} TilesOfTiles(t: seq<int>)
    requires HOLE !in t
    ensures Tiles(t) == t
  {
    if t != [] {
      TilesOfTiles(t[1..]);
      assert t == [t[0]] + t[1..];
    }
  }

  /** Moving a tile into the hole on its wall side keeps the tiles and their order. */
  lemma PullKeepsTiles(s: seq<int>, k: nat)
    requires k + 1 < |s| && s[k] == HOLE
    ensures Tiles(s[k := s[k + 1]][k + 1 := HOLE]) == Tiles(s)
  {
    var a, b := s[..k], s[k + 2..];
    var v := s[k + 1];
    var s' := s[k := v][k + 1 := HOLE];
    assert s == a + [HOLE, v] + b;
    assert s' == a + [v, HOLE] + b;
    TilesConcat(a + [HOLE, v], b);
    TilesConcat(a, [HOLE, v]);
    TilesConcat(a + [v, HOLE], b);
    TilesConcat(a, [v, HOLE]);
    assert [HOLE, v][1..] == [v] && [v, HOLE][1..] == [HOLE];
    assert Tiles([HOLE, v]) == Tiles([v]) == Tiles([v, HOLE]);
  }

  lemma {:induction false} PackedIsCompact(s: seq<int>)
    requires Packed(s)
    ensures s == Compact(s)
  {
    if s != [] {
      if s[0] == HOLE {
        TilesOfHoles(s);
        assert s == Holes(|s|);
      } else {
        PackedIsCompact(s[1..]);
        assert s == [s[0]] + s[1..];
      }
    }
  }

  lemma TilesOfCompact(s: seq<int>)
    ensures Tiles(Compact(s)) == Tiles(s)
    ensures Packed(Compact(s))
  {
    var t := Tiles(s);
    var h := Holes(|s| - |t|);
    TilesConcat(t, h);
    TilesOfTiles(t);
    TilesOfHoles(h);
    forall i, j | 0 <= i < j < |s| && Compact(s)[i] == HOLE
      ensures Compact(s)[j] == HOLE
    {
      assert i >= |t|;
    }
  }

  /** Two lines of the same length with the same tiles differ only in where the holes are. */
  lemma PackedWithTiles(s: seq<int>, u: seq<int>)
    requires |u| == |s| && Tiles(u) == Tiles(s) && Packed(u)
    ensures u == Compact(s)
  {
    PackedIsCompact(u);
  }

  // ---------- PairMerge ----------

  lemma {:induction false} MergeHasNoHole(t: seq<int>)
    requires HOLE !in t
    ensures HOLE !in PairMerge(t)
  {
    if |t| >= 2 {
      if t[0] == t[1] {
        MergeHasNoHole(t[2..]);
      } else {
        MergeHasNoHole(t[1..]);
      }
    }
  }

  lemma {:induction false} MergeShortens(t: seq<int>)
    ensures |PairMerge(t)| < |t| <==> exists i :: 0 <= i < |t| - 1 && t[i] == t[i + 1]
    ensures |PairMerge(t)| == |t| ==> PairMerge(t) == t && Gain(t) == 0
  {
    if |t| >= 2 && t[0] != t[1] {
      MergeShortens(t[1..]);
      assert t == [t[0]] + t[1..];
      if i :| 0 <= i < |t| - 1 && t[i] == t[i + 1] {
        assert t[1..][i - 1] == t[1..][i];
      }
      if i :| 0 <= i < |t[1..]| - 1 && t[1..][i] == t[1..][i + 1] {
        assert t[i + 1] == t[i + 2];
      }
    }
  }

  /** The tiles of a slid line are the merged tiles. */
  lemma TilesOfSlide(s: seq<int>)
    ensures Tiles(Slide(s)) == PairMerge(Tiles(s))
    ensures Packed(Slide(s))
  {
    var m := PairMerge(Tiles(s));
    var h := Holes(|s| - |m|);
    MergeHasNoHole(Tiles(s));
    TilesConcat(m, h);
    TilesOfTiles(m);
    TilesOfHoles(h);
    forall i, j | 0 <= i < j < |s| && Slide(s)[i] == HOLE
      ensures Slide(s)[j] == HOLE
    {
      assert i >= |m|;
    }
  }

  /** The three phases of a move (push, merge, push) compose to `Slide`. */
  lemma SlideByPhases(s: seq<int>, merged: seq<int>)
    requires |merged| == |s| && Tiles(merged) == PairMerge(Tiles(s))
    ensures Compact(merged) == Slide(s)
  {
  }

  lemma {:induction false} PackedTiles(s: seq<int>)
    requires Packed(s)
    ensures s[..|Tiles(s)|] == Tiles(s)
    ensures HasMerge(s) <==> exists i :: 0 <= i < |Tiles(s)| - 1 && Tiles(s)[i] == Tiles(s)[i + 1]
  {
    PackedIsCompact(s);
    var t := Tiles(s);
    assert forall i :: 0 <= i < |t| ==> s[i] == t[i];
    if HasMerge(s) {
      var i :| 0 <= i < |s| - 1 && Merges(s, i);
      assert i + 1 < |t|;
      assert t[i] == t[i + 1];
    }
    if i :| 0 <= i < |t| - 1 && t[i] == t[i + 1] {
      assert t[i] in t && Merges(s, i);
    }
  }

  /** A move changes a line exactly when a tile has a hole on its wall side or two neighbours merge. */
  lemma SlideChanges(s: seq<int>)
    ensures Slide(s) != s <==> !Packed(s) || HasMerge(Compact(s))
  {
    var t := Tiles(s);
    TilesOfSlide(s);
    TilesOfCompact(s);
    PackedTiles(Compact(s));
    MergeShortens(t);
    if Packed(s) {
      PackedIsCompact(s);
    }
  }

  /** A line that a move does not change scores nothing. */
  lemma UnchangedLineScoresNothing(s: seq<int>)
    requires Slide(s) == s
    ensures Gain(Tiles(s)) == 0
  {
    TilesOfSlide(s);
    MergeShortens(Tiles(s));
  }

  /** After a move that changes a line, the line has a hole. */
  lemma ChangedLineHasHole(s: seq<int>)
    requires Slide(s) != s
    ensures exists k :: 0 <= k < |s| && Slide(s)[k] == HOLE
  {
    var t := Tiles(s);
    var m := PairMerge(t);
    if |m| == |s| {
      MergeShortens(t);
      assert |t| == |s|;
      FullLine(s);
      assert false;
    }
    assert Slide(s)[|m|] == HOLE;
  }

  lemma {:induction false} FullLine(s: seq<int>)
    requires |Tiles(s)| == |s|
    ensures Tiles(s) == s
  {
    if s != [] {
      FullLine(s[1..]);
      assert s == [s[0]] + s[1..];
    }
  }

  // ---------- the merge phase, one cell at a time ----------

  /** `MergeStep` for the unmerged part alone, written as its first two cells and the rest. */
  lemma MergeHead(x: int, y: int, rest: seq<int>)
    requires Packed([y] + rest)
    ensures var hit := x == y && x != HOLE;
      var x', y' := if hit then 2 * x else x, if hit then HOLE else y;
      && PairMerge(Tiles([x] + ([y] + rest))) == Tiles([x']) + PairMerge(Tiles([y'] + rest))
      && Gain(Tiles([x] + ([y] + rest))) == (if hit then 2 * x else 0) + Gain(Tiles([y'] + rest))
  {
    var r := Tiles(rest);
    assert ([x] + ([y] + rest))[1..] == [y] + rest && ([y] + rest)[1..] == rest;
    if x != HOLE {
      if y == HOLE {
        forall k | 0 <= k < |rest| ensures rest[k] == HOLE {
          assert ([y] + rest)[0] == HOLE && ([y] + rest)[k + 1] == rest[k];
        }
        TilesOfHoles([y] + rest);
        TilesOfTiles([x]);
      } else {
        var t := Tiles([x] + ([y] + rest));
        assert t == [x] + ([y] + r);
        assert t[2..] == r && t[1..] == [y] + r;
        TilesOfTiles([x]);
        TilesOfTiles([2 * x]);
        assert ([HOLE] + rest)[1..] == rest;
      }
    }
  }

  /** The line after the merge loop has looked at the pair `c`, `c + 1`. */
  function MergeAt(s: seq<int>, c: nat): (r: seq<int>)
    requires c + 1 < |s|
    ensures |r| == |s|
  {
    if Merges(s, c) then s[c := 2 * s[c]][c + 1 := HOLE] else s
  }

  lemma MergeAtParts(s: seq<int>, c: nat)
    requires c + 1 < |s|
    ensures var s', rest := MergeAt(s, c), s[c + 2..];
      && s[c + 1..] == [s[c + 1]] + rest && s[c..] == [s[c]] + ([s[c + 1]] + rest)
      && s'[c + 2..] == rest && s'[c + 1..] == [s'[c + 1]] + rest && s'[..c + 1] == s[..c] + [s'[c]]
  {
  }

  lemma PackedRest(y: int, rest: seq<int>)
    requires Packed([y] + rest)
    ensures Packed(rest)
  {
    assert rest == ([y] + rest)[1..];
  }

  /**
   One step of the in-place merge at cell `c`: the part before `c` is final, the part from `c`
   on still has to be merged.
   */
  lemma MergeStep(s: seq<int>, c: nat)
    requires c + 1 < |s| && Packed(s[c + 1..])
    ensures Packed(MergeAt(s, c)[c + 2..])
    ensures Tiles(MergeAt(s, c)[..c + 1]) + PairMerge(Tiles(MergeAt(s, c)[c + 1..]))
         == Tiles(s[..c]) + PairMerge(Tiles(s[c..]))
    ensures Gain(Tiles(s[c..])) == (if Merges(s, c) then 2 * s[c] else 0) + Gain(Tiles(MergeAt(s, c)[c + 1..]))
  {
    var s', rest := MergeAt(s, c), s[c + 2..];
    MergeAtParts(s, c);
    PackedRest(s[c + 1], rest);
    MergeHead(s[c], s[c + 1], rest);
    TilesConcat(s[..c], [s'[c]]);
    ConcatAssociative(Tiles(s[..c]), Tiles([s'[c]]), PairMerge(Tiles(s'[c + 1..])));
  }

  // ---------- the push phase, one pass at a time ----------

  /** The last `i` cells are where pushing to the wall leaves them: no tile there has a hole before it. */
  ghost predicate FarSettled(s: seq<int>, i: nat)
    requires i <= |s|
  {
    forall q, p :: 0 <= q < p < |s| && p >= |s| - i && s[q] == HOLE ==> s[p] == HOLE
  }

  /** The first `i` cells are where pushing to the wall leaves them: no hole there has a tile after it. */
  ghost predicate WallSettled(s: seq<int>, i: nat)
    requires i <= |s|
  {
    forall p, q :: 0 <= p < q < |s| && p < i && s[p] == HOLE ==> s[q] == HOLE
  }

  /** If any cell before `k` is a hole, so is cell `k`. */
  ghost predicate HolesReach(s: seq<int>, k: nat)
    requires k < |s|
  {
    forall q :: 0 <= q < k && s[q] == HOLE ==> s[k] == HOLE
  }

  /** If cell `k` is a hole, so is every cell after it. */
  ghost predicate HolesFrom(s: seq<int>, k: nat)
    requires k < |s|
  {
    forall q :: k < q < |s| && s[k] == HOLE ==> s[q] == HOLE
  }

  /** The line after the tile at `k + 1` has moved into the hole at `k`, if there is one. */
  function PullAt(s: seq<int>, k: nat): (r: seq<int>)
    requires k + 1 < |s|
    ensures |r| == |s|
  {
    if s[k] == HOLE && s[k + 1] != HOLE then s[k := s[k + 1]][k + 1 := HOLE] else s
  }

  /** A pull keeps the tiles and their order, and happens only on lines that are not packed. */
  lemma PullAtKeepsTiles(s: seq<int>, k: nat)
    requires k + 1 < |s|
    ensures Tiles(PullAt(s, k)) == Tiles(s)
    ensures PullAt(s, k) != s <==> s[k] == HOLE && s[k + 1] != HOLE
    ensures PullAt(s, k) != s ==> !Packed(s)
  {
    if s[k] == HOLE && s[k + 1] != HOLE {
      PullKeepsTiles(s, k);
      assert PullAt(s, k)[k] != s[k];
    }
  }

  lemma NearFirstStep(s: seq<int>, k: nat, i: nat)
    requires k + 1 < |s| && i < |s| - 1
    requires FarSettled(s, i) && HolesReach(s, k) && (k >= |s| - 1 - i ==> HolesReach(s, |s| - 1 - i))
    ensures var r := PullAt(s, k);
      FarSettled(r, i) && HolesReach(r, k + 1) && (k + 1 >= |s| - 1 - i ==> HolesReach(r, |s| - 1 - i))
  {
  }

  lemma FarFirstStep(s: seq<int>, k: nat, i: nat)
    requires k + 1 < |s| && i < |s| - 1
    requires WallSettled(s, i) && HolesFrom(s, k + 1) && (k + 1 <= i ==> HolesFrom(s, i))
    ensures var r := PullAt(s, k);
      WallSettled(r, i) && HolesFrom(r, k) && (k <= i ==> HolesFrom(r, i))
  {
  }

  ghost predicate NoMergeBefore(s: seq<int>, k: nat)
    requires k < |s|
  {
    forall j :: 0 <= j < k ==> !Merges(s, j)
  }

  /** The merge loop is at cell `k` of the line that was `s0`, and has scored `gained` so far. */
  ghost predicate Merging(s0: seq<int>, s: seq<int>, k: nat, gained: int)
  {
    && |s| == |s0| && k < |s|
    && Packed(s[k + 1..])
    && Tiles(s[..k]) + PairMerge(Tiles(s[k..])) == PairMerge(Tiles(s0))
    && gained + Gain(Tiles(s[k..])) == Gain(Tiles(s0))
  }

  lemma MergingStarts(s: seq<int>)
    requires Packed(s) && s != []
    ensures Merging(s, s, 0, 0)
  {
    assert s[0..] == s && s[..0] == [];
  }

  lemma MergingStep(s0: seq<int>, s: seq<int>, k: nat, gained: int)
    requires Merging(s0, s, k, gained) && k + 1 < |s|
    ensures Merging(s0, MergeAt(s, k), k + 1, gained + if Merges(s, k) then 2 * s[k] else 0)
  {
    MergeStep(s, k);
  }

  lemma MergingEnds(s0: seq<int>, s: seq<int>, gained: int)
    requires s != [] && Merging(s0, s, |s| - 1, gained)
    ensures Tiles(s) == PairMerge(Tiles(s0)) && gained == Gain(Tiles(s0))
  {
    var k := |s| - 1;
    TilesConcat(s[..k], s[k..]);
    assert s[..k] + s[k..] == s;
  }

  // ---------- the rule of the game, without recursion ----------

  /**
   `m` are the tiles `t` merged by the rule. Result `i` is made of the tiles from `g[i]` up to `g[i + 1]`:
   of two equal ones, or of one that is not followed by its equal. So pairs are formed from the wall on,
   and every tile goes into one result.
   */
  ghost predicate ByTheRule(t: seq<int>, m: seq<int>, g: seq<nat>)
  {
    && |g| == |m| + 1 && g[0] == 0 && g[|m|] == |t|
    && forall i :: 0 <= i < |m| ==> MadeOf(t, m[i], g[i], g[i + 1])
  }

  ghost predicate MadeOf(t: seq<int>, v: int, from: nat, to: nat)
  {
    || (to == from + 2 <= |t| && t[from] == t[from + 1] && v == 2 * t[from])
    || (to == from + 1 <= |t| && v == t[from] && (to < |t| ==> t[to] != t[from]))
  }

  lemma {:induction false} MergeByTheRule(t: seq<int>) returns (g: seq<nat>)
    ensures ByTheRule(t, PairMerge(t), g)
    decreases |t|
  {
    if t == [] {
      g := [0];
    } else {
      var n := if |t| > 1 && t[0] == t[1] then 2 else 1;
      var v := if n == 2 then 2 * t[0] else t[0];
      var h := MergeByTheRule(t[n..]);
      assert PairMerge(t) == [v] + PairMerge(t[n..]) by {
        if |t| == 1 {
          assert t == [v] + [];
        }
      }
      g := OneMore(t, v, n, PairMerge(t[n..]), h);
    }
  }

  lemma OneMore(t: seq<int>, v: int, n: nat, m: seq<int>, h: seq<nat>) returns (g: seq<nat>)
    requires 0 < n <= |t| && MadeOf(t, v, 0, n) && ByTheRule(t[n..], m, h)
    ensures ByTheRule(t, [v] + m, g)
  {
    var later := seq(|h|, i requires 0 <= i < |h| => h[i] + n);
    g := [0] + later;
    forall i | 0 <= i < |m| + 1 ensures MadeOf(t, ([v] + m)[i], g[i], g[i + 1]) {
      if i > 0 {
        assert MadeOf(t[n..], m[i - 1], h[i - 1], h[i]);
        MadeLater(t, m[i - 1], n, h[i - 1], h[i]);
      }
    }
  }

  lemma MadeLater(t: seq<int>, v: int, n: nat, from: nat, to: nat)
    requires n <= |t| && MadeOf(t[n..], v, from, to)
    ensures MadeOf(t, v, from + n, to + n)
  {
  }

  lemma {:induction false} RuleIsUnique(t: seq<int>, m: seq<int>, g: seq<nat>, m': seq<int>, g': seq<nat>, k: nat)
    requires ByTheRule(t, m, g) && ByTheRule(t, m', g') && k <= |m| && k <= |m'|
    ensures m[..k] == m'[..k] && g[k] == g'[k]
  {
    if k > 0 {
      RuleIsUnique(t, m, g, m', g', k - 1);
      assert MadeOf(t, m[k - 1], g[k - 1], g[k]) && MadeOf(t, m'[k - 1], g'[k - 1], g'[k]);
      assert m[..k] == m[..k - 1] + [m[k - 1]] && m'[..k] == m'[..k - 1] + [m'[k - 1]];
    }
  }

  lemma {:induction false} RuleReaches(t: seq<int>, m: seq<int>, g: seq<nat>, k: nat, j: nat)
    requires ByTheRule(t, m, g) && k <= j <= |m|
    ensures g[k] + (j - k) <= g[j]
    decreases j - k
  {
    if k < j {
      assert MadeOf(t, m[k], g[k], g[k + 1]);
      RuleReaches(t, m, g, k + 1, j);
    }
  }

  /** The rule has exactly one outcome, and `PairMerge` is it. */
  lemma MergeIsTheRule(t: seq<int>, m: seq<int>)
    ensures m == PairMerge(t) <==> exists g :: ByTheRule(t, m, g)
  {
    var h := MergeByTheRule(t);
    if g :| ByTheRule(t, m, g) {
      var r, k := PairMerge(t), Min(|m|, |PairMerge(t)|);
      RuleIsUnique(t, m, g, r, h, k);
      RuleReaches(t, m, g, k, |m|);
      RuleReaches(t, r, h, k, |r|);
      assert m[..|m|] == m && r[..|r|] == r;
    }
  }

  /** What a move makes of a line: the merged tiles at the wall, in order, and holes behind them. */
  lemma SlideLayout(s: seq<int>, k: nat)
    requires k < |s|
    ensures Slide(s)[k] == if k < |PairMerge(Tiles(s))| then PairMerge(Tiles(s))[k] else -1
  {
  }
}

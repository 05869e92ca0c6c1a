/** What grep should print, and what its cutting of the input makes it print. */
module Lookup {
  import opened Common

  const COLON: byte := 58
  const BUFSIZE: nat := 1024

  /** The place of the first newline, or the length if there is none. */
  function IndexOf(t: seq<byte>): (i: nat)
    ensures i <= |t| && NEWLINE !in t[..i] && (i < |t| ==> t[i] == NEWLINE)
  {
    if t == [] || t[0] == NEWLINE then 0 else
      var i := 1 + IndexOf(t[1..]);
      assert t[..i] == [t[0]] + t[1..][..i - 1];
      i
  }

  /** The lines of a text; a last line without newline counts, an empty rest does not. */
  function Lines(t: seq<byte>): seq<seq<byte>>
    decreases |t|
  {
    if t == [] then []
    else
      var i := IndexOf(t);
      [t[..i]] + if i < |t| then Lines(t[i + 1..]) else []
  }

  /** The pieces grep looks at: lines, but cut after every 1024 bytes that hold no newline. */
  function Cut(t: seq<byte>): seq<seq<byte>>
    decreases |t|
  {
    if t == [] then []
    else
      var i := IndexOf(t);
      if i >= BUFSIZE then [t[..BUFSIZE]] + Cut(t[BUFSIZE..])
      else [t[..i]] + if i < |t| then Cut(t[i + 1..]) else []
  }

  predicate MatchesAt(line: seq<byte>, p: seq<byte>, k: nat)
  {
    k + |p| <= |line| && line[k..k + |p|] == p
  }

  /** The pattern occurs in the line; the empty pattern occurs nowhere. */
  ghost predicate Contains(line: seq<byte>, p: seq<byte>)
  {
    p != [] && exists k: nat :: MatchesAt(line, p, k)
  }

  /** The lines that contain the pattern, in order. */
  ghost function Hits(lines: seq<seq<byte>>, p: seq<byte>): (h: seq<seq<byte>>)
  {
    if lines == [] then []
    else Hit(lines[0], p) + Hits(lines[1..], p)
  }

  ghost function Hit(line: seq<byte>, p: seq<byte>): seq<seq<byte>>
  {
    if Contains(line, p) then [line] else []
  }

  /** The printed form: every line prefixed by the file name. */
  function Render(fname: seq<byte>, lines: seq<seq<byte>>): seq<byte>
  {
    if lines == [] then [] else fname + [COLON] + lines[0] + [NEWLINE] + Render(fname, lines[1..])
  }

  // ---------- cutting ----------

  lemma {:induction false} IndexOfPrefix(x: seq<byte>, y: seq<byte>)
    requires NEWLINE !in x
    ensures IndexOf(x + y) == |x| + IndexOf(y)
  {
    if x == [] {
      assert x + y == y;
    } else {
      IndexOfPrefix(x[1..], y);
      assert x[0] in x && (x + y)[1..] == x[1..] + y;
    }
  }

  lemma CutLine(x: seq<byte>, y: seq<byte>)
    requires NEWLINE !in x && |x| < BUFSIZE
    ensures Cut(x + [NEWLINE] + y) == [x] + Cut(y)
  {
    var t := x + [NEWLINE] + y;
    assert t == x + ([NEWLINE] + y);
    IndexOfPrefix(x, [NEWLINE] + y);
    assert t[..|x|] == x && t[|x| + 1..] == y;
  }

  lemma CutFull(x: seq<byte>, y: seq<byte>)
    requires NEWLINE !in x && |x| == BUFSIZE
    ensures Cut(x + y) == [x] + Cut(y)
  {
    IndexOfPrefix(x, y);
    assert (x + y)[..BUFSIZE] == x && (x + y)[BUFSIZE..] == y;
  }

  lemma NoNewline(x: seq<byte>)
    requires NEWLINE !in x
    ensures IndexOf(x) == |x|
  {
    IndexOfPrefix(x, []);
    assert x + [] == x;
  }

  lemma CutLast(x: seq<byte>)
    requires NEWLINE !in x && 0 < |x| <= BUFSIZE
    ensures Cut(x) == [x]
  {
    NoNewline(x);
    if |x| == BUFSIZE {
      assert x[..BUFSIZE] == x && x[BUFSIZE..] == [];
    } else {
      assert x[..|x|] == x;
    }
  }

  lemma HitsOne(line: seq<byte>, rest: seq<seq<byte>>, p: seq<byte>)
    ensures Hits([line] + rest, p) == Hit(line, p) + Hits(rest, p)
  {
    assert ([line] + rest)[1..] == rest;
  }

  lemma HitsOnly(line: seq<byte>, p: seq<byte>)
    ensures Hits([line], p) == Hit(line, p)
  {
    HitsOne(line, [], p);
    assert [line] + [] == [line];
  }

  // ---------- what the words mean ----------

  lemma ContainsMiddle(a: seq<byte>, p: seq<byte>, b: seq<byte>)
    requires p != []
    ensures Contains(a + p + b, p)
  {
    assert MatchesAt(a + p + b, p, |a|);
  }

  /** A line contains a pattern, which must not be empty, if and only if it has the pattern between two other parts. */
  lemma ContainsExactly(line: seq<byte>, p: seq<byte>)
    ensures Contains(line, p) <==> p != [] && exists a: seq<byte>, b: seq<byte> :: line == a + p + b
  {
    if Contains(line, p) {
      var k: nat :| MatchesAt(line, p, k);
      assert line == line[..k] + p + line[k + |p|..];
    }
    if a: seq<byte>, b: seq<byte> :| p != [] && line == a + p + b {
      ContainsMiddle(a, p, b);
    }
  }

  /** The text of lines, each with its newline. */
  function Unlines(lines: seq<seq<byte>>): seq<byte>
  {
    if lines == [] then [] else lines[0] + [NEWLINE] + Unlines(lines[1..])
  }

  /** The lines are the text between the newlines: put together again they are the text, with a newline at its end. */
  lemma {:induction false} LinesMakeText(t: seq<byte>)
    ensures Unlines(Lines(t)) == WithNewline(t)
    decreases |t|
  {
    hide *;
    if t == [] {
      NoText();
    } else {
      var i := IndexOf(t);
      if i < |t| {
        LinesMakeText(t[i + 1..]);
        LinesFirst(t);
        UnlinesFirst(t[..i], Lines(t[i + 1..]));
        NewlineBehind(t, i);
      } else {
        assert t[..i] == t;
        LineMakesText(t);
      }
    }
  }

  lemma NoText()
    ensures Unlines(Lines([])) == WithNewline([])
  {
  }

  lemma LineMakesText(t: seq<byte>)
    requires NEWLINE !in t && t != []
    ensures Unlines(Lines(t)) == WithNewline(t)
  {
    OnlyLine(t);
    UnlinesFirst(t, []);
    assert [t] + [] == [t] && t + [NEWLINE] + [] == t + [NEWLINE];
    assert t[|t| - 1] in t;
  }

  function WithNewline(t: seq<byte>): seq<byte>
  {
    if t == [] || t[|t| - 1] == NEWLINE then t else t + [NEWLINE]
  }

  lemma UnlinesFirst(line: seq<byte>, rest: seq<seq<byte>>)
    ensures Unlines([line] + rest) == line + [NEWLINE] + Unlines(rest)
  {
    assert ([line] + rest)[1..] == rest;
  }

  lemma NewlineBehind(t: seq<byte>, i: nat)
    requires i < |t| && t[i] == NEWLINE
    ensures t[..i] + [NEWLINE] + WithNewline(t[i + 1..]) == WithNewline(t)
  {
    var rest := t[i + 1..];
    SplitAt(t, i, NEWLINE);
    if rest != [] {
      assert rest[|rest| - 1] == t[|t| - 1];
      assert t[..i] + [NEWLINE] + (rest + [NEWLINE]) == (t[..i] + [NEWLINE] + rest) + [NEWLINE];
    }
  }

  /** The hits are the lines that contain the pattern, each where it stands. */
  lemma {:induction false} HitsConcat(a: seq<seq<byte>>, b: seq<seq<byte>>, p: seq<byte>)
    ensures Hits(a + b, p) == Hits(a, p) + Hits(b, p)
  {
    if a == [] {
      assert a + b == b;
    } else {
      HitsConcat(a[1..], b, p);
      assert (a + b)[1..] == a[1..] + b;
      ConcatAssociative(Hit(a[0], p), Hits(a[1..], p), Hits(b, p));
    }
  }

  lemma HitsOfOne(line: seq<byte>, p: seq<byte>)
    ensures Hits([line], p) == if p != [] && exists a: seq<byte>, b: seq<byte> :: line == a + p + b then [line] else []
  {
    HitsOnly(line, p);
    ContainsExactly(line, p);
  }

  /** The printed form of a list is that of its lines, one after the other, each as file name, colon, line, newline. */
  lemma {:induction false} RenderConcat(fname: seq<byte>, a: seq<seq<byte>>, b: seq<seq<byte>>)
    ensures Render(fname, a + b) == Render(fname, a) + Render(fname, b)
  {
    if a == [] {
      assert a + b == b;
    } else {
      RenderConcat(fname, a[1..], b);
      assert (a + b)[1..] == a[1..] + b;
      ConcatAssociative(fname + [COLON] + a[0] + [NEWLINE], Render(fname, a[1..]), Render(fname, b));
    }
  }

  lemma RenderOfOne(fname: seq<byte>, line: seq<byte>)
    ensures Render(fname, [line]) == fname + [58] + line + [10]
  {
    assert Render(fname, [line]) == fname + [COLON] + line + [NEWLINE] + Render(fname, []);
  }

  // ---------- cutting against lines ----------

  /** A line cut after every 1024 bytes. */
  function Chunks(line: seq<byte>): seq<seq<byte>>
    decreases |line|
  {
    if |line| <= BUFSIZE then [line] else [line[..BUFSIZE]] + Chunks(line[BUFSIZE..])
  }

  /** Chunk `i` is bytes 1024 i up to 1024 i + 1023 of the line, and there are just as many as it takes. */
  lemma {:induction false} ChunkAt(line: seq<byte>, i: nat)
    ensures |Chunks(line)| == if line == [] then 1 else (|line| + 1023) / 1024
    ensures i < |Chunks(line)| ==>
      1024 * i <= |line| && Chunks(line)[i] == line[1024 * i..Min(1024 * i + 1024, |line|)]
    decreases |line|
  {
    if |line| > BUFSIZE {
      var rest := line[BUFSIZE..];
      assert (|rest| + 1023) / 1024 + 1 == (|line| + 1023) / 1024;
      ChunkAt(rest, if i == 0 then 0 else i - 1);
      if 0 < i < |Chunks(line)| {
        var a, b := 1024 * (i - 1), Min(1024 * i, |rest|);
        assert rest == line[BUFSIZE..|line|];
        SliceOfSlice(line, BUFSIZE, |line|, a, b);
      }
    }
  }

  /** All lines cut. */
  function AllChunks(lines: seq<seq<byte>>): seq<seq<byte>>
  {
    if lines == [] then [] else Chunks(lines[0]) + AllChunks(lines[1..])
  }

  lemma AllChunksOf(line: seq<byte>, rest: seq<seq<byte>>, p: seq<byte>)
    ensures Hits(AllChunks([line] + rest), p) == Hits(Chunks(line), p) + Hits(AllChunks(rest), p)
  {
    assert ([line] + rest)[1..] == rest;
    HitsConcat(Chunks(line), AllChunks(rest), p);
  }

  /** Whatever the text, grep's hits are those of its lines with each line cut after every 1024 bytes. */
  lemma {:induction false} HitsAreChunks(t: seq<byte>, p: seq<byte>)
    ensures Hits(Cut(t), p) == Hits(AllChunks(Lines(t)), p)
    decreases |t|
  {
    if t != [] {
      var i := IndexOf(t);
      if i < |t| {
        SplitAt(t, i, NEWLINE);
        LinesFirst(t);
        HitsAreChunks(t[i + 1..], p);
        CutFirstLine(t[..i], t[i + 1..], p);
        AllChunksOf(t[..i], Lines(t[i + 1..]), p);
      } else {
        assert t[..|t|] == t;
        OnlyLine(t);
        CutOnlyLine(t, p);
        AllChunksOf(t, [], p);
        assert [t] + [] == [t];
      }
    }
  }

  lemma EmptyNeverHits(p: seq<byte>)
    ensures !Contains([], p)
  {
  }

  /** The pieces of a text are the chunks of its first line, and then those of the rest. */
  lemma {:induction false} CutFirstLine(line: seq<byte>, y: seq<byte>, p: seq<byte>)
    requires NEWLINE !in line
    ensures Hits(Cut(line + [NEWLINE] + y), p) == Hits(Chunks(line), p) + Hits(Cut(y), p)
    decreases |line|
  {
    if |line| < BUFSIZE {
      CutLine(line, y);
      HitsOne(line, Cut(y), p);
      HitsOnly(line, p);
    } else if |line| == BUFSIZE {
      CutFullLine(line, y, p);
    } else {
      CutFirstLine(line[BUFSIZE..], y, p);
      CutLongLine(line, y, p);
    }
  }

  lemma CutLongLine(line: seq<byte>, y: seq<byte>, p: seq<byte>)
    requires NEWLINE !in line && |line| > BUFSIZE
    requires Hits(Cut(line[BUFSIZE..] + [NEWLINE] + y), p) == Hits(Chunks(line[BUFSIZE..]), p) + Hits(Cut(y), p)
    ensures Hits(Cut(line + [NEWLINE] + y), p) == Hits(Chunks(line), p) + Hits(Cut(y), p)
  {
    var x, r := line[..BUFSIZE], line[BUFSIZE..];
    var z := r + [NEWLINE] + y;
    assert line + [NEWLINE] + y == x + z;
    CutChunk(x, z, p);
    ChunkFirst(line, p);
    ConcatAssociative(Hit(x, p), Hits(Chunks(r), p), Hits(Cut(y), p));
  }

  lemma CutChunk(x: seq<byte>, z: seq<byte>, p: seq<byte>)
    requires NEWLINE !in x && |x| == BUFSIZE
    ensures Hits(Cut(x + z), p) == Hit(x, p) + Hits(Cut(z), p)
  {
    CutFull(x, z);
    HitsOne(x, Cut(z), p);
  }

  lemma ChunkFirst(line: seq<byte>, p: seq<byte>)
    requires |line| > BUFSIZE
    ensures Hits(Chunks(line), p) == Hit(line[..BUFSIZE], p) + Hits(Chunks(line[BUFSIZE..]), p)
  {
    HitsOne(line[..BUFSIZE], Chunks(line[BUFSIZE..]), p);
  }

  /** A line that fills the buffer leaves its newline behind, which makes an empty piece. */
  lemma CutFullLine(line: seq<byte>, y: seq<byte>, p: seq<byte>)
    requires NEWLINE !in line && |line| == BUFSIZE
    ensures Hits(Cut(line + [NEWLINE] + y), p) == Hits(Chunks(line), p) + Hits(Cut(y), p)
  {
    assert line + [NEWLINE] + y == line + ([] + [NEWLINE] + y);
    CutFull(line, [] + [NEWLINE] + y);
    CutLine([], y);
    EmptyNeverHits(p);
    HitsOne([], Cut(y), p);
    HitsOne(line, [[]] + Cut(y), p);
    HitsOnly(line, p);
  }

  lemma {:induction false} CutOnlyLine(line: seq<byte>, p: seq<byte>)
    requires NEWLINE !in line && line != []
    ensures Hits(Cut(line), p) == Hits(Chunks(line), p)
    decreases |line|
  {
    if |line| <= BUFSIZE {
      CutLast(line);
    } else {
      var x, r := line[..BUFSIZE], line[BUFSIZE..];
      assert line == x + r;
      CutFull(x, r);
      CutOnlyLine(r, p);
      HitsOne(x, Cut(r), p);
      HitsOne(x, Chunks(r), p);
    }
  }

  lemma SliceOfSlice(s: seq<byte>, i: nat, j: nat, k: nat, m: nat)
    requires i <= j <= |s| && k <= m <= j - i
    ensures s[i..j][k..m] == s[i + k..i + m]
  {
    assert forall e :: 0 <= e < m - k ==> s[i..j][k..m][e] == s[i + k + e];
  }

  lemma ContainsInPart(line: seq<byte>, i: nat, j: nat, p: seq<byte>)
    requires i <= j <= |line| && Contains(line[i..j], p)
    ensures Contains(line, p)
  {
    var k: nat :| MatchesAt(line[i..j], p, k);
    SliceOfSlice(line, i, j, k, k + |p|);
    assert MatchesAt(line, p, i + k);
  }

  lemma {:induction false} NoHitNoChunk(line: seq<byte>, p: seq<byte>)
    requires !Contains(line, p)
    ensures Hits(Chunks(line), p) == []
    decreases |line|
  {
    if |line| <= BUFSIZE {
      HitsOnly(line, p);
    } else {
      var x, r := line[..BUFSIZE], line[BUFSIZE..];
      if Contains(x, p) {
        assert x == line[0..BUFSIZE];
        ContainsInPart(line, 0, BUFSIZE, p);
      }
      if Contains(r, p) {
        assert r == line[BUFSIZE..|line|];
        ContainsInPart(line, BUFSIZE, |line|, p);
      }
      NoHitNoChunk(r, p);
      HitsOne(x, Chunks(r), p);
    }
  }

  /** No line longer than the buffer contains the pattern. */
  ghost predicate ShortHits(t: seq<byte>, p: seq<byte>)
  {
    forall line :: line in Lines(t) && |line| > BUFSIZE ==> !Contains(line, p)
  }

  lemma LineOrNothing(line: seq<byte>, p: seq<byte>)
    requires |line| > BUFSIZE ==> !Contains(line, p)
    ensures Hits(Chunks(line), p) == Hit(line, p)
  {
    if |line| <= BUFSIZE {
      HitsOnly(line, p);
    } else {
      NoHitNoChunk(line, p);
    }
  }

  lemma SplitAt(t: seq<byte>, i: nat, v: byte)
    requires i < |t| && t[i] == v
    ensures t == t[..i] + [v] + t[i + 1..]
  {
  }

  lemma LinesFirst(t: seq<byte>)
    requires IndexOf(t) < |t|
    ensures Lines(t) == [t[..IndexOf(t)]] + Lines(t[IndexOf(t) + 1..])
  {
  }

  lemma {:induction false} ShortHitsSuffice(t: seq<byte>, p: seq<byte>)
    requires ShortHits(t, p)
    ensures Hits(Cut(t), p) == Hits(Lines(t), p)
    decreases |t|
  {
    var i := IndexOf(t);
    var line := t[..i];
    if t == [] {
    } else if i < |t| {
      var y := t[i + 1..];
      SplitAt(t, i, NEWLINE);
      LinesFirst(t);
      assert Lines(t)[0] == line;
      LineOrNothing(line, p);
      forall l | l in Lines(y) ensures l in Lines(t) {}
      ShortHitsSuffice(y, p);
      CutFirstLine(line, y, p);
      HitsOne(line, Lines(y), p);
    } else {
      LastLine(t, p);
    }
  }

  lemma LastLine(t: seq<byte>, p: seq<byte>)
    requires t != [] && IndexOf(t) == |t| && ShortHits(t, p)
    ensures Hits(Cut(t), p) == Hits(Lines(t), p)
  {
    assert t[..|t|] == t && Lines(t) == [t] + [];
    assert t in Lines(t);
    CutOnlyLine(t, p);
    LineOrNothing(t, p);
    HitsOne(t, [], p);
  }

  lemma {:induction false} PiecesAreShort(t: seq<byte>)
    ensures forall x :: x in Cut(t) ==> |x| <= BUFSIZE && NEWLINE !in x
    decreases |t|
  {
    if t != [] {
      var i := IndexOf(t);
      if i >= BUFSIZE {
        PiecesAreShort(t[BUFSIZE..]);
        assert t[..i][..BUFSIZE] == t[..BUFSIZE];
      } else if i < |t| {
        PiecesAreShort(t[i + 1..]);
      }
    }
  }

  lemma {:induction false} HitsAreLines(lines: seq<seq<byte>>, p: seq<byte>)
    ensures forall x :: x in Hits(lines, p) <==> x in lines && Contains(x, p)
  {
    if lines != [] {
      HitsAreLines(lines[1..], p);
    }
  }

  lemma {:induction false} LinesHaveNoNewline(t: seq<byte>)
    ensures forall x :: x in Lines(t) ==> NEWLINE !in x
    decreases |t|
  {
    if t != [] && IndexOf(t) < |t| {
      LinesHaveNoNewline(t[IndexOf(t) + 1..]);
    }
  }

  /** Distinct lists of lines print differently. */
  lemma {:induction false} RenderInjective(fname: seq<byte>, a: seq<seq<byte>>, b: seq<seq<byte>>)
    requires NEWLINE !in fname
    requires forall x :: x in a || x in b ==> NEWLINE !in x
    requires Render(fname, a) == Render(fname, b)
    ensures a == b
  {
    if a != [] && b != [] {
      var h := fname + [COLON];
      RenderFirst(fname, a);
      RenderFirst(fname, b);
      assert a[0] in a && b[0] in b;
      var r := Render(fname, a);
      assert r[|h|..IndexOf(r)] == a[0] && r[|h|..IndexOf(r)] == b[0];
      assert r[IndexOf(r) + 1..] == Render(fname, a[1..]) && r[IndexOf(r) + 1..] == Render(fname, b[1..]);
      RenderInjective(fname, a[1..], b[1..]);
      assert a == [a[0]] + a[1..] && b == [b[0]] + b[1..];
    }
  }

  lemma RenderFirst(fname: seq<byte>, a: seq<seq<byte>>)
    requires a != [] && NEWLINE !in fname && NEWLINE !in a[0]
    ensures var r, h := Render(fname, a), fname + [COLON];
      && IndexOf(r) == |h| + |a[0]| < |r|
      && r[|h|..IndexOf(r)] == a[0]
      && r[IndexOf(r) + 1..] == Render(fname, a[1..])
  {
    var h := fname + [COLON];
    var x := h + a[0];
    var rest := Render(fname, a[1..]);
    assert Render(fname, a) == x + ([NEWLINE] + rest);
    IndexOfPrefix(x, [NEWLINE] + rest);
  }

  /**
   What grep prints is what it should print, the lines containing the pattern, if and only if no
   line of more than 1024 bytes contains the pattern.
   */
  lemma GrepIsExact(t: seq<byte>, p: seq<byte>, fname: seq<byte>)
    requires NEWLINE !in fname
    ensures Render(fname, Hits(Cut(t), p)) == Render(fname, Hits(Lines(t), p)) <==> ShortHits(t, p)
  {
    if ShortHits(t, p) {
      ShortHitsSuffice(t, p);
    } else {
      var line :| line in Lines(t) && |line| > BUFSIZE && Contains(line, p);
      HitsAreLines(Lines(t), p);
      HitsAreLines(Cut(t), p);
      PiecesAreShort(t);
      LinesHaveNoNewline(t);
      assert line in Hits(Lines(t), p) && line !in Hits(Cut(t), p);
      if Render(fname, Hits(Cut(t), p)) == Render(fname, Hits(Lines(t), p)) {
        RenderInjective(fname, Hits(Cut(t), p), Hits(Lines(t), p));
      }
    }
  }

  /** What is lost: a line of 1025 characters whose last two are the pattern is cut between them. */
  lemma CutLosesHit(x: seq<byte>)
    requires |x| == 1023 && forall c :: c in x ==> c == 120
    ensures var t, p := x + [97] + [98], [97, 98];
      Hits(Lines(t), p) == [t] && Hits(Cut(t), p) == []
  {
    var t: seq<byte>, p: seq<byte> := x + [97] + [98], [97, 98];
    assert t == x + p + [];
    ContainsMiddle(x, p, []);
    OnlyLine(t);
    HitsOnly(t, p);
    LostInTheCut(x + [97], p);
  }

  lemma OnlyLine(t: seq<byte>)
    requires NEWLINE !in t && t != []
    ensures Lines(t) == [t]
  {
    NoNewline(t);
    assert t[..|t|] == t;
  }

  lemma LostInTheCut(y: seq<byte>, p: seq<byte>)
    requires |y| == BUFSIZE && NEWLINE !in y && 98 !in y && p == [97, 98]
    ensures Hits(Cut(y + [98]), p) == []
  {
    CutFull(y, [98]);
    CutLast([98]);
    HitsOne(y, [[98]], p);
    HitsOnly([98], p);
    assert p[1] == 98;
    if Contains(y, p) {
      CharactersFound(y, p);
    }
  }

  lemma CharactersFound(line: seq<byte>, p: seq<byte>)
    requires Contains(line, p)
    ensures forall c :: c in p ==> c in line
  {
    var k: nat :| MatchesAt(line, p, k);
    forall i | 0 <= i < |p| ensures p[i] in line {
      assert line[k..k + |p|][i] == line[k + i];
    }
  }
}

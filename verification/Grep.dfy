/**
 grep over one file: a buffer of 1024 bytes is refilled from the file, cut into lines in place,
 searched line by line, and its unfinished last line is shifted down before the next refill.
 */
module Grep {
  import opened Common
  import opened Strings
  import opened FileSystem
  import opened Lookup

  const OPEN_FAILED: seq<byte> := [102, 105, 108, 101, 32, 111, 112, 101, 110, 32, 102, 97, 105, 108, 101, 100, 10]
  const READ_FAILED: seq<byte> := [102, 105, 108, 101, 32, 114, 101, 97, 100, 32, 102, 97, 105, 108, 101, 100, 10]

  /** A string in memory: `p` and its terminator. */
  ghost predicate IsString(s: seq<byte>, p: seq<byte>)
  {
    s == p + [NUL] && NUL !in p
  }

  /** Compares at most `|p|` bytes, up to the first difference. */
  method StrNCmp(data: array<byte>, at: nat, ghost end: nat, s: seq<byte>, ghost p: seq<byte>) returns (difference: int)
    requires StringAt(data[..], at, end) && IsString(s, p)
    ensures difference == 0 <==> MatchesAt(data[..end], p, at)
  {
    var n := |s| - 1;
    if n == 0 {
      return 0;
    }
    var k := 0;
    while data[at + k] == s[k]
      invariant 0 <= k < |p| && at + k <= end
      invariant data[at..at + k] == p[..k]
      decreases |p| - k
    {
      assert s[k] == p[k] && p[k] in p;
      assert at + k < end;
      assert data[at..at + k + 1] == data[at..at + k] + [data[at + k]];
      assert p[..k + 1] == p[..k] + [p[k]];
      if data[at + k] == NUL || k + 1 == n {
        assert p[..k + 1] == p;
        assert data[..end][at..at + |p|] == data[at..at + |p|];
        return 0;
      }
      k := k + 1;
    }
    difference := data[at + k] as int - s[k] as int;
    MatchAgrees(data[..], end, p, at, k);
  }

  lemma MatchAgrees(data: seq<byte>, end: nat, p: seq<byte>, at: nat, k: nat)
    requires end <= |data| && k < |p|
    ensures MatchesAt(data[..end], p, at) ==> at + k < end && data[at + k] == p[k]
  {
    if MatchesAt(data[..end], p, at) {
      assert data[..end][at..at + |p|][k] == data[at + k];
    }
  }

  /** `d` is `d0` after `k` bytes at `src` have been copied down to `dst`. */
  ghost predicate ShiftedDown(d0: seq<byte>, dst: nat, src: nat, k: nat, d: seq<byte>)
  {
    dst <= src && src + k <= |d0| && d == d0[..dst] + d0[src..src + k] + d0[dst + k..]
  }

  lemma ShiftOne(d0: seq<byte>, dst: nat, src: nat, k: nat, d: seq<byte>)
    requires ShiftedDown(d0, dst, src, k, d) && src + k < |d0|
    ensures d[src + k] == d0[src + k]
    ensures ShiftedDown(d0, dst, src, k + 1, d[dst + k := d[src + k]])
  {
    var l, r := d[dst + k := d[src + k]], d0[..dst] + d0[src..src + k + 1] + d0[dst + k + 1..];
    forall i | 0 <= i < |d0| ensures l[i] == r[i] {
    }
  }

  lemma NothingShifted(d0: seq<byte>, dst: nat, src: nat)
    requires dst <= src <= |d0|
    ensures ShiftedDown(d0, dst, src, 0, d0)
  {
  }

  /** Copies the string at `src` down to `dst`. */
  method StrCpy(data: array<byte>, dst: nat, src: nat, ghost end: nat)
    requires dst <= src && StringAt(data[..], src, end)
    modifies data
    ensures ShiftedDown(old(data[..]), dst, src, end + 1 - src, data[..])
  {
    hide ShiftedDown;
    ghost var d0 := data[..];
    NothingShifted(d0, dst, src);
    var k := 0;
    while true
      invariant src + k <= end
      invariant ShiftedDown(d0, dst, src, k, data[..])
      decreases end - src - k
    {
      ghost var d := data[..];
      ShiftOne(d0, dst, src, k, d);
      data[dst + k] := data[src + k];
      if data[dst + k] == NUL {
        break;
      }
      k := k + 1;
    }
  }

  /** Prints the file name and the line at `start` if the line contains the pattern. */
  method SearchLine(data: array<byte>, start: nat, end: nat, s: seq<byte>, ghost p: seq<byte>, fname: seq<byte>)
    returns (printed: seq<byte>)
    requires StringAt(data[..], start, end) && IsString(s, p)
    ensures printed == Render(fname, Hit(data[start..end], p))
  {
    ghost var line := data[start..end];
    printed := [];
    var check := start;
    while check < end
      invariant start <= check <= end
      invariant p != [] ==> forall k: nat :: k < check - start ==> !MatchesAt(line, p, k)
      invariant printed == []
    {
      PartMatches(data[..], start, end, p, check);
      if s[0] == data[check] {
        var difference := StrNCmp(data, check, end, s, p);
        if difference == 0 {
          assert data[check] != NUL && p != [];
          assert MatchesAt(line, p, check - start);
          var len := StrLen(data, start, end);
          printed := fname + [COLON] + data[start..start + len] + [NEWLINE];
          RenderOfOne(fname, line);
          return;
        }
      }
      check := check + 1;
    }
    NoPlaceLeft(line, p);
  }

  /** A match at `check` in the buffer is a match in the line, and begins with the first byte of the pattern. */
  lemma PartMatches(data: seq<byte>, start: nat, end: nat, p: seq<byte>, check: nat)
    requires start <= check < end <= |data|
    ensures MatchesAt(data[..end], p, check) <==> MatchesAt(data[start..end], p, check - start)
    ensures p != [] && MatchesAt(data[start..end], p, check - start) ==> p[0] == data[check]
  {
    if check + |p| <= end {
      assert data[..end][check..check + |p|] == data[start..end][check - start..check - start + |p|];
      assert p != [] ==> data[..end][check..check + |p|][0] == data[check];
    }
  }

  lemma NoPlaceLeft(line: seq<byte>, p: seq<byte>)
    requires p != [] ==> forall k: nat :: k < |line| ==> !MatchesAt(line, p, k)
    ensures !Contains(line, p)
  {
  }

  // ---------- the whole file ----------

  /** What grep prints for a text that begins at a line. */
  ghost function Expected(t: seq<byte>, p: seq<byte>, fname: seq<byte>): seq<byte>
  {
    Render(fname, Hits(Cut(t), p))
  }

  lemma RenderHit(fname: seq<byte>, x: seq<byte>, rest: seq<seq<byte>>, p: seq<byte>)
    ensures Render(fname, Hits([x] + rest, p)) == Render(fname, Hit(x, p)) + Render(fname, Hits(rest, p))
  {
    HitsOne(x, rest, p);
    if Contains(x, p) {
      RenderOfOne(fname, x);
      assert ([x] + Hits(rest, p))[1..] == Hits(rest, p);
    } else {
      assert [] + Hits(rest, p) == Hits(rest, p);
    }
  }

  lemma ExpectLine(x: seq<byte>, y: seq<byte>, p: seq<byte>, fname: seq<byte>)
    requires NEWLINE !in x && |x| < BUFSIZE
    ensures Expected(x + [NEWLINE] + y, p, fname) == Render(fname, Hit(x, p)) + Expected(y, p, fname)
  {
    CutLine(x, y);
    RenderHit(fname, x, Cut(y), p);
  }

  lemma ExpectFull(x: seq<byte>, y: seq<byte>, p: seq<byte>, fname: seq<byte>)
    requires NEWLINE !in x && |x| == BUFSIZE
    ensures Expected(x + y, p, fname) == Render(fname, Hit(x, p)) + Expected(y, p, fname)
  {
    CutFull(x, y);
    RenderHit(fname, x, Cut(y), p);
  }

  lemma ExpectLast(x: seq<byte>, p: seq<byte>, fname: seq<byte>)
    requires NEWLINE !in x && |x| <= BUFSIZE
    ensures Expected(x, p, fname) == Render(fname, Hit(x, p))
  {
    if x == [] {
      EmptyNeverHits(p);
    } else {
      CutLast(x);
      HitsOnly(x, p);
    }
  }

  /** The first newline of the buffer at or after `start`, or `last`. */
  method FindEnd(data: array<byte>, start: nat, last: nat) returns (end: nat)
    requires start <= last <= data.Length
    ensures start <= end <= last
    ensures NEWLINE !in data[start..end]
    ensures end < last ==> data[end] == NEWLINE
  {
    end := start;
    while end < last && data[end] != NEWLINE
      invariant start <= end <= last && NEWLINE !in data[start..end]
    {
      assert data[start..end + 1] == data[start..end] + [data[end]];
      end := end + 1;
    }
  }

  /** The buffer still holds what is left to be searched, from `start`, of the bytes `t` that it was filled with. */
  ghost predicate Filled(data: seq<byte>, start: nat, t: seq<byte>)
  {
    && |data| == BUFSIZE + 1 && start <= |t| <= BUFSIZE
    && data[BUFSIZE] != NEWLINE
    && forall k :: start <= k < |t| ==> data[k] == t[k] && t[k] != NUL
  }

  /** A read that does not fill the buffer, or returns nothing, has reached the end of the file. */
  ghost predicate AtEnd(last: nat, count: nat, rest: seq<byte>)
  {
    last < BUFSIZE || count == 0 ==> rest == []
  }

  /** The bytes kept at the start of the buffer for the next refill. */
  ghost predicate Kept(data: seq<byte>, left: nat, u: seq<byte>)
  {
    && |data| == BUFSIZE + 1 && left < BUFSIZE
    && data[BUFSIZE] != NEWLINE
    && data[..left] == u && NUL !in u
  }

  lemma AfterShift(d: seq<byte>, start: nat, t: seq<byte>, r: seq<byte>)
    requires Filled(d, start, t) && 0 < start
    requires var e := d[|t| := NUL]; r == e[start..|t| + 1] + e[|t| + 1 - start..]
    ensures Kept(r, |t| - start, t[start..])
  {
    var e, left := d[|t| := NUL], |t| - start;
    assert r[..left] == e[start..|t| + 1][..left] == t[start..];
    assert |e[start..|t| + 1]| == left + 1;
    assert r[BUFSIZE] == e[|t| + 1 - start..][BUFSIZE - (left + 1)];
  }

  /** Moves what is left to be searched to the start of the buffer. */
  method ShiftLine(data: array<byte>, start: nat, ghost t: seq<byte>, end: nat)
    requires Filled(data[..], start, t) && end == |t| && 0 < start
    modifies data
    ensures Kept(data[..], end - start, t[start..])
  {
    ghost var d0 := data[..];
    data[end] := NUL;
    ghost var d := data[..];
    StrCpy(data, 0, start, end);
    assert d[..0] + d[start..end + 1] == d[start..end + 1];
    AfterShift(d0, start, t, data[..]);
  }

  /** What remains of the text in the buffer once the line that ends at `end` is done. */
  function After(t: seq<byte>, end: nat): seq<byte>
    requires end <= |t|
  {
    if end < |t| then t[end + 1..] else []
  }

  /** With `printed` on the screen and `text` still to be searched, grep is on its way to print `want`. */
  ghost predicate Owed(printed: seq<byte>, text: seq<byte>, want: seq<byte>, p: seq<byte>, fname: seq<byte>)
  {
    printed + Expected(text, p, fname) == want
  }

  /** A line ends at `end`: with a newline, with the file, or with the buffer that it fills. */
  ghost predicate Ends(t: seq<byte>, start: nat, end: nat, rest: seq<byte>)
  {
    end <= |t| && if end < |t| then t[end] == NEWLINE else rest == [] || (start == 0 && end == BUFSIZE)
  }

  lemma LineDone(t: seq<byte>, start: nat, end: nat, rest: seq<byte>, printed: seq<byte>, want: seq<byte>,
        p: seq<byte>, fname: seq<byte>)
    requires start <= end <= |t| <= BUFSIZE && NEWLINE !in t[start..end]
    requires Ends(t, start, end, rest)
    requires Owed(printed, t[start..] + rest, want, p, fname)
    ensures Owed(printed + Render(fname, Hit(t[start..end], p)), After(t, end) + rest, want, p, fname)
  {
    LineExpected(t, start, end, rest, p, fname);
    ConcatAssociative(printed, Render(fname, Hit(t[start..end], p)), Expected(After(t, end) + rest, p, fname));
  }

  lemma LineExpected(t: seq<byte>, start: nat, end: nat, rest: seq<byte>, p: seq<byte>, fname: seq<byte>)
    requires start <= end <= |t| <= BUFSIZE && NEWLINE !in t[start..end]
    requires Ends(t, start, end, rest)
    ensures Expected(t[start..] + rest, p, fname) ==
      Render(fname, Hit(t[start..end], p)) + Expected(After(t, end) + rest, p, fname)
  {
    if end < |t| {
      FinishedLine(t, start, end, rest, p, fname);
    } else {
      assert t[start..] == t[start..end] && After(t, end) + rest == rest;
      UnfinishedLine(t[start..end], rest, p, fname);
    }
  }

  lemma FinishedLine(t: seq<byte>, start: nat, end: nat, rest: seq<byte>, p: seq<byte>, fname: seq<byte>)
    requires start <= end < |t| <= BUFSIZE && NEWLINE !in t[start..end] && t[end] == NEWLINE
    ensures Expected(t[start..] + rest, p, fname) ==
      Render(fname, Hit(t[start..end], p)) + Expected(After(t, end) + rest, p, fname)
  {
    var x := t[start..end];
    assert t[start..] + rest == x + [NEWLINE] + (t[end + 1..] + rest);
    ExpectLine(x, t[end + 1..] + rest, p, fname);
  }

  lemma UnfinishedLine(x: seq<byte>, rest: seq<byte>, p: seq<byte>, fname: seq<byte>)
    requires NEWLINE !in x && |x| <= BUFSIZE && (rest == [] || |x| == BUFSIZE)
    ensures Expected(x + rest, p, fname) == Render(fname, Hit(x, p)) + Expected(rest, p, fname)
  {
    if rest == [] {
      assert x + rest == x;
      ExpectLast(x, p, fname);
      assert Expected(rest, p, fname) == [];
    } else {
      ExpectFull(x, rest, p, fname);
    }
  }

  lemma Ended(d: seq<byte>, start: nat, end: nat, t: seq<byte>, r: seq<byte>)
    requires Filled(d, start, t) && start <= end <= |t| && r == d[end := NUL]
    ensures StringAt(r, start, end) && r[start..end] == t[start..end] && r[BUFSIZE] != NEWLINE
    ensures end < |t| ==> Filled(r, end + 1, t)
  {
    forall k | start <= k < end ensures r[k] == t[k] && r[k] != NUL {
    }
  }

  /** Ends the line at `end` and adds it to what has been printed if it contains the pattern. */
  method FinishLine(data: array<byte>, start: nat, end: nat, s: seq<byte>, ghost p: seq<byte>, fname: seq<byte>,
                    before: seq<byte>, ghost t: seq<byte>, ghost rest: seq<byte>, ghost want: seq<byte>)
    returns (printed: seq<byte>)
    requires Filled(data[..], start, t) && start <= end <= |t| && IsString(s, p)
    requires NEWLINE !in t[start..end]
    requires Ends(t, start, end, rest)
    requires Owed(before, t[start..] + rest, want, p, fname)
    modifies data
    ensures end < |t| ==> Filled(data[..], end + 1, t)
    ensures Kept(data[..], 0, []) && (end + 1 >= |t| ==> After(t, end) == [])
    ensures Owed(printed, After(t, end) + rest, want, p, fname)
  {
    LineDone(t, start, end, rest, before, want, p, fname);
    ghost var d := data[..];
    data[end] := NUL;
    Ended(d, start, end, t, data[..]);
    var hit := SearchLine(data, start, end, s, p, fname);
    printed := before + hit;
  }

  /** The end in the buffer of the line that begins at `start`, and whether more of the line has to be read. */
  method NextLine(data: array<byte>, start: nat, last: nat, count: nat, ghost t: seq<byte>, ghost rest: seq<byte>)
    returns (end: nat, unfinished: bool)
    requires Filled(data[..], start, t) && last == |t| && AtEnd(last, count, rest)
    ensures start <= end <= last && NEWLINE !in t[start..end]
    ensures if unfinished then end == last && 0 < start && count != 0 else Ends(t, start, end, rest)
  {
    end := FindEnd(data, start, last);
    assert data[start..end] == t[start..end];
    unfinished := data[end] != NEWLINE && count != 0 && start != 0;
  }

  /**
   Searches the lines in the first `last` bytes of the buffer. A line that is not finished yet is
   moved to the start of the buffer, unless it starts there already or the file has ended.
   */
  method SearchBuffer(data: array<byte>, last: nat, count: nat, s: seq<byte>, ghost p: seq<byte>, fname: seq<byte>,
                      before: seq<byte>, ghost t: seq<byte>, ghost rest: seq<byte>, ghost want: seq<byte>)
    returns (printed: seq<byte>, left: nat, ghost u: seq<byte>)
    requires Filled(data[..], 0, t) && last == |t| && AtEnd(last, count, rest) && IsString(s, p)
    requires Owed(before, t + rest, want, p, fname)
    modifies data
    ensures Kept(data[..], left, u) && (count == 0 ==> left == 0)
    ensures Owed(printed, u + rest, want, p, fname)
  {
    hide Owed, Expected;
    printed := before;
    var start := 0;
    assert t[0..] == t;
    while true
      invariant Filled(data[..], start, t)
      invariant Owed(printed, t[start..] + rest, want, p, fname)
      decreases last - start
    {
      var end, unfinished := NextLine(data, start, last, count, t, rest);
      if unfinished {
        ShiftLine(data, start, t, end);
        return printed, last - start, t[start..];
      }
      printed := FinishLine(data, start, end, s, p, fname, printed, t, rest, want);
      start := end + 1;
      if start >= last {
        return printed, 0, [];
      }
    }
  }

  /** What a successful read tells about the file. */
  lemma AfterRead(v: Volume, inode: nat, position: nat, size: nat)
    requires position <= |Content(v, v.inodeAt(inode))|
    requires ReadResult(v, inode, position, size) >= 0
    ensures ReadResult(v, inode, position, size) == Min(size, |Content(v, v.inodeAt(inode))| - position)
  {
  }

  lemma Refilled(d: seq<byte>, d': seq<byte>, c: seq<byte>, kept: nat, from: nat, to: nat)
    requires kept + (to - from) <= |d| && from <= to <= |c|
    requires d' == d[..kept] + c[from..to] + d[kept + (to - from)..]
    ensures d'[..kept + (to - from)] + c[to..] == d[..kept] + c[from..]
  {
    assert d'[..kept + (to - from)] == d[..kept] + c[from..to];
    assert c[from..to] + c[to..] == c[from..];
  }

  lemma AllShown(printed: seq<byte>, u: seq<byte>, rest: seq<byte>, want: seq<byte>, p: seq<byte>, fname: seq<byte>)
    requires Owed(printed, u + rest, want, p, fname) && u == [] && rest == []
    ensures printed == want
  {
    assert u + rest == [];
    assert Expected([], p, fname) == [];
  }

  /** Reads on behind the `last` bytes `u` that are left in the buffer; `rest` is what the file still holds. */
  method Refill(data: array<byte>, last: nat, ghost u: seq<byte>, f: OpenFile, ghost rest: seq<byte>)
    returns (count: int, ghost t: seq<byte>, ghost rest': seq<byte>)
    requires Kept(data[..], last, u) && Searchable(f) && f.position <= |f.Bytes()| && rest == f.Bytes()[f.position..]
    modifies data, f`position
    ensures -1 <= count <= BUFSIZE - last
    ensures Readable(f.volume, f.inode) ==> count >= 0
    ensures f.position == old(f.position) + (if count == -1 then 0 else count) <= |f.Bytes()|
    ensures rest' == f.Bytes()[f.position..]
    ensures count >= 0 ==>
      Filled(data[..], 0, t) && |t| == last + count && AtEnd(|t|, count, rest') && t + rest' == u + rest
  {
    ghost var c, from, d := f.Bytes(), f.position, data[..];
    count := f.FileRead(data, last, BUFSIZE - last);
    t, rest' := u, c[f.position..];
    if count == -1 {
      ReadableExactly(f.volume, f.inode);
    } else {
      t := data[..last + count];
      AfterRead(f.volume, f.inode, from, BUFSIZE - last);
      Refilled(d, data[..], c, last, from, f.position);
      RefilledText(d, data[..], c, last, u, from, f.position);
    }
  }

  lemma RefilledText(d: seq<byte>, d': seq<byte>, c: seq<byte>, last: nat, u: seq<byte>, from: nat, to: nat)
    requires Kept(d, last, u) && from <= to <= |c| && last + (to - from) <= BUFSIZE && NUL !in c
    requires d' == d[..last] + c[from..to] + d[last + (to - from)..]
    ensures Filled(d', 0, d'[..last + (to - from)])
  {
    var t := d'[..last + (to - from)];
    assert t == u + c[from..to];
    assert d'[BUFSIZE] == d[last + (to - from)..][BUFSIZE - (last + (to - from))];
    forall k | 0 <= k < |t| ensures t[k] != NUL {
      if k < last {
        assert t[k] == u[k] && u[k] in u;
      } else {
        assert t[k] == c[from + (k - last)] && c[from + (k - last)] in c;
      }
    }
  }

  /** A text file whose size leaves room for the arithmetic on offsets. */
  ghost predicate Searchable(f: OpenFile)
  {
    |f.Bytes()| + BUFSIZE < 0x1_0000_0000 && NUL !in f.Bytes()
  }

  /** Part of what should be printed, and then a complaint. */
  ghost predicate CutShort(output: seq<byte>, want: seq<byte>, p: seq<byte>, fname: seq<byte>)
  {
    exists printed, text :: output == printed + READ_FAILED && Owed(printed, text, want, p, fname)
  }

  lemma FailedRead(printed: seq<byte>, text: seq<byte>, want: seq<byte>, p: seq<byte>, fname: seq<byte>)
    requires Owed(printed, text, want, p, fname)
    ensures CutShort(printed + READ_FAILED, want, p, fname)
  {
  }

  /**
   Prints the lines of an open file that contain the pattern. `data` is the buffer, with whatever
   it holds when the function is entered.
   */
  method GrepFile(s: seq<byte>, ghost p: seq<byte>, fname: seq<byte>, f: OpenFile, data: array<byte>)
    returns (code: int, output: seq<byte>)
    requires IsString(s, p) && Searchable(f) && f.position == 0
    requires data.Length == BUFSIZE + 1 && data[BUFSIZE] != NEWLINE
    modifies data, f`position
    ensures Readable(f.volume, f.inode) ==> code == 0
    ensures code == 0 ==> output == Expected(f.Bytes(), p, fname)
    ensures code != 0 ==> CutShort(output, Expected(f.Bytes(), p, fname), p, fname)
  {
    ghost var u: seq<byte>, rest, want := [], f.Bytes(), Expected(f.Bytes(), p, fname);
    output := [];
    var last: nat := 0;
    assert u + rest == rest;
    while true
      invariant f.position <= |f.Bytes()| && rest == f.Bytes()[f.position..]
      invariant Kept(data[..], last, u)
      invariant Owed(output, u + rest, want, p, fname)
      decreases |f.Bytes()| - f.position
    {
      ghost var text, t := u + rest, [];
      var count;
      count, t, rest := Refill(data, last, u, f, rest);
      if count == -1 {
        FailedRead(output, text, want, p, fname);
        return -1, output + READ_FAILED;
      }
      last := last + count;
      output, last, u := SearchBuffer(data, last, count, s, p, fname, output, t, rest, want);
      if count == 0 {
        break;
      }
    }
    AllShown(output, u, rest, want, p, fname);
    return 0, output;
  }

  /** The same for a file that may be missing: `f` is null when it cannot be opened. */
  method DoOneFile(s: seq<byte>, ghost p: seq<byte>, fname: seq<byte>, f: OpenFile?, data: array<byte>)
    returns (code: int, output: seq<byte>)
    requires IsString(s, p) && (f != null ==> Searchable(f) && f.position == 0)
    requires data.Length == BUFSIZE + 1 && data[BUFSIZE] != NEWLINE
    modifies data, f
    ensures f == null ==> code == -1 && output == OPEN_FAILED
    ensures f != null && Readable(f.volume, f.inode) ==> code == 0
    ensures f != null && code == 0 ==> output == Render(fname, Hits(Cut(f.Bytes()), p))
    ensures f != null && code != 0 ==> CutShort(output, Expected(f.Bytes(), p, fname), p, fname)
  {
    if f == null {
      return -1, OPEN_FAILED;
    }
    code, output := GrepFile(s, p, fname, f, data);
  }
}

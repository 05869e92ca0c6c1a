/**
 The read-only file system: files are chains of 4096-byte blocks, found through the index in
 their inode. `Content` is what a file holds; `ReadData` copies parts of it block by block.
 */
module FileSystem {
  import opened Common

  const BLOCK: nat := 4096

  type Block = b: seq<byte> | |b| == BLOCK witness seq(BLOCK, _ => 0)

  /** The length of a file and the words of memory that follow it, of which 1023 are its block index. */
  datatype Inode = Inode(length: nat, index: nat -> nat)

  /** `inodeAt` gives every inode number the memory at its place, also beyond `inodeCount`. */
  datatype Volume = Volume(inodeCount: nat, inodeAt: nat -> Inode, blocks: seq<Block>)

  // ---------- what a file holds ----------

  predicate ValidEntry(v: Volume, f: Inode, i: nat)
  {
    f.index(i) < |v.blocks|
  }

  /** The `i`-th block of a file. */
  function FileBlock(v: Volume, f: Inode, i: nat): Block
  {
    if ValidEntry(v, f, i) then v.blocks[f.index(i)] else seq(BLOCK, _ => 0)
  }

  /** The first `n` blocks of a file, end to end. */
  function Flat(v: Volume, f: Inode, n: nat): (s: seq<byte>)
    ensures |s| == n * BLOCK
  {
    if n == 0 then [] else Flat(v, f, n - 1) + FileBlock(v, f, n - 1)
  }

  function Content(v: Volume, f: Inode): (s: seq<byte>)
    ensures |s| == f.length
  {
    Flat(v, f, f.length / BLOCK + 1)[..f.length]
  }

  lemma {:induction false} FlatAt(v: Volume, f: Inode, n: nat, j: nat)
    requires j < n * BLOCK
    ensures Flat(v, f, n)[j] == FileBlock(v, f, j / BLOCK)[j % BLOCK]
  {
    if j < (n - 1) * BLOCK {
      FlatAt(v, f, n - 1, j);
    } else {
      assert j / BLOCK == n - 1;
    }
  }

  lemma ContentAt(v: Volume, f: Inode, j: nat)
    requires j < f.length
    ensures Content(v, f)[j] == FileBlock(v, f, j / BLOCK)[j % BLOCK]
  {
    FlatAt(v, f, f.length / BLOCK + 1, j);
  }

  /** Byte `j` of a file is byte j mod 4096 of the block whose number is entry j / 4096 of its index. */
  lemma ContentIsItsBlocks(v: Volume, f: Inode, j: nat)
    requires j < f.length && f.index(j / 4096) < |v.blocks|
    ensures Content(v, f)[j] == v.blocks[f.index(j / 4096)][j % 4096]
  {
    ContentAt(v, f, j);
  }

  /** A stretch of a file inside one of its blocks is a stretch of that block. */
  lemma SliceInBlock(v: Volume, f: Inode, offset: nat, n: nat)
    requires offset + n <= f.length && offset % BLOCK + n <= BLOCK
    ensures Content(v, f)[offset..offset + n] == FileBlock(v, f, offset / BLOCK)[offset % BLOCK..offset % BLOCK + n]
  {
    var l, r := Content(v, f)[offset..offset + n], FileBlock(v, f, offset / BLOCK)[offset % BLOCK..offset % BLOCK + n];
    forall k | 0 <= k < n ensures l[k] == r[k] {
      ContentAt(v, f, offset + k);
      assert (offset + k) / BLOCK == offset / BLOCK && (offset + k) % BLOCK == offset % BLOCK + k;
    }
  }

  // ---------- reading ----------

  /** The entries of the index that a read of `n` bytes at `offset` consults are all valid. */
  ghost predicate EntriesValid(v: Volume, f: Inode, offset: nat, n: nat)
  {
    forall i: nat :: offset / BLOCK <= i <= (offset + n) / BLOCK ==> ValidEntry(v, f, i)
  }

  /** `c` is the byte at `j` in the block that the index names for it. */
  ghost predicate FromBlock(v: Volume, f: Inode, j: nat, c: byte)
  {
    f.index(j / 4096) < |v.blocks| && c == v.blocks[f.index(j / 4096)][j % 4096]
  }

  /** From `at` on the buffer `b` holds `n` bytes of the file, from `offset` on, each from its block. */
  ghost predicate FromBlocks(v: Volume, f: Inode, offset: nat, n: nat, at: nat, b: seq<byte>)
  {
    at + n <= |b| && forall p :: at <= p < at + n ==> FromBlock(v, f, offset + (p - at), b[p])
  }

  lemma SliceFromBlocks(v: Volume, f: Inode, offset: nat, n: nat, at: nat, b: seq<byte>)
    requires offset + n <= f.length && EntriesValid(v, f, offset, n)
    requires at + n <= |b| && b[at..at + n] == Content(v, f)[offset..offset + n]
    ensures FromBlocks(v, f, offset, n, at, b)
  {
    forall p | at <= p < at + n ensures FromBlock(v, f, offset + (p - at), b[p]) {
      var j := offset + (p - at);
      assert b[p] == b[at..at + n][p - at] == Content(v, f)[j];
      assert ValidEntry(v, f, j / BLOCK);
      ContentIsItsBlocks(v, f, j);
    }
  }

  /** Some entry of the index from that of byte `first` up to that of byte `last` names no block. */
  ghost predicate BadEntry(v: Volume, f: Inode, first: nat, last: nat)
  {
    exists i: nat :: first / 4096 <= i <= last / 4096 && f.index(i) >= |v.blocks|
  }

  /**
   The result of a read case by case: 0 behind the end, whatever the inode; -1 for an inode that does not
   exist or if some entry of the index, up to that of the byte behind the last one, names no block; and
   otherwise as much as was asked for and is there.
   */
  lemma ReadResultByCase(v: Volume, inode: nat, offset: nat, length: nat)
    ensures var f, r := v.inodeAt(inode), ReadResult(v, inode, offset, length);
      if offset >= f.length then r == 0
      else
        var n := if offset + length <= f.length then length else f.length - offset;
        r == if inode >= v.inodeCount || BadEntry(v, f, offset, offset + n) then -1 else n
  {
    var f := v.inodeAt(inode);
    if offset < f.length {
      var n := if offset + length <= f.length then length else f.length - offset;
      if i: nat :| offset / 4096 <= i <= (offset + n) / 4096 && f.index(i) >= |v.blocks| {
        assert !ValidEntry(v, f, i);
      }
    }
  }

  /** The result of a read: the number of bytes read, or -1. */
  ghost function ReadResult(v: Volume, inode: nat, offset: nat, length: nat): int
  {
    var f := v.inodeAt(inode);
    if offset >= f.length then 0
    else if inode >= v.inodeCount then -1
    else
      var n := Min(length, f.length - offset);
      if EntriesValid(v, f, offset, n) then n else -1
  }

  /** Copies `n` bytes of `block` from `from` on into `buf` from `at` on. */
  method MemMove(buf: array<byte>, at: nat, block: Block, from: nat, n: nat)
    requires from + n <= BLOCK && at + n <= buf.Length
    modifies buf
    ensures buf[..] == old(buf[..at]) + block[from..from + n] + old(buf[at + n..])
  {
    for k := 0 to n
      invariant buf[..] == old(buf[..at]) + block[from..from + k] + old(buf[at + k..])
    {
      buf[at + k] := block[from + k];
    }
  }

  /** Copies `chunk` bytes at `o`, which lie in block `i` of the file, behind those already copied. */
  method CopyChunk(v: Volume, f: Inode, i: nat, o: nat, chunk: nat, buf: array<byte>, to: nat,
                   ghost b0: seq<byte>, ghost at: nat, ghost from: nat)
    requires i == o / BLOCK && ValidEntry(v, f, i)
    requires o + chunk <= f.length && o % BLOCK + chunk <= BLOCK && to + chunk <= buf.Length
    requires from <= o && at <= to && o - from == to - at
    requires Copied(b0, Content(v, f), at, from, o - from, buf[..])
    modifies buf
    ensures Copied(b0, Content(v, f), at, from, o - from + chunk, buf[..])
  {
    SliceInBlock(v, f, o, chunk);
    CopyOn(b0, Content(v, f), at, from, o - from, chunk, buf[..]);
    ghost var after := buf[..to] + Content(v, f)[o..o + chunk] + buf[to + chunk..];
    MemMove(buf, to, v.blocks[f.index(i)], o % BLOCK, chunk);
    assert buf[..] == after;
  }

  /** How much to take from the block at `o` when `n` bytes are wanted. */
  function Chunk(o: nat, n: nat): nat
  {
    if o % BLOCK + n < BLOCK then n else BLOCK - o % BLOCK
  }

  lemma NextBlock(o: nat, n: nat, i: nat)
    requires i == o / BLOCK && i <= (o + n) / BLOCK
    ensures Chunk(o, n) <= n && o % BLOCK + Chunk(o, n) <= BLOCK
    ensures if i + 1 <= (o + n) / BLOCK then i + 1 == (o + Chunk(o, n)) / BLOCK else Chunk(o, n) == n
  {
  }

  /** Reads `n` bytes that the file has at `offset`. */
  method ReadBlocks(v: Volume, f: Inode, offset: nat, n: nat, buf: array<byte>, at: nat)
    returns (result: int, ghost copied: nat)
    requires offset + n <= f.length && at + n <= buf.Length
    modifies buf
    ensures result == if EntriesValid(v, f, offset, n) then n else -1
    ensures copied <= n && (result == n ==> copied == n)
    ensures Copied(old(buf[..]), Content(v, f), at, offset, copied, buf[..])
  {
    hide Content, Copied;
    ghost var b0 := buf[..];
    NothingCopied(b0, Content(v, f), at, offset);
    var o: nat, left: nat, done: nat := offset, n, 0;
    var i := o / BLOCK;
    while i <= (o + left) / BLOCK
      invariant o == offset + done && done + left == n
      invariant offset / BLOCK <= i
      invariant if i <= (offset + n) / BLOCK then i == o / BLOCK else left == 0
      invariant forall e: nat :: offset / BLOCK <= e < i ==> ValidEntry(v, f, e)
      invariant Copied(b0, Content(v, f), at, offset, done, buf[..])
      decreases (offset + n) / BLOCK + 1 - i
    {
      var chunk := BLOCK - o % BLOCK;
      if f.index(i) >= |v.blocks| {
        assert !ValidEntry(v, f, i);
        return -1, done;
      }
      if o % BLOCK + left < BLOCK {
        chunk := left;
      }
      NextBlock(o, left, i);
      CopyChunk(v, f, i, o, chunk, buf, at + done, b0, at, offset);
      o := o + chunk;
      left := left - chunk;
      done := done + chunk;
      i := i + 1;
    }
    result, copied := done, done;
  }

  /**
   Reads up to `length` bytes of a file from `offset` on into `buf` from `at` on, block by block.
   A failed read may have filled part of the range it was given.
   */
  method ReadData(v: Volume, inode: nat, offset: nat, buf: array<byte>, at: nat, length: nat) returns (result: int)
    requires offset + length < 0x1_0000_0000
    requires at + length <= buf.Length
    modifies buf
    ensures result == ReadResult(v, inode, offset, length)
    ensures result > 0 ==>
      buf[..] == old(buf[..at]) + Content(v, v.inodeAt(inode))[offset..offset + result] + old(buf[at + result..])
    ensures result == 0 ==> buf[..] == old(buf[..])
    ensures buf[..at] == old(buf[..at]) && buf[at + length..] == old(buf[at + length..])
    ensures result >= 0 ==> FromBlocks(v, v.inodeAt(inode), offset, result, at, buf[..])
  {
    var f := v.inodeAt(inode);
    if offset >= f.length {
      return 0;
    }
    if inode >= v.inodeCount {
      return -1;
    }
    var n: nat := length;
    if offset + length >= f.length {
      n := f.length - offset;
    }
    ghost var b0 := buf[..];
    ghost var m;
    result, m := ReadBlocks(v, f, offset, n, buf, at);
    hide Content;
    OutsideKept(b0, Content(v, f), at, offset, m, length, buf[..]);
    if result >= 0 {
      CopiedSlice(b0, Content(v, f), at, offset, n, buf[..]);
      SliceFromBlocks(v, f, offset, n, at, buf[..]);
    }
  }

  lemma CopiedSlice(b0: seq<byte>, c: seq<byte>, at: nat, from: nat, n: nat, b: seq<byte>)
    requires Copied(b0, c, at, from, n, b)
    ensures at + n <= |b| && b[at..at + n] == c[from..from + n]
  {
  }

  lemma OutsideKept(b0: seq<byte>, c: seq<byte>, at: nat, from: nat, m: nat, length: nat, b: seq<byte>)
    requires Copied(b0, c, at, from, m, b) && m <= length && at + length <= |b0|
    ensures |b| == |b0| && b[..at] == b0[..at] && b[at + length..] == b0[at + length..]
    ensures m == 0 ==> b == b0
  {
  }

  /** `b` is `b0` with `n` bytes of `c`, from `from` on, copied to `at`. */
  ghost predicate Copied(b0: seq<byte>, c: seq<byte>, at: nat, from: nat, n: nat, b: seq<byte>)
  {
    from + n <= |c| && at + n <= |b0| && b == b0[..at] + c[from..from + n] + b0[at + n..]
  }

  lemma NothingCopied(b0: seq<byte>, c: seq<byte>, at: nat, from: nat)
    requires from <= |c| && at <= |b0|
    ensures Copied(b0, c, at, from, 0, b0)
  {
  }

  lemma CopyOn(b0: seq<byte>, c: seq<byte>, at: nat, from: nat, n: nat, m: nat, b: seq<byte>)
    requires Copied(b0, c, at, from, n, b) && from + n + m <= |c| && at + n + m <= |b0|
    ensures Copied(b0, c, at, from, n + m, b[..at + n] + c[from + n..from + n + m] + b[at + n + m..])
  {
    assert b[..at + n] == b0[..at] + c[from..from + n];
    assert c[from..from + n] + c[from + n..from + n + m] == c[from..from + n + m];
    assert b[at + n + m..] == b0[at + n + m..];
  }

  // ---------- open files ----------

  /** Every entry that reads of the file consult is valid: one more than its blocks need if they are full. */
  ghost predicate Readable(v: Volume, inode: nat)
  {
    var f := v.inodeAt(inode);
    f.length > 0 ==> inode < v.inodeCount && forall i: nat :: i <= f.length / BLOCK ==> ValidEntry(v, f, i)
  }

  /** A file is readable exactly when no read of it, wherever and however long, fails. */
  lemma ReadableExactly(v: Volume, inode: nat)
    ensures Readable(v, inode) <==> forall offset: nat, length: nat :: ReadResult(v, inode, offset, length) != -1
  {
    var f := v.inodeAt(inode);
    if Readable(v, inode) {
      forall offset: nat, length: nat ensures ReadResult(v, inode, offset, length) != -1 {
        if offset < f.length {
          assert (offset + Min(length, f.length - offset)) / BLOCK <= f.length / BLOCK;
        }
      }
    } else {
      assert ReadResult(v, inode, 0, f.length) == -1;
    }
  }

  /** All blocks of the file are there, yet reading it to its end fails. */
  lemma FullBlockFails()
    ensures var v := Volume(1, _ => Inode(BLOCK, i => i), [seq(BLOCK, _ => 0)]);
      && ValidEntry(v, v.inodeAt(0), 0)
      && ReadResult(v, 0, 0, BLOCK) == -1 && ReadResult(v, 0, 0, BLOCK - 1) == BLOCK - 1
  {
    var v := Volume(1, _ => Inode(BLOCK, i => i), [seq(BLOCK, _ => 0)]);
    assert !ValidEntry(v, v.inodeAt(0), 1);
  }

  /** A descriptor of an open file. */
  class OpenFile {
    const volume: Volume
    const inode: nat
    var position: nat

    constructor (volume: Volume, inode: nat)
      ensures this.volume == volume && this.inode == inode && position == 0
    {
      this.volume, this.inode, position := volume, inode, 0;
    }

    function Bytes(): seq<byte>
    {
      Content(volume, volume.inodeAt(inode))
    }

    /** Reads on from the current position. */
    method FileRead(buf: array<byte>, at: nat, nbytes: nat) returns (result: int)
      requires position + nbytes < 0x1_0000_0000 && at + nbytes <= buf.Length
      modifies buf, this`position
      ensures result == ReadResult(volume, inode, old(position), nbytes)
      ensures position == old(position) + if result == -1 then 0 else result
      ensures -1 <= result <= nbytes
      ensures result == 0 && nbytes > 0 ==> position >= |Bytes()|
      ensures Readable(volume, inode) ==> result != -1
      ensures buf[..at] == old(buf[..at]) && buf[at + nbytes..] == old(buf[at + nbytes..])
      ensures result > 0 ==>
        && position <= |Bytes()|
        && buf[..] == old(buf[..at]) + Bytes()[old(position)..position] + old(buf[at + result..])
      ensures result == 0 ==> buf[..] == old(buf[..])
    {
      result := ReadData(volume, inode, position, buf, at, nbytes);
      if result != -1 {
        position := position + result;
        return;
      }
      ReadableExactly(volume, inode);
      return -1;
    }
  }

  // ---------- reading a file in pieces ----------

  /** What consecutive reads of the given sizes return, from `position` on. */
  function Pieces(content: seq<byte>, position: nat, sizes: seq<nat>): seq<seq<byte>>
    requires position <= |content|
    decreases |sizes|
  {
    if sizes == [] then []
    else
      var n := Min(sizes[0], |content| - position);
      [content[position..position + n]] + Pieces(content, position + n, sizes[1..])
  }

  function Join(pieces: seq<seq<byte>>): seq<byte>
  {
    if pieces == [] then [] else pieces[0] + Join(pieces[1..])
  }

  function Sum(sizes: seq<nat>): nat
  {
    if sizes == [] then 0 else sizes[0] + Sum(sizes[1..])
  }

  /** The pieces that consecutive reads return, whatever their sizes, join to one stretch of the file. */
  lemma {:induction false} PiecesJoin(content: seq<byte>, position: nat, sizes: seq<nat>)
    requires position <= |content|
    ensures Join(Pieces(content, position, sizes)) ==
      content[position..position + Min(Sum(sizes), |content| - position)]
    decreases |sizes|
  {
    if sizes != [] {
      var n := Min(sizes[0], |content| - position);
      PiecesJoin(content, position + n, sizes[1..]);
      var p := Pieces(content, position, sizes);
      assert p[1..] == Pieces(content, position + n, sizes[1..]);
    }
  }

  /** A read of a readable file succeeds and returns the next piece. */
  lemma ReadIsNextPiece(v: Volume, inode: nat, position: nat, size: nat)
    requires Readable(v, inode) && position <= |Content(v, v.inodeAt(inode))|
    ensures ReadResult(v, inode, position, size) == Min(size, |Content(v, v.inodeAt(inode))| - position)
  {
    ReadableExactly(v, inode);
  }

  /** Consecutive reads: the first piece is what the read at `position` returns, and the next read goes on behind it. */
  lemma PiecesByRead(v: Volume, inode: nat, position: nat, size: nat, rest: seq<nat>)
    requires Readable(v, inode) && position <= v.inodeAt(inode).length
    ensures var content, n := Content(v, v.inodeAt(inode)), ReadResult(v, inode, position, size);
      && 0 <= n <= |content| - position
      && Pieces(content, position, [size] + rest) ==
        [content[position..position + n]] + Pieces(content, position + n, rest)
  {
    ReadIsNextPiece(v, inode, position, size);
    assert ([size] + rest)[1..] == rest;
  }

  lemma {:induction false} JoinAndSum(a: seq<seq<byte>>, b: seq<seq<byte>>)
    ensures Join(a + b) == Join(a) + Join(b)
    ensures |a| == 1 ==> Join(a) == a[0]
    ensures Sum(seq(|a|, i requires 0 <= i < |a| => |a[i]|)) == |Join(a)|
  {
    if a == [] {
      assert a + b == b;
    } else {
      JoinAndSum(a[1..], b);
      assert (a + b)[1..] == a[1..] + b;
      var sizes := seq(|a|, i requires 0 <= i < |a| => |a[i]|);
      assert sizes[1..] == seq(|a[1..]|, i requires 0 <= i < |a[1..]| => |a[1..][i]|);
    }
  }

  const CAT_BUFFER: nat := 1024

  /** Copies a file to the screen, 1024 bytes at a time; the result is the exit code. */
  method Cat(f: OpenFile) returns (code: nat, output: seq<byte>)
    requires f.position == 0 && |f.Bytes()| + CAT_BUFFER < 0x1_0000_0000
    modifies f
    ensures Readable(f.volume, f.inode) ==> code == 0
    ensures code == 0 ==> output == f.Bytes()
    ensures output <= f.Bytes()
  {
    hide Content, Readable, ReadResult;
    var buf := new byte[CAT_BUFFER];
    output := [];
    while true
      invariant f.position <= |f.Bytes()| && output == f.Bytes()[..f.position]
      decreases |f.Bytes()| - f.position
    {
      ghost var p := f.position;
      var n := f.FileRead(buf, 0, CAT_BUFFER);
      if n == 0 {
        break;
      }
      if n == -1 {
        return 3, output;
      }
      assert buf[..n] == f.Bytes()[p..f.position];
      assert f.Bytes()[..f.position] == f.Bytes()[..p] + f.Bytes()[p..f.position];
      output := output + buf[..n];
    }
    return 0, output;
  }
}

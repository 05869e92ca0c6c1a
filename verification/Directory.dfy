/** Looking up a file by its name in the directory of the file system. */
module Directory {
  import opened Common
  import opened Strings
  import Kernel

  const NAME_LENGTH: nat := 32

  type Name = n: seq<byte> | |n| == NAME_LENGTH witness seq(NAME_LENGTH, _ => 0)

  /** An entry; a name of 32 characters has no terminator. */
  datatype DirEntry = DirEntry(name: Name, fileType: nat, inode: nat)

  /** The string in `s`, cut to `n` characters. */
  function Short(s: seq<byte>, n: nat): (t: seq<byte>)
    ensures |t| <= n && t <= s
  {
    UpToNul(s[..Min(n, |s|)])
  }

  /** Characters are signed. */
  function Signed(c: byte): int
  {
    if c < 128 then c else c - 256
  }

  lemma ShortDiffers(s1: seq<byte>, s2: seq<byte>, n: nat, i: nat)
    requires i < n && i < |s1| && i < |s2| && s1[..i] == s2[..i] && NUL !in s1[..i]
    requires s1[i] != s2[i] || s1[i] == NUL
    ensures Short(s1, n) == Short(s2, n) <==> s1[i] == s2[i]
  {
    var a, b := s1[..Min(n, |s1|)], s2[..Min(n, |s2|)];
    assert a[..i] == s1[..i] && b[..i] == s2[..i];
    if s1[i] == NUL {
      UpToNulAt(a, i);
    } else {
      Longer(a, i);
    }
    if s2[i] == NUL {
      UpToNulAt(b, i);
    } else {
      Longer(b, i);
    }
  }

  lemma {:induction false} Longer(s: seq<byte>, i: nat)
    requires i < |s| && NUL !in s[..i] && s[i] != NUL
    ensures |UpToNul(s)| > i && UpToNul(s)[i] == s[i]
  {
    if i > 0 {
      assert s[0] in s[..i];
      assert s[1..][..i - 1] == s[..i][1..];
      Longer(s[1..], i - 1);
    }
  }

  lemma {:induction false} NoNul(s: seq<byte>)
    requires NUL !in s
    ensures UpToNul(s) == s
  {
    if s != [] {
      NoNul(s[1..]);
    }
  }

  /** `d` is the difference of two characters before which the strings agree. */
  ghost predicate FirstDifference(s1: seq<byte>, s2: seq<byte>, n: nat, d: int)
  {
    exists i :: 0 <= i < n && i < |s1| && i < |s2| && s1[..i] == s2[..i] && d == Signed(s1[i]) - Signed(s2[i])
  }

  /** Compares at most `n` characters of two strings. */
  method StrNCmp(s1: seq<byte>, s2: seq<byte>, n: nat) returns (difference: int)
    requires NUL in s1 && n <= |s2|
    ensures difference == 0 <==> Short(s1, n) == Short(s2, n)
    ensures difference != 0 ==> FirstDifference(s1, s2, n, difference)
    ensures -256 < difference < 256
  {
    for i := 0 to n
      invariant i < |s1| || (i == n && i == |s1|)
      invariant s1[..i] == s2[..i] && NUL !in s1[..i]
    {
      if s1[i] != s2[i] || s1[i] == NUL {
        ShortDiffers(s1, s2, n, i);
        return Signed(s1[i]) - Signed(s2[i]);
      }
      assert s1[..i + 1] == s1[..i] + [s1[i]] && s2[..i + 1] == s2[..i] + [s2[i]];
      StillTerminated(s1, i + 1);
    }
    return 0;
  }

  lemma StillTerminated(s: seq<byte>, i: nat)
    requires NUL in s && i <= |s| && NUL !in s[..i]
    ensures i < |s|
  {
    assert s[..|s|] == s;
  }

  /** A string followed by NULs up to length `n`. */
  function Padded(s: seq<byte>, n: nat): (p: seq<byte>)
    requires |s| <= n
  {
    s + seq(n - |s|, _ => NUL)
  }

  /** The string first, and NUL (0) in all places behind it. */
  lemma PaddedByPlace(s: seq<byte>, n: nat)
    requires |s| <= n
    ensures var p := Padded(s, n); |p| == n && p[..|s|] == s && forall i :: |s| <= i < n ==> p[i] == 0
  {
  }

  /** Copies a string, cut or padded to `n` characters. */
  method StrNCpy(dest: array<byte>, src: seq<byte>, n: nat)
    requires dest.Length == n && NUL in src
    modifies dest
    ensures dest[..] == Padded(Short(src, n), n)
  {
    var i: nat := 0;
    while src[i] != NUL && i < n
      invariant i <= n && i < |src|
      invariant dest[..i] == src[..i] && NUL !in src[..i]
      decreases n - i
    {
      dest[i] := src[i];
      assert src[..i + 1] == src[..i] + [src[i]] && dest[..i + 1] == dest[..i] + [dest[i]];
      i := i + 1;
      StillTerminated(src, i);
    }
    ghost var length := i;
    ShortIsPrefix(src, n, length);
    while i < n
      invariant length <= i <= n
      invariant dest[..i] == Padded(src[..length], i)
    {
      dest[i] := NUL;
      assert Padded(src[..length], i + 1) == Padded(src[..length], i) + [NUL];
      assert dest[..i + 1] == dest[..i] + [NUL];
      i := i + 1;
    }
    assert dest[..n] == dest[..];
  }

  lemma ShortIsPrefix(src: seq<byte>, n: nat, length: nat)
    requires length < |src| && length <= n && NUL !in src[..length]
    requires length == n || src[length] == NUL
    ensures Short(src, n) == src[..length]
  {
    var a := src[..Min(n, |src|)];
    assert a[..length] == src[..length];
    if length < n {
      UpToNulAt(a, length);
    } else {
      NoNul(a);
    }
  }

  // ---------- the lookup ----------

  /** The comparison that a lookup makes: it leaves the last character of a name out. */
  predicate Matches(fname: seq<byte>, name: Name)
  {
    Short(fname, NAME_LENGTH - 1) == Short(name, NAME_LENGTH - 1)
  }

  /** The first entry that matches, or the number of entries. */
  function FirstMatch(fname: seq<byte>, entries: seq<DirEntry>): (i: nat)
    ensures i <= |entries| && (i < |entries| ==> Matches(fname, entries[i].name))
    ensures forall j :: 0 <= j < i ==> !Matches(fname, entries[j].name)
  {
    if entries == [] || Matches(fname, entries[0].name) then 0 else 1 + FirstMatch(fname, entries[1..])
  }

  /** What `open` learns about a name. */
  function Lookup(fname: seq<byte>, entries: seq<DirEntry>): Kernel.Entry
  {
    var i := FirstMatch(fname, entries);
    if i == |entries| then Kernel.Missing else Kernel.Found(entries[i].fileType, entries[i].inode)
  }

  /** The caller's copy of an entry. */
  class Dentry {
    const fileName: array<byte>
    var fileType: nat
    var inode: nat

    constructor ()
      ensures fresh(fileName) && fileName.Length == NAME_LENGTH
    {
      fileName := new byte[NAME_LENGTH];
    }

    /** Looks `fname` up among the entries of the directory; a failed lookup leaves the copy alone. */
    method ReadByName(fname: seq<byte>, entries: seq<DirEntry>) returns (result: int)
      requires NUL in fname && fileName.Length == NAME_LENGTH
      modifies this, fileName
      ensures result == if Lookup(fname, entries).Missing? then -1 else 0
      ensures result == 0 ==> Kernel.Found(fileType, inode) == Lookup(fname, entries)
      ensures result == 0 ==> fileName[..] == Padded(Short(fname, NAME_LENGTH), NAME_LENGTH)
      ensures result == -1 ==> fileName[..] == old(fileName[..]) && fileType == old(fileType) && inode == old(inode)
    {
      hide FirstDifference, Short;
      for i := 0 to |entries|
        invariant forall j :: 0 <= j < i ==> !Matches(fname, entries[j].name)
        invariant fileName[..] == old(fileName[..]) && fileType == old(fileType) && inode == old(inode)
      {
        var difference := StrNCmp(fname, entries[i].name, NAME_LENGTH - 1);
        var checkFlag: byte := difference % 256;
        if checkFlag == 0 {
          StrNCpy(fileName, fname, NAME_LENGTH);
          fileType := entries[i].fileType;
          inode := entries[i].inode;
          return 0;
        }
      }
      return -1;
    }
  }

  /**
   A lookup by the name that an entry has finds this entry if and only if no entry before it has the same
   first 31 characters.
   */
  lemma OwnNameFound(entries: seq<DirEntry>, i: nat)
    requires i < |entries|
    ensures FirstMatch(entries[i].name, entries) == i <==>
      forall j :: 0 <= j < i ==> Short(entries[j].name, NAME_LENGTH - 1) != Short(entries[i].name, NAME_LENGTH - 1)
  {
    var m := FirstMatch(entries[i].name, entries);
    if m != i {
      assert Matches(entries[i].name, entries[i].name);
      assert m < i;
    }
  }

  /** Then the lookup yields the type and the inode of that entry. */
  lemma OwnEntryFound(entries: seq<DirEntry>, i: nat)
    requires i < |entries|
    requires forall j :: 0 <= j < i ==>
      Short(entries[j].name, NAME_LENGTH - 1) != Short(entries[i].name, NAME_LENGTH - 1)
    ensures Lookup(entries[i].name, entries) == Kernel.Found(entries[i].fileType, entries[i].inode)
  {
    OwnNameFound(entries, i);
  }

  /** A lookup fails if and only if no entry agrees with the name in its first 31 characters. */
  lemma MissingExactly(fname: seq<byte>, entries: seq<DirEntry>)
    ensures Lookup(fname, entries) == Kernel.Missing <==>
      forall j :: 0 <= j < |entries| ==> Short(fname, 31) != Short(entries[j].name, 31)
  {
  }

  /** Only entries of the requested name can match if and only if that name is shorter than 31 characters. */
  lemma MatchIsExact(fname: seq<byte>)
    ensures (forall name: Name :: Matches(fname, name) ==> UpToNul(name) == UpToNul(fname)) <==>
      |UpToNul(fname)| < NAME_LENGTH - 1
  {
    var text, n := UpToNul(fname), NAME_LENGTH - 1;
    if |text| < n {
      forall name: Name | Matches(fname, name) ensures UpToNul(name) == text {
        CutOrWhole(fname, n);
        CutOrWhole(name, n);
      }
    } else {
      CutOrWhole(fname, n);
      var name: Name := text[..n] + [if |text| == n then 1 else NUL];
      CutOrWhole(name, n);
      assert NUL !in text[..n];
      if |text| == n {
        assert text[..n] == text;
        NoNul(name);
      } else {
        assert name[..n] == text[..n];
        UpToNulAt(name, n);
      }
      assert Matches(fname, name) && UpToNul(name) != text;
    }
  }

  /** Cutting the memory cuts the string. */
  lemma {:induction false} CutOrWhole(s: seq<byte>, n: nat)
    ensures var text := UpToNul(s); Short(s, n) == if |text| <= n then text else text[..n]
    decreases |s|
  {
    if s != [] && s[0] != NUL && n > 0 {
      CutOrWhole(s[1..], n - 1);
      var a := s[..Min(n, |s|)];
      assert a[1..] == s[1..][..Min(n - 1, |s| - 1)];
    } else if s != [] && n == 0 {
      assert s[..0] == [];
    }
  }
}

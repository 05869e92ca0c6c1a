/** Strings in memory: bytes up to the first NUL. */
module Strings {
  import opened Common

  /** The part of a buffer before its terminator. */
  function UpToNul(s: seq<byte>): (r: seq<byte>)
    ensures NUL !in r && r <= s
    ensures |r| < |s| ==> s[|r|] == NUL
  {
    if s == [] || s[0] == NUL then [] else [s[0]] + UpToNul(s[1..])
  }

  lemma {:induction false} UpToNulAt(s: seq<byte>, k: nat)
    requires k < |s| && s[k] == NUL && NUL !in s[..k]
    ensures UpToNul(s) == s[..k]
  {
    if k > 0 {
      assert s[0] in s[..k];
      assert s[1..][..k - 1] == s[..k][1..];
      UpToNulAt(s[1..], k - 1);
      assert s[..k] == [s[0]] + s[1..][..k - 1];
    }
  }

  /** `data` holds a string of length `end - start` at `start`. */
  ghost predicate StringAt(data: seq<byte>, start: nat, end: nat)
  {
    start <= end < |data| && data[end] == NUL && forall k :: start <= k < end ==> data[k] != NUL
  }

  method StrLen(data: array<byte>, start: nat, ghost end: nat) returns (len: nat)
    requires StringAt(data[..], start, end)
    ensures start + len == end
  {
    len := 0;
    while data[start + len] != NUL
      invariant start + len <= end
      decreases end - start - len
    {
      len := len + 1;
    }
  }
}

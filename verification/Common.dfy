/** The types and constants that the parts of the kernel share. */
module Common {
  type byte = x: int | 0 <= x < 256
  type uint32 = x: int | 0 <= x < 0x1_0000_0000

  const NUL: byte := 0
  const NEWLINE: byte := 10
  const TERMINALS: nat := 3

  function Min(x: int, y: int): int
  {
    if x < y then x else y
  }

  ghost predicate Distinct<T>(s: seq<T>)
  {
    forall i, j :: 0 <= i < j < |s| ==> s[i] != s[j]
  }

  function Reverse<T>(s: seq<T>): (r: seq<T>)
    ensures |r| == |s|
    ensures forall k :: 0 <= k < |s| ==> r[k] == s[|s| - 1 - k]
  {
    seq(|s|, k requires 0 <= k < |s| => s[|s| - 1 - k])
  }

  lemma ConcatAssociative<T>(a: seq<T>, b: seq<T>, c: seq<T>)
    ensures (a + b) + c == a + (b + c)
  {
  }

  lemma MulMonotone(c: nat, x: int, y: int)
    ensures x <= y ==> c * x <= c * y
  {
  }

  /** The remainder of C, which has the sign of the dividend. */
  function Rem(x: int, y: nat): int
    requires y > 0
  {
    if x >= 0 then x % y else -((-x) % y)
  }
}

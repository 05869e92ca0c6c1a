/** The routines that print numbers. */
module Printing {
  import opened Common
  import opened Strings
  import opened Numerals

  /** `buf` holds the string `s` and its terminator at `at`. */
  ghost predicate Holds(buf: seq<byte>, at: nat, s: seq<byte>)
  {
    at + |s| < |buf| && buf[at..at + |s|] == s && buf[at + |s|] == NUL && NUL !in s
  }

  lemma HoldsAt(buf: seq<byte>, at: nat, s: seq<byte>)
    requires Holds(buf, at, s)
    ensures forall k :: at <= k < at + |s| ==> buf[k] == s[k - at] && buf[k] != NUL
  {
    forall k | at <= k < at + |s| ensures buf[k] == s[k - at] && buf[k] != NUL {
      assert buf[at..at + |s|][k - at] == s[k - at] && s[k - at] in s;
    }
  }

  /** `r` is `b` with string `s` reversed, except for the places from `beg` to `end`, which are still to be swapped. */
  ghost predicate Reversing(b: seq<byte>, at: nat, s: seq<byte>, beg: int, end: int, r: seq<byte>)
  {
    && |r| == |b| && at + |s| < |b| && 0 <= beg <= end + 1 && end == |s| - 1 - beg
    && (forall p :: 0 <= p < |b| && !(at <= p < at + |s|) ==> r[p] == b[p])
    && (forall p :: at <= p < at + |s| ==> r[p] == if beg <= p - at <= end then s[p - at] else s[|s| - 1 - (p - at)])
  }

  lemma SwapEnds(b: seq<byte>, at: nat, s: seq<byte>, beg: int, end: int, r: seq<byte>)
    requires Reversing(b, at, s, beg, end, r) && beg < end
    ensures 0 <= at + beg < |r| && 0 <= at + end < |r|
    ensures Reversing(b, at, s, beg + 1, end - 1, r[at + end := r[at + beg]][at + beg := r[at + end]])
  {
  }

  lemma AllReversed(b: seq<byte>, at: nat, s: seq<byte>, beg: int, end: int, r: seq<byte>)
    requires Reversing(b, at, s, beg, end, r) && end <= beg
    ensures r == b[..at] + Reverse(s) + b[at + |s|..]
  {
    assert r[..at] == b[..at] && r[at + |s|..] == b[at + |s|..];
    assert r[at..at + |s|] == Reverse(s);
    assert r == r[..at] + r[at..at + |s|] + r[at + |s|..];
  }

  /** Reverses a string in place. */
  method StrRev(buf: array<byte>, at: nat, ghost s: seq<byte>)
    requires Holds(buf[..], at, s)
    modifies buf
    ensures buf[..] == old(buf[..at]) + Reverse(s) + old(buf[at + |s|..])
  {
    ghost var b := buf[..];
    var length := StrLen(buf, at, at + |s|);
    HoldsAt(b, at, s);
    var beg: int, end: int := 0, length as int - 1;
    while beg < end
      invariant Reversing(b, at, s, beg, end, buf[..])
    {
      SwapEnds(b, at, s, beg, end, buf[..]);
      var tmp := buf[at + end];
      buf[at + end] := buf[at + beg];
      buf[at + beg] := tmp;
      beg := beg + 1;
      end := end - 1;
    }
    AllReversed(b, at, s, beg, end, buf[..]);
  }

  /** Slices of a concatenation. */
  lemma Parts(a: seq<byte>, s: seq<byte>, t: seq<byte>, r: seq<byte>)
    requires r == a + s + t
    ensures r[..|a|] == a && r[|a|..|a| + |s|] == s && r[|a| + |s|..] == t
  {
  }

  lemma Written(a: seq<byte>, x: byte, t: seq<byte>, r: seq<byte>)
    requires t != [] && r == a + t
    ensures r[|a| := x] == a + [x] + t[1..]
  {
  }

  /** `r` is `b` with the string `s` and its terminator written at `at`. */
  ghost predicate Put(b: seq<byte>, at: nat, s: seq<byte>, r: seq<byte>)
  {
    at + |s| < |b| && r == b[..at] + s + ([NUL] + b[at + |s| + 1..])
  }

  /** Byte by byte: the characters from `at` on, a zero byte behind them, and everything else as it was. */
  lemma PutByPlace(b: seq<byte>, at: nat, s: seq<byte>, r: seq<byte>)
    requires at + |s| < |b|
    ensures Put(b, at, s, r) <==>
      |r| == |b| && forall i :: 0 <= i < |b| ==>
        r[i] == if i < at then b[i] else if i < at + |s| then s[i - at] else if i == at + |s| then 0 else b[i]
  {
    var w := b[..at] + s + ([NUL] + b[at + |s| + 1..]);
    assert r == w <==> |r| == |w| && forall i :: 0 <= i < |w| ==> r[i] == w[i];
  }

  lemma PutHolds(b: seq<byte>, at: nat, s: seq<byte>, r: seq<byte>)
    requires Put(b, at, s, r) && NUL !in s
    ensures Holds(r, at, s) && r[..at] == b[..at] && r[at + |s|..] == [NUL] + b[at + |s| + 1..]
  {
    var t := [NUL] + b[at + |s| + 1..];
    Parts(b[..at], s, t, r);
    assert r[at + |s|..][0] == NUL;
  }

  /** The first `p` digits have been written over `b`. */
  ghost predicate Writing(b: seq<byte>, at: nat, digits: seq<byte>, p: nat, r: seq<byte>)
  {
    p <= |digits| && at + |digits| < |b| && r == b[..at] + digits[..p] + b[at + p..]
  }

  lemma WriteOne(b: seq<byte>, at: nat, digits: seq<byte>, p: nat, r: seq<byte>)
    requires Writing(b, at, digits, p, r) && p < |digits|
    ensures |r| == |b| && Writing(b, at, digits, p + 1, r[at + p := digits[p]])
  {
    assert digits[..p + 1] == digits[..p] + [digits[p]];
    assert b[at + p..][1..] == b[at + p + 1..];
    Written(b[..at] + digits[..p], digits[p], b[at + p..], r);
  }

  lemma WriteLast(b: seq<byte>, at: nat, digits: seq<byte>, r: seq<byte>)
    requires Writing(b, at, digits, |digits|, r)
    ensures |r| == |b| && Put(b, at, digits, r[at + |digits| := NUL])
  {
    var p := |digits|;
    assert digits[..p] == digits;
    assert b[at + p..][1..] == b[at + p + 1..];
    Written(b[..at] + digits, NUL, b[at + p..], r);
    assert b[..at] + digits + [NUL] + b[at + p + 1..] == b[..at] + digits + ([NUL] + b[at + p + 1..]);
  }

  lemma NextDigit(digits: seq<byte>, p: nat, v: nat, radix: int)
    requires IsRadix(radix) && v > 0 && p <= |digits| && digits[p..] == Digits(v, radix)
    ensures 0 <= v / radix < v && 0 <= v % radix < radix && p < |digits|
    ensures digits[p] == DigitChar(v % radix) && digits[p + 1..] == Digits(v / radix, radix)
  {
    Smaller(v, radix);
    assert digits[p] == digits[p..][0];
    assert digits[p + 1..] == digits[p..][1..];
  }

  /** Writes the digits of a positive number, lowest first, and a terminator. */
  method WriteDigits(value: uint32, buf: array<byte>, at: nat, radix: int) returns (ghost digits: seq<byte>)
    requires IsRadix(radix) && at + |Digits(value, radix)| < buf.Length
    modifies buf
    ensures digits == Digits(value, radix) && Put(old(buf[..]), at, digits, buf[..])
  {
    ghost var b := buf[..];
    digits := Digits(value, radix);
    var p: nat, v: nat := 0, value;
    assert b == b[..at] + [] + b[at..];
    while v > 0
      invariant v <= value && p <= |digits| && digits[p..] == Digits(v, radix)
      invariant Writing(b, at, digits, p, buf[..])
      decreases v
    {
      NextDigit(digits, p, v, radix);
      WriteOne(b, at, digits, p, buf[..]);
      var i := v % radix;
      buf[at + p] := DigitChar(i);
      p := p + 1;
      v := v / radix;
    }
    WriteLast(b, at, digits, buf[..]);
    buf[at + p] := NUL;
  }

  lemma ReversedPut(b: seq<byte>, at: nat, s: seq<byte>, c: seq<byte>, r: seq<byte>)
    requires Put(b, at, s, c) && NUL !in s
    requires r == c[..at] + Reverse(s) + c[at + |s|..]
    ensures Put(b, at, Reverse(s), r)
  {
    PutHolds(b, at, s, c);
  }

  /** Writes the numeral of a number, and a terminator, at `at`. */
  method Itoa(value: uint32, buf: array<byte>, at: nat, radix: int)
    requires IsRadix(radix) && at + |Numeral(value, radix)| < buf.Length
    modifies buf
    ensures Put(old(buf[..]), at, Numeral(value, radix), buf[..])
  {
    ghost var b := buf[..];
    if value == 0 {
      buf[at] := ZERO;
      buf[at + 1] := NUL;
      return;
    }
    ghost var digits := WriteDigits(value, buf, at, radix);
    DigitsAreDigits(value, radix);
    ghost var c := buf[..];
    PutHolds(b, at, digits, c);
    StrRev(buf, at, digits);
    ReversedPut(b, at, digits, c, buf[..]);
  }

  /** What stands for a signed number in decimal. */
  function SignedNumeral(value: int): seq<byte>
  {
    if value < 0 then [MINUS] + Numeral(-value, 10) else Numeral(value, 10)
  }

  function SignedValue(s: seq<byte>): int
  {
    if s != [] && s[0] == MINUS then -Parse(s[1..], 10) else Parse(s, 10)
  }

  /** Signed printing is invertible as well: the sign is written exactly for negative numbers. */
  lemma SignedNumeralParses(value: int)
    ensures SignedValue(SignedNumeral(value)) == value && NUL !in SignedNumeral(value)
  {
    var n := if value < 0 then -value else value;
    NumeralParses(n, 10);
    if value < 0 {
      assert SignedNumeral(value)[1..] == Numeral(n, 10);
    }
  }

  /** A negative number has "-" (45) in front, and no other character of a numeral is one. */
  lemma SignExactly(value: int)
    ensures SignedNumeral(value) != [] && (SignedNumeral(value)[0] == 45 <==> value < 0)
    ensures forall i :: 1 <= i < |SignedNumeral(value)| ==> 48 <= SignedNumeral(value)[i] <= 57
  {
    var n := if value < 0 then -value else value;
    NumeralParses(n, 10);
  }

  lemma NumeralFits(value: int)
    requires -0x8000_0000 <= value < 0x8000_0000
    ensures |SignedNumeral(value)| <= 33
  {
    Uint32Digits(if value < 0 then -value else value, 10);
  }

  lemma SignInFront(was: seq<byte>, digits: seq<byte>, c: seq<byte>, r: seq<byte>)
    requires was != [] && c == was[0 := MINUS] && Put(c, 1, digits, r)
    ensures Put(was, 0, [MINUS] + digits, r)
  {
    var t := [NUL] + was[|digits| + 2..];
    assert c[..1] == [MINUS];
    assert c[1 + |digits| + 1..] == was[|digits| + 2..];
    assert was[..0] + ([MINUS] + digits) == [MINUS] + digits;
  }

  /** What `%d` prints. */
  method FormatSigned(value: int, buf: array<byte>)
    requires -0x8000_0000 <= value < 0x8000_0000 && buf.Length == 36
    modifies buf
    ensures Put(old(buf[..]), 0, SignedNumeral(value), buf[..])
  {
    hide Numeral;
    NumeralFits(value);
    ghost var was := buf[..];
    if value < 0 {
      buf[0] := MINUS;
      ghost var c := buf[..];
      Itoa(-value, buf, 1, 10);
      SignInFront(was, Numeral(-value, 10), c, buf[..]);
    } else {
      Itoa(value, buf, 0, 10);
    }
  }

  /** Fills `buf[start..8]` with zeros. */
  method PadZeros(buf: array<byte>, start: nat)
    requires start <= 8 < buf.Length
    modifies buf
    ensures buf[..] == old(buf[..start]) + Zeros(8 - start) + old(buf[8..])
  {
    ghost var b, zeros := buf[..], Zeros(8 - start);
    var i := start;
    assert b == b[..start] + [] + b[start..];
    while i < 8
      invariant start <= i <= 8
      invariant Writing(b, start, zeros, i - start, buf[..])
    {
      WriteOne(b, start, zeros, i - start, buf[..]);
      buf[i] := ZERO;
      i := i + 1;
    }
    assert zeros[..8 - start] == zeros;
  }

  lemma PaddedHolds(b: seq<byte>, start: nat, s: seq<byte>, r: seq<byte>)
    requires Holds(b, 8, s) && start == |s| <= 8
    requires r == b[..start] + Zeros(8 - start) + b[8..]
    ensures Holds(r, start, Zeros(8 - start) + s)
  {
    Parts(b[..start], Zeros(8 - start), b[8..], r);
    assert r[8..] == b[8..];
    assert r[start..8] == Zeros(8 - start);
    assert r[8..8 + |s|] == b[8..8 + |s|];
    assert r[start..8 + |s|] == r[start..8] + r[8..8 + |s|];
    assert r[8 + |s|] == b[8..][|s|];
  }

  /** What `%#x` prints: always eight hexadecimal digits that denote the argument. */
  method FormatHex(value: uint32) returns (printed: seq<byte>)
    ensures |printed| == 8 && Parse(printed, 16) == value
    ensures forall k :: 0 <= k < 8 ==> IsDigit(printed[k], 16)
  {
    var buf := new byte[64];
    ghost var s := Numeral(value, 16);
    NumeralParses(value, 16);
    Uint32Digits(value, 16);
    ghost var b := buf[..];
    Itoa(value, buf, 8, 16);
    PutHolds(b, 8, s, buf[..]);
    printed := TakePadded(buf, s);
    ParsePadded(8 - |s|, s, 16);
  }

  /** Pads the string `s` at 8 to the left with zeros and takes it, padding included. */
  method TakePadded(buf: array<byte>, ghost s: seq<byte>) returns (printed: seq<byte>)
    requires Holds(buf[..], 8, s) && |s| <= 8
    modifies buf
    ensures printed == Zeros(8 - |s|) + s
  {
    ghost var b := buf[..];
    var start := StrLen(buf, 8, 8 + |s|);
    PadZeros(buf, start);
    PaddedHolds(b, start, s, buf[..]);
    var length := StrLen(buf, start, start + 8);
    printed := buf[start..start + length];
  }

  lemma NumeralStep(n: nat)
    ensures Numeral(n, 10) == (if n / 10 == 0 then [] else Numeral(n / 10, 10)) + [48 + n % 10]
  {
    if n > 0 {
      Smaller(n, 10);
      assert Digits(n, 10)[1..] == Digits(n / 10, 10);
    }
  }

  /** The length of the numeral of `n`, found by dividing. */
  method CountDigits(n: nat, p0: nat) returns (p: nat)
    ensures p == p0 + |Numeral(n, 10)|
  {
    var shifter: nat, more := n, true;
    p := p0;
    while more
      invariant p + (if more then |Numeral(shifter, 10)| else 0) == p0 + |Numeral(n, 10)|
      decreases shifter, more
    {
      NumeralStep(shifter);
      p := p + 1;
      shifter := shifter / 10;
      more := shifter != 0;
    }
  }

  /** All but the first `k` characters of the numeral have been written over `was`, which it ends at `end`. */
  ghost predicate Backing(was: seq<byte>, end: nat, numeral: seq<byte>, k: nat, r: seq<byte>)
  {
    && k <= |numeral| <= end <= |was|
    && r == was[..end - |numeral| + k] + (numeral[k..] + was[end..])
  }

  lemma WriteBack(was: seq<byte>, end: nat, numeral: seq<byte>, k: nat, r: seq<byte>)
    requires Backing(was, end, numeral, k, r) && k > 0
    ensures |r| == |was| && Backing(was, end, numeral, k - 1, r[end - |numeral| + k - 1 := numeral[k - 1]])
  {
    var p, rest := end - |numeral| + k, numeral[k..] + was[end..];
    assert was[..p] + rest == was[..p - 1] + ([was[p - 1]] + rest);
    Written(was[..p - 1], numeral[k - 1], [was[p - 1]] + rest, r);
    assert ([was[p - 1]] + rest)[1..] == rest;
    assert numeral[k - 1..] == [numeral[k - 1]] + numeral[k..];
  }

  /** The first `k` characters of the numeral are the numeral of `i`, or there are no more. */
  ghost predicate Left(numeral: seq<byte>, k: nat, i: nat, more: bool)
  {
    k <= |numeral| && numeral[..k] == if more then Numeral(i, 10) else []
  }

  lemma LastDigit(numeral: seq<byte>, k: nat, i: nat)
    requires Left(numeral, k, i, true)
    ensures k > 0 && numeral[k - 1] == 48 + i % 10
    ensures Left(numeral, k - 1, i / 10, i / 10 != 0)
  {
    NumeralStep(i);
    assert numeral[..k][k - 1] == numeral[k - 1];
    assert numeral[..k - 1] == numeral[..k][..k - 1];
  }

  /** Writes the numeral of `n` backwards from `end`. */
  method WriteBackwards(n: nat, b: array<byte>, end: nat, ghost numeral: seq<byte>)
    requires numeral == Numeral(n, 10) && |numeral| <= end <= b.Length
    modifies b
    ensures Backing(old(b[..]), end, numeral, 0, b[..])
  {
    hide Numeral;
    ghost var was := b[..];
    ghost var k: nat := |numeral|;
    assert was == was[..end] + ([] + was[end..]);
    assert numeral[..k] == numeral;
    var p: nat, i: nat, more := end, n, true;
    while more
      invariant p == end - |numeral| + k
      invariant Left(numeral, k, i, more)
      invariant Backing(was, end, numeral, k, b[..])
      decreases i, more
    {
      LastDigit(numeral, k, i);
      WriteBack(was, end, numeral, k, b[..]);
      p := p - 1;
      k := k - 1;
      b[p] := 48 + i % 10;
      i := i / 10;
      more := i != 0;
    }
    assert |numeral[..k]| == 0;
  }

  /** The sign and the terminator written first, and the numeral between them afterwards, are the whole string. */
  lemma SignAndDigits(was: seq<byte>, sign: seq<byte>, digits: seq<byte>, c: seq<byte>, r: seq<byte>)
    requires |sign| <= 1 && |sign| + |digits| < |was| && digits != []
    requires c == (if sign == [] then was else was[0 := sign[0]])[|sign| + |digits| := NUL]
    requires r == c[..|sign|] + (digits + c[|sign| + |digits|..])
    ensures Put(was, 0, sign + digits, r)
  {
    assert c[..|sign|] == sign;
    assert c[|sign| + |digits|..] == [NUL] + was[|sign| + |digits| + 1..];
    var t := [NUL] + was[|sign| + |digits| + 1..];
    assert sign + (digits + t) == sign + digits + t;
    assert was[..0] + (sign + digits) == sign + digits;
  }

  /** The conversion in the game program: finds the end of the numeral, then writes it backwards. */
  method ConvertNumber(value: int, b: array<byte>)
    requires -0x8000_0000 < value < 0x8000_0000 && |SignedNumeral(value)| < b.Length
    modifies b
    ensures Put(old(b[..]), 0, SignedNumeral(value), b[..])
  {
    hide Numeral;
    ghost var was := b[..];
    var start: nat, n: nat := 0, if value < 0 then -value else value;
    if value < 0 {
      b[0] := MINUS;
      start := 1;
    }
    ghost var sign := if value < 0 then [MINUS] else [];
    var end := CountDigits(n, start);
    b[end] := NUL;
    ghost var c := b[..];
    NumeralParses(n, 10);
    WriteBackwards(n, b, end, Numeral(n, 10));
    SignAndDigits(was, sign, Numeral(n, 10), c, b[..]);
    assert [] + Numeral(n, 10) == Numeral(n, 10);
  }
}

/** Numbers as strings of digits: the value of a numeral, and the numeral of a value. */
module Numerals {
  import opened Common

  const ZERO: byte := 48
  const MINUS: byte := 45

  predicate IsRadix(r: int)
  {
    2 <= r <= 36
  }

  /** The entry of the lookup table "0123...9ABC...Z". */
  function DigitChar(d: int): byte
    requires 0 <= d < 36
  {
    if d < 10 then 48 + d else 55 + d
  }

  function DigitValue(c: byte): int
  {
    if c < 58 then c - 48 else c - 55
  }

  const LOOKUP := "0123456789ABCDEFGHIJKLMNOPQRSTUVWXYZ"

  /** The digits are those of this table, and have their places in it as values. */
  lemma DigitsByTable(d: int)
    requires 0 <= d < 36
    ensures |LOOKUP| == 36 && DigitChar(d) == LOOKUP[d] as int && DigitValue(LOOKUP[d] as int) == d
  {
  }

  /** `c` is one of the first `r` characters of the table. */
  predicate IsDigit(c: byte, r: int)
    requires IsRadix(r)
  {
    0 <= DigitValue(c) < r && c == DigitChar(DigitValue(c))
  }

  /** The digits of a positive number from the lowest place value up. */
  function Digits(v: nat, r: int): (s: seq<byte>)
    requires IsRadix(r)
    decreases v
  {
    if v == 0 then [] else
      Smaller(v, r);
      [DigitChar(v % r)] + Digits(v / r, r)
  }

  lemma Smaller(v: nat, r: int)
    requires IsRadix(r) && v > 0
    ensures 0 <= v / r < v && 2 * (v / r) <= v && v == (v / r) * r + v % r && 0 <= v % r < r
  {
    var q, m := v / r, v % r;
    assert v == q * r + m && 0 <= m < r;
    assert q >= 0;
    AtLeastDouble(q, r);
  }

  lemma AtLeastDouble(q: nat, r: int)
    requires r >= 2
    ensures 2 * q <= q * r
  {
  }

  /** The numeral of `v` in radix `r`, highest digit first. */
  function Numeral(v: nat, r: int): seq<byte>
    requires IsRadix(r)
  {
    if v == 0 then [ZERO] else Reverse(Digits(v, r))
  }

  /** The value of a numeral. */
  function Parse(s: seq<byte>, r: int): int
  {
    if s == [] then 0 else Parse(s[..|s| - 1], r) * r + DigitValue(s[|s| - 1])
  }

  lemma ParseLast(s: seq<byte>, d: byte, r: int)
    ensures Parse(s + [d], r) == Parse(s, r) * r + DigitValue(d)
  {
    assert (s + [d])[..|s|] == s;
  }

  lemma ReverseFirst(d: byte, s: seq<byte>)
    ensures Reverse([d] + s) == Reverse(s) + [d]
  {
  }

  lemma {:induction false} ParseDigits(v: nat, r: int)
    requires IsRadix(r)
    ensures Parse(Reverse(Digits(v, r)), r) == v
    decreases v
  {
    if v > 0 {
      Smaller(v, r);
      ParseDigits(v / r, r);
      var d, rest := DigitChar(v % r), Digits(v / r, r);
      assert Digits(v, r) == [d] + rest;
      hide Parse, Digits;
      ReverseFirst(d, rest);
      ParseLast(Reverse(rest), d, r);
    }
  }

  lemma {:induction false} HighestDigit(v: nat, r: int)
    requires IsRadix(r) && v > 0
    ensures var s := Digits(v, r); s != [] && s[|s| - 1] != ZERO
    decreases v
  {
    Smaller(v, r);
    if v / r > 0 {
      HighestDigit(v / r, r);
    } else {
      assert v % r == v;
    }
  }

  lemma {:induction false} DigitsAreDigits(v: nat, r: int)
    requires IsRadix(r)
    ensures forall k :: 0 <= k < |Digits(v, r)| ==> IsDigit(Digits(v, r)[k], r)
    decreases v
  {
    if v > 0 {
      Smaller(v, r);
      DigitsAreDigits(v / r, r);
    }
  }

  /**
   Printing is invertible: a numeral has the value it was made from, digits of its radix only, and no leading
   zero.
   */
  lemma NumeralParses(v: nat, r: int)
    requires IsRadix(r)
    ensures var s := Numeral(v, r);
      && Parse(s, r) == v
      && s != [] && (v > 0 ==> s[0] != ZERO)
      && forall k :: 0 <= k < |s| ==> IsDigit(s[k], r) && s[k] != NUL
  {
    if v == 0 {
      assert [ZERO][..0] == [];
    } else {
      var d := Digits(v, r);
      ParseDigits(v, r);
      HighestDigit(v, r);
      DigitsAreDigits(v, r);
    }
  }

  function Pow(b: nat, e: nat): nat
  {
    if e == 0 then 1 else b * Pow(b, e - 1)
  }

  lemma QuotientBelow(v: nat, r: nat, q: nat, p: nat)
    requires q * r <= v < r * p
    ensures q < p
  {
    MulMonotone(r, p, q);
  }

  /** A number below r^k has at most k digits. */
  lemma {:induction false} DigitCount(v: nat, r: int, k: nat)
    requires IsRadix(r) && v < Pow(r, k)
    ensures |Digits(v, r)| <= k
    decreases k
  {
    if v > 0 {
      Smaller(v, r);
      QuotientBelow(v, r, v / r, Pow(r, k - 1));
      DigitCount(v / r, r, k - 1);
    }
  }

  lemma {:induction false} FewerDigits(v: nat, r: int, k: nat)
    requires IsRadix(r) && v < Pow(2, k)
    ensures |Digits(v, r)| <= k
    decreases k
  {
    if v > 0 {
      Smaller(v, r);
      FewerDigits(v / r, r, k - 1);
    }
  }

  lemma PowersOfTwo()
    ensures Pow(2, 32) == 0x1_0000_0000 && Pow(16, 8) == 0x1_0000_0000
  {
    assert Pow(2, 8) == 256;
    assert Pow(2, 16) == 0x1_0000;
    assert Pow(2, 24) == 0x100_0000;
    assert Pow(16, 4) == 0x1_0000;
  }

  /** A 32-bit number has at most 32 digits, and at most 8 in radix 16. */
  lemma Uint32Digits(v: uint32, r: int)
    requires IsRadix(r)
    ensures |Digits(v, r)| <= 32 && |Digits(v, 16)| <= 8
  {
    PowersOfTwo();
    FewerDigits(v, r, 32);
    DigitCount(v, 16, 8);
  }

  function Zeros(n: nat): seq<byte>
  {
    seq(n, _ => ZERO)
  }

  /** Zeros in front do not change the value. */
  lemma {:induction false} ParsePadded(n: nat, s: seq<byte>, r: int)
    ensures Parse(Zeros(n) + s, r) == Parse(s, r)
    decreases n + |s|
  {
    if s != [] {
      ParsePadded(n, s[..|s| - 1], r);
      assert (Zeros(n) + s)[..n + |s| - 1] == Zeros(n) + s[..|s| - 1];
    } else if n > 0 {
      ParsePadded(n - 1, [], r);
      assert Zeros(n) + [] == Zeros(n) && Zeros(n)[..n - 1] == Zeros(n - 1) && Zeros(n - 1) + [] == Zeros(n - 1);
    }
  }

  /** 255 in radix 16 is "FF", 10 in radix 2 is "1010", and 0 is "0" in every radix. */
  lemma SomeNumerals(r: int)
    requires IsRadix(r)
    ensures Numeral(255, 16) == [70, 70] && Numeral(10, 2) == [49, 48, 49, 48] && Numeral(0, r) == [48]
  {
    assert Digits(255, 16) == [70, 70];
    assert Digits(10, 2) == [48, 49] + Digits(2, 2);
    assert Digits(2, 2) == [48, 49];
    assert Digits(10, 2) == [48, 49, 48, 49];
  }
}

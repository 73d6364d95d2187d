/**
  Decimal rendering of integers, as Python's string formatting of an `int`
  produces it inside the f-string of `rgb_to_ansi`: an optional '-' sign
  followed by the digits of the magnitude, without leading zeros.  A reader
  for such numerals is the partner that the colour escapes are decoded with.
 */
module Decimal {
  import opened Wrappers

  predicate IsDigit(c: char) {
    '0' <= c <= '9'
  }

  predicate AllDigits(s: string) {
    forall i :: 0 <= i < |s| ==> IsDigit(s[i])
  }

  function DigitChar(d: nat): (c: char)
    requires d < 10
    ensures IsDigit(c)
  {
    (48 + d) as char
  }

  function DigitValue(c: char): (d: nat)
    requires IsDigit(c)
    ensures d < 10 && DigitChar(d) == c
  {
    (c as int - 48) as nat
  }

  /** The decimal numeral of `n`: digits only, never empty, no leading zero. */
  function NatToDecimal(n: nat): (s: string)
    ensures |s| > 0 && AllDigits(s)
    ensures s[0] == '0' ==> n == 0 && |s| == 1
    decreases n
  {
    if n < 10 then [DigitChar(n)] else NatToDecimal(n / 10) + [DigitChar(n % 10)]
  }

  /** What `str(i)` gives for an `int`: the magnitude's numeral, after '-' when negative. */
  function IntToDecimal(i: int): (s: string)
    ensures |s| > 0
    ensures s[0] == '-' <==> i < 0
    ensures AllDigits(if i < 0 then s[1..] else s)
  {
    if i < 0 then "-" + NatToDecimal(-i) else NatToDecimal(i)
  }

  /** The value of a string of digits, most significant digit first. */
  function DigitsValue(s: string): nat
    requires AllDigits(s)
  {
    if s == [] then 0 else DigitsValue(s[..|s| - 1]) * 10 + DigitValue(s[|s| - 1])
  }

  /** The number of digits at the front of `s`. */
  function LeadingDigits(s: string): (k: nat)
    ensures k <= |s| && AllDigits(s[..k])
    ensures k < |s| ==> !IsDigit(s[k])
  {
    if s == [] || !IsDigit(s[0]) then 0
    else
      var k := 1 + LeadingDigits(s[1..]);
      assert s[..k] == [s[0]] + s[1..][..k - 1];
      k
  }

  /** Reads the longest numeral at the front of `s`; `None` when `s` does not start with a digit. */
  function ReadNat(s: string): (res: Option<(nat, string)>)
    ensures res.Some? ==> |res.value.1| < |s| && res.value.1 == s[|s| - |res.value.1|..]
    ensures res.None? <==> (s == [] || !IsDigit(s[0]))
  {
    var k := LeadingDigits(s);
    if k == 0 then None else Some((DigitsValue(s[..k]), s[k..]))
  }

  /** Reads an optionally negative numeral at the front of `s`. */
  function ReadInt(s: string): (res: Option<(int, string)>)
    ensures res.Some? ==> |res.value.1| < |s| && res.value.1 == s[|s| - |res.value.1|..]
  {
    if |s| > 0 && s[0] == '-' then Signed(ReadNat(s[1..]), true) else Signed(ReadNat(s), false)
  }

  /** The value read, negated when a '-' came before it. */
  function Signed(read: Option<(nat, string)>, negative: bool): Option<(int, string)> {
    match read
    case None => None
    case Some((n, rest)) => Some((if negative then -(n as int) else n as int, rest))
  }

  /** Reading back a rendered natural number gives that number. */
  lemma {:induction false} ValueOfDecimal(n: nat)
    ensures DigitsValue(NatToDecimal(n)) == n
    decreases n
  {
    if n >= 10 {
      var s := NatToDecimal(n);
      ValueOfDecimal(n / 10);
      assert s[..|s| - 1] == NatToDecimal(n / 10);
    }
  }

  /** A digit string without leading zeros is the rendering of its own value. */
  lemma {:induction false} DecimalOfValue(s: string)
    requires |s| > 0 && AllDigits(s)
    requires s[0] == '0' ==> |s| == 1
    ensures NatToDecimal(DigitsValue(s)) == s
    decreases |s|
  {
    if |s| > 1 {
      var p := s[..|s| - 1];
      PositiveValue(p);
      DecimalOfValue(p);
      var n := DigitsValue(s);
      assert n / 10 == DigitsValue(p) && n % 10 == DigitValue(s[|s| - 1]);
      assert s == p + [s[|s| - 1]];
    }
  }

  /** A digit string whose first digit is not '0' has a positive value. */
  lemma {:induction false} PositiveValue(s: string)
    requires |s| > 0 && AllDigits(s) && s[0] != '0'
    ensures DigitsValue(s) > 0
    decreases |s|
  {
    if |s| > 1 {
      PositiveValue(s[..|s| - 1]);
    }
  }

  /** The digits at the front of `d + rest` are exactly `d` when `rest` does not start with a digit. */
  lemma {:induction false} LeadingDigitsOfNumeral(d: string, rest: string)
    requires AllDigits(d)
    requires rest == [] || !IsDigit(rest[0])
    ensures LeadingDigits(d + rest) == |d|
    decreases |d|
  {
    if d != [] {
      assert (d + rest)[1..] == d[1..] + rest;
      LeadingDigitsOfNumeral(d[1..], rest);
    } else {
      assert d + rest == rest;
    }
  }

  /** Reading back a rendered natural number gives that number, and stops where its numeral ends. */
  lemma ReadNatRoundTrip(n: nat, rest: string)
    requires rest == [] || !IsDigit(rest[0])
    ensures ReadNat(NatToDecimal(n) + rest) == Some((n, rest))
  {
    var d := NatToDecimal(n);
    LeadingDigitsOfNumeral(d, rest);
    ValueOfDecimal(n);
    assert (d + rest)[..|d|] == d;
    assert (d + rest)[|d|..] == rest;
  }

  /** The reader undoes the rendering, sign included, and stops exactly where the numeral ends. */
  lemma ReadIntRoundTrip(i: int, rest: string)
    requires rest == [] || !IsDigit(rest[0])
    ensures ReadInt(IntToDecimal(i) + rest) == Some((i, rest))
  {
    if i < 0 {
      ReadNegativeRoundTrip(-i, rest);
    } else {
      var d := NatToDecimal(i);
      ReadNatRoundTrip(i, rest);
      assert (d + rest)[0] == d[0];
    }
  }

  /** A '-' before a rendered positive number reads back as its negation. */
  lemma ReadNegativeRoundTrip(n: nat, rest: string)
    requires n > 0
    requires rest == [] || !IsDigit(rest[0])
    ensures ReadInt("-" + NatToDecimal(n) + rest) == Some((-(n as int), rest))
  {
    var d := NatToDecimal(n);
    var t := d + rest;
    assert "-" + d + rest == "-" + t;
    ReadSigned(t);
    ReadNatRoundTrip(n, rest);
  }

  /** After a '-', the reader reads a natural number and negates it. */
  lemma ReadSigned(t: string)
    ensures ReadInt("-" + t) == Signed(ReadNat(t), true)
  {
    var s := "-" + t;
    assert s[0] == '-' && s[1..] == t;
  }
}
